/** The email format rule of the registration check, restated as predicates on
    finite strings: the structural pattern `Local "@" Domain "." TopLabel` and the
    rule against two adjacent characters outside `[a-zA-Z0-9]`. That these agree
    with the two Java regular expressions is proved in module EmailRegex. */
module EmailPattern {
  import opened Chars

  /** Text before the `@`: one or more of `[A-Za-z0-9_+~.-]`, first and last alphanumeric. */
  predicate IsLocalPart(p: string)
  {
    |p| >= 1 && AllIn(p, IsLocalChar) && IsAlnum(p[0]) && IsAlnum(p[|p| - 1])
  }

  /** Text between the `@` and the dot: one or more of `[A-Za-z0-9-]`, first and
      last alphanumeric. It holds no dot, so the domain is a single label. */
  predicate IsDomainLabel(d: string)
  {
    |d| >= 1 && AllIn(d, IsDomainChar) && IsAlnum(d[0]) && IsAlnum(d[|d| - 1])
  }

  /** Text after the dot: two or more of `[A-Za-z-]`, first and last a letter. */
  predicate IsTopLabel(t: string)
  {
    |t| >= 2 && AllIn(t, IsTopLabelChar) && IsLetter(t[0]) && IsLetter(t[|t| - 1])
  }

  /** `s` splits as local part, `@`, domain label, `.`, top label. */
  predicate IsStructural(s: string)
  {
    exists i, j | 0 <= i < j < |s| :: SplitsAt(s, i, j)
  }

  /** `s[i]` is the `@` and `s[j]` the dot of a structural split. */
  predicate SplitsAt(s: string, i: int, j: int)
  {
    0 <= i < j < |s| && s[i] == '@' && s[j] == '.'
    && IsLocalPart(s[..i]) && IsDomainLabel(s[i + 1..j]) && IsTopLabel(s[j + 1..])
  }

  /** Two neighbouring characters that are both outside `[a-zA-Z0-9]`. */
  predicate HasAdjacentSpecials(s: string)
  {
    exists i :: 0 <= i < |s| - 1 && IsSpecial(s[i]) && IsSpecial(s[i + 1])
  }

  /** The format rule as a whole: structural and free of adjacent specials. */
  predicate IsWellFormed(s: string)
  {
    IsStructural(s) && !HasAdjacentSpecials(s)
  }

  /** Gluing the three pieces back together gives a structural address. */
  lemma StructuralAt(s: string, i: int, j: int)
    requires SplitsAt(s, i, j)
    ensures IsStructural(s)
  {
  }

  /** In a structural split the `@` at `i` is the only `@`, and the dot at `j`
      is the only dot after it. */
  lemma StructuralPositions(s: string, i: int, j: int)
    requires SplitsAt(s, i, j)
    ensures forall k :: 0 <= k < |s| && s[k] == '@' ==> k == i
    ensures forall k :: i < k < |s| && s[k] == '.' ==> k == j
  {
  }

  /** Occurrence counts of `@` and `.` in an address built from valid pieces. */
  lemma {:induction false} PieceCounts(local: string, domain: string, top: string)
    requires IsLocalPart(local) && IsDomainLabel(domain) && IsTopLabel(top)
    ensures Count(local + "@" + domain + "." + top, '@') == 1
    ensures Count(domain + "." + top, '.') == 1
    ensures Count(top, '.') == 0
  {
    CountOutsideClass(local, IsLocalChar, '@');
    CountOutsideClass(domain, IsDomainChar, '@');
    CountOutsideClass(domain, IsDomainChar, '.');
    CountOutsideClass(top, IsTopLabelChar, '@');
    CountOutsideClass(top, IsTopLabelChar, '.');
    CountAppend(domain, ".", '@');
    CountAppend(domain + ".", top, '@');
    CountAppend(domain, ".", '.');
    CountAppend(domain + ".", top, '.');
    CountAppend(local, "@", '@');
    CountAppend(local + "@", domain + "." + top, '@');
    assert local + "@" + domain + "." + top == (local + "@") + (domain + "." + top);
  }

  /** A split cut at `i` and `j` reassembles to the whole address. */
  lemma Reassemble(s: string, i: int, j: int)
    requires 0 <= i < j < |s| && s[i] == '@' && s[j] == '.'
    ensures s[i + 1..] == s[i + 1..j] + "." + s[j + 1..]
    ensures s == s[..i] + "@" + s[i + 1..j] + "." + s[j + 1..]
  {
  }

  /** The `@` and dot counts of an address at a given structural split. */
  lemma SplitCounts(s: string, i: int, j: int)
    requires SplitsAt(s, i, j)
    ensures Count(s, '@') == 1
    ensures Count(s[i + 1..], '.') == 1
    ensures Count(s[j + 1..], '.') == 0
  {
    var local, domain, top := s[..i], s[i + 1..j], s[j + 1..];
    Reassemble(s, i, j);
    PieceCounts(local, domain, top);
  }

  /** The first and last characters of an address at a given structural split. */
  lemma SplitEnds(s: string, i: int, j: int)
    requires SplitsAt(s, i, j)
    ensures IsAlnum(s[0]) && j < |s| - 2 && IsLetter(s[j + 1]) && IsLetter(s[|s| - 1])
  {
  }

  /** What any structurally accepted address looks like: exactly one `@`, exactly
      one `.` after it, an alphanumeric first character, and a final label of at
      least two characters that begins and ends with a letter. */
  lemma StructuralShape(s: string)
    requires IsStructural(s)
    ensures Count(s, '@') == 1
    ensures exists i :: 0 <= i < |s| && s[i] == '@' && Count(s[i + 1..], '.') == 1
    ensures IsAlnum(s[0])
    ensures exists j :: (0 <= j < |s| - 2 && s[j] == '.' && Count(s[j + 1..], '.') == 0
                         && IsLetter(s[j + 1]) && IsLetter(s[|s| - 1]))
  {
    var i, j :| SplitsAt(s, i, j);
    SplitCounts(s, i, j);
    SplitEnds(s, i, j);
  }

  /** `a..b@x.com` fits the structural pattern, yet the format rule refuses it:
      the two dots are neighbours. */
  lemma DoubleDotStructuralButRejected()
    ensures IsStructural("a..b@x.com") && !IsWellFormed("a..b@x.com")
  {
    var s := "a..b@x.com";
    assert s[..4] == "a..b" && s[5..6] == "x" && s[7..] == "com";
    StructuralAt(s, 4, 6);
    assert IsSpecial(s[1]) && IsSpecial(s[2]);
  }

  /** An address split into purely alphanumeric local and domain parts and a
      purely alphabetic final label passes the whole format rule: its only
      specials are the `@` and the dot, and they are never neighbours. */
  lemma PlainPiecesWellFormed(s: string, i: int, j: int)
    requires SplitsAt(s, i, j)
    requires AllIn(s[..i], IsAlnum) && AllIn(s[i + 1..j], IsAlnum) && AllIn(s[j + 1..], IsLetter)
    ensures IsWellFormed(s)
  {
    forall k | 0 <= k < |s| && k != i && k != j ensures IsAlnum(s[k]) {
      if k < i {
        assert s[k] == s[..i][k];
      } else if k < j {
        assert s[k] == s[i + 1..j][k - i - 1];
      } else {
        assert s[k] == s[j + 1..][k - j - 1];
      }
    }
    assert IsAlnum(s[i + 1]) by { assert s[i + 1] == s[i + 1..j][0]; }
  }

  /** A plain single-label address is accepted. */
  lemma PlainAddressWellFormed()
    ensures IsWellFormed("alice@example.com")
  {
    var s := "alice@example.com";
    assert s[..5] == "alice" && s[6..13] == "example" && s[14..] == "com";
    PlainPiecesWellFormed(s, 5, 13);
  }

  /** Without an `@` there is no structural split. */
  lemma NoAtRejected(s: string)
    requires forall k :: 0 <= k < |s| ==> s[k] != '@'
    ensures !IsStructural(s)
  {
  }

  /** Two dots after the `@` cannot both belong to a structural address, so the
      domain is a single label. */
  lemma TwoDotsAfterAtRejected(s: string, a: int, d1: int, d2: int)
    requires 0 <= a < d1 < d2 < |s| && s[a] == '@' && s[d1] == '.' && s[d2] == '.'
    ensures !IsStructural(s)
  {
  }

  /** Concrete refusals: no `@`, no dot, and a host with two labels. */
  lemma ConcreteAddressesRejected()
    ensures !IsStructural("not-an-email")
    ensures !IsStructural("a@b")
    ensures !IsStructural("alice@mail.example.com")
  {
    NoAtRejected("not-an-email");
    TwoDotsAfterAtRejected("alice@mail.example.com", 5, 10, 18);
  }
}
