/** A literal reading of the two Java regular expressions of the email check,
    with `matches` meaning "the whole string is in the pattern's language":

      structure: ([a-zA-Z\d]+[\w\d+~.\-]*[a-zA-Z\d]*)*[a-zA-Z\d]+
                 (@([a-zA-Z\d]+[a-zA-Z\d\-]*[a-zA-Z\d]*)*[a-zA-Z\d]\.([a-zA-Z]+[a-zA-Z-]*[a-zA-Z]+)+)$
      run:       (.*)[^a-zA-Z\d]{2,}(.*)

    Concatenation is a split of the string, `X+` and `X*` over a character class
    are runs of that class, and a starred or plussed group is a split into
    successive pieces each matching the group. The lemmas prove that these
    readings and the predicates of module EmailPattern decide the same thing. */
module EmailRegex {
  import opened Chars
  import opened EmailPattern

  /** `X+` over a character class. */
  ghost predicate Plus(s: string, cls: char -> bool)
  {
    |s| >= 1 && AllIn(s, cls)
  }

  /** One match of the group `([a-zA-Z\d]+ C* [a-zA-Z\d]*)` for a class C. */
  ghost predicate OpenGroup(u: string, cls: char -> bool)
  {
    exists i, j :: 0 < i <= j <= |u| && Plus(u[..i], IsAlnum) && AllIn(u[i..j], cls) && AllIn(u[j..], IsAlnum)
  }

  /** `(...)*` of OpenGroup: zero or more successive matches. */
  ghost predicate OpenGroups(s: string, cls: char -> bool)
    decreases |s|
  {
    s == [] || exists k :: 0 < k <= |s| && OpenGroup(s[..k], cls) && OpenGroups(s[k..], cls)
  }

  /** The part before `@`: `([a-zA-Z\d]+[\w\d+~.\-]*[a-zA-Z\d]*)*[a-zA-Z\d]+`. */
  ghost predicate LocalMatches(s: string)
  {
    exists k :: 0 <= k < |s| && OpenGroups(s[..k], IsLocalChar) && Plus(s[k..], IsAlnum)
  }

  /** The part between `@` and `\.`: `([a-zA-Z\d]+[a-zA-Z\d\-]*[a-zA-Z\d]*)*[a-zA-Z\d]`. */
  ghost predicate DomainMatches(s: string)
  {
    |s| >= 1 && OpenGroups(s[..|s| - 1], IsDomainChar) && IsAlnum(s[|s| - 1])
  }

  /** One match of the group `([a-zA-Z]+[a-zA-Z-]*[a-zA-Z]+)`. */
  ghost predicate ClosedGroup(u: string)
  {
    exists i, j :: 0 < i <= j < |u| && Plus(u[..i], IsLetter) && AllIn(u[i..j], IsTopLabelChar) && Plus(u[j..], IsLetter)
  }

  /** `(...)+` of ClosedGroup: one or more successive matches. */
  ghost predicate ClosedGroups(s: string)
    decreases |s|
  {
    exists k :: 0 < k <= |s| && ClosedGroup(s[..k]) && (k == |s| || ClosedGroups(s[k..]))
  }

  /** The first regular expression matches the whole of `s`. */
  ghost predicate StructureMatches(s: string)
  {
    exists i, j :: 0 <= i < j < |s| && LocalMatches(s[..i]) && s[i] == '@'
      && DomainMatches(s[i + 1..j]) && s[j] == '.' && ClosedGroups(s[j + 1..])
  }

  /** The second regular expression matches the whole of `s`: a run of at least
      two specials, with no line terminator before or after it. */
  ghost predicate SpecialRunMatches(s: string)
  {
    exists i, j :: 0 <= i && i + 2 <= j <= |s| && AllIn(s[..i], IsDotChar)
      && AllIn(s[i..j], IsSpecial) && AllIn(s[j..], IsDotChar)
  }

  /** A starred open group is the empty string or a run of C that starts alphanumeric. */
  lemma {:induction false} OpenGroupsShape(s: string, cls: char -> bool)
    requires forall c :: IsAlnum(c) ==> cls(c)
    ensures OpenGroups(s, cls) <==> s == [] || (AllIn(s, cls) && IsAlnum(s[0]))
  {
    if s != [] {
      if OpenGroups(s, cls) {
        var k :| 0 < k <= |s| && OpenGroup(s[..k], cls) && OpenGroups(s[k..], cls);
        var u := s[..k];
        var i, j :| 0 < i <= j <= |u| && Plus(u[..i], IsAlnum) && AllIn(u[i..j], cls) && AllIn(u[j..], IsAlnum);
        assert u == u[..i] + u[i..j] + u[j..];
        AllInAppend(u[..i], u[i..j], IsAlnum);
        AllInAppend(u[..i] + u[i..j], u[j..], cls);
        assert u[..i][0] == s[0];
        OpenGroupsShape(s[k..], cls);
        assert s == u + s[k..];
        AllInAppend(u, s[k..], cls);
      }
      if AllIn(s, cls) && IsAlnum(s[0]) {
        assert s[..|s|] == s && s[|s|..] == [];
        assert Plus(s[..1], IsAlnum) && AllIn(s[1..|s|], cls) && AllIn(s[|s|..], IsAlnum);
        assert OpenGroup(s[..|s|], cls);
        assert OpenGroups(s[|s|..], cls);
      }
    }
  }

  /** The local-part reading of the regex is IsLocalPart. */
  lemma LocalMatchesIff(s: string)
    ensures LocalMatches(s) <==> IsLocalPart(s)
  {
    OpenGroupsShape(s[..0], IsLocalChar);
    if LocalMatches(s) {
      var k :| 0 <= k < |s| && OpenGroups(s[..k], IsLocalChar) && Plus(s[k..], IsAlnum);
      OpenGroupsShape(s[..k], IsLocalChar);
      assert s == s[..k] + s[k..];
      AllInAppend(s[k..], [], IsLocalChar);
      assert AllIn(s[k..], IsLocalChar);
      AllInAppend(s[..k], s[k..], IsLocalChar);
      assert s[|s| - 1] == s[k..][|s| - 1 - k];
      if k == 0 { assert s[0] == s[k..][0]; } else { assert s[0] == s[..k][0]; }
    }
    if IsLocalPart(s) {
      var k := |s| - 1;
      if k > 0 {
        assert AllIn(s[..k], IsLocalChar) && IsAlnum(s[..k][0]);
        OpenGroupsShape(s[..k], IsLocalChar);
      }
      assert s[k..] == [s[k]];
      assert OpenGroups(s[..k], IsLocalChar) && Plus(s[k..], IsAlnum);
    }
  }

  /** The domain reading of the regex is IsDomainLabel. */
  lemma DomainMatchesIff(s: string)
    ensures DomainMatches(s) <==> IsDomainLabel(s)
  {
    if |s| >= 1 {
      var k := |s| - 1;
      OpenGroupsShape(s[..k], IsDomainChar);
      assert s == s[..k] + [s[k]];
      AllInAppend(s[..k], [s[k]], IsDomainChar);
      if k > 0 { assert s[0] == s[..k][0]; }
    }
  }

  /** A plussed closed group is a TLD-like label. */
  lemma {:induction false} ClosedGroupsIff(s: string)
    ensures ClosedGroups(s) <==> IsTopLabel(s)
    decreases |s|
  {
    if ClosedGroups(s) {
      var k :| 0 < k <= |s| && ClosedGroup(s[..k]) && (k == |s| || ClosedGroups(s[k..]));
      var u := s[..k];
      var i, j :| 0 < i <= j < |u| && Plus(u[..i], IsLetter) && AllIn(u[i..j], IsTopLabelChar) && Plus(u[j..], IsLetter);
      assert u == u[..i] + u[i..j] + u[j..];
      AllInAppend(u[..i], u[i..j], IsTopLabelChar);
      AllInAppend(u[..i] + u[i..j], u[j..], IsTopLabelChar);
      assert u[0] == u[..i][0] && u[|u| - 1] == u[j..][|u| - 1 - j];
      assert s == u + s[k..];
      if k < |s| {
        ClosedGroupsIff(s[k..]);
        AllInAppend(u, s[k..], IsTopLabelChar);
        assert s[|s| - 1] == s[k..][|s| - 1 - k];
      } else {
        assert s == u;
      }
      assert s[0] == u[0];
    }
    if IsTopLabel(s) {
      var n := |s|;
      assert s[..n] == s;
      assert Plus(s[..1], IsLetter) && AllIn(s[1..n - 1], IsTopLabelChar) && Plus(s[n - 1..], IsLetter);
      assert ClosedGroup(s[..n]);
    }
  }

  /** The first regex and IsStructural accept the same strings. */
  lemma StructureMatchesIff(s: string)
    ensures StructureMatches(s) <==> IsStructural(s)
  {
    if StructureMatches(s) {
      var i, j :| 0 <= i < j < |s| && LocalMatches(s[..i]) && s[i] == '@'
        && DomainMatches(s[i + 1..j]) && s[j] == '.' && ClosedGroups(s[j + 1..]);
      LocalMatchesIff(s[..i]);
      DomainMatchesIff(s[i + 1..j]);
      ClosedGroupsIff(s[j + 1..]);
      StructuralAt(s, i, j);
    }
    if IsStructural(s) {
      var i, j :| 0 <= i < j < |s| && SplitsAt(s, i, j);
      LocalMatchesIff(s[..i]);
      DomainMatchesIff(s[i + 1..j]);
      ClosedGroupsIff(s[j + 1..]);
    }
  }

  /** A structural address has no line terminator in it. */
  lemma StructuralHasNoLineTerminator(s: string)
    requires IsStructural(s)
    ensures AllIn(s, IsDotChar)
  {
  }

  /** A run of two or more specials contains two adjacent specials; the converse
      holds whenever no line terminator blocks the `.*` around the pair. */
  lemma SpecialRunIff(s: string)
    ensures SpecialRunMatches(s) ==> HasAdjacentSpecials(s)
    ensures AllIn(s, IsDotChar) && HasAdjacentSpecials(s) ==> SpecialRunMatches(s)
  {
    if SpecialRunMatches(s) {
      var i, j :| 0 <= i && i + 2 <= j <= |s| && AllIn(s[..i], IsDotChar)
        && AllIn(s[i..j], IsSpecial) && AllIn(s[j..], IsDotChar);
      assert s[i] == s[i..j][0] && s[i + 1] == s[i..j][1];
    }
    if AllIn(s, IsDotChar) && HasAdjacentSpecials(s) {
      var i :| 0 <= i < |s| - 1 && IsSpecial(s[i]) && IsSpecial(s[i + 1]);
      assert AllIn(s[..i], IsDotChar) && AllIn(s[i..i + 2], IsSpecial) && AllIn(s[i + 2..], IsDotChar);
    }
  }

  /** The Java check `!structure.matches || run.matches` refuses exactly the
      strings that are not IsWellFormed. */
  lemma FormatCheckIff(s: string)
    ensures (!StructureMatches(s) || SpecialRunMatches(s)) <==> !IsWellFormed(s)
  {
    StructureMatchesIff(s);
    SpecialRunIff(s);
    if IsStructural(s) {
      StructuralHasNoLineTerminator(s);
    }
  }

  /** Outside the structural pattern the two special-run readings can differ:
      a line terminator keeps `.*` from reaching the pair. The combined check is
      unaffected, because the structural test already refuses such strings. */
  lemma LineTerminatorBlocksRun()
    ensures HasAdjacentSpecials("a\nb..") && !SpecialRunMatches("a\nb..")
  {
    var s := "a\nb..";
    assert IsSpecial(s[3]) && IsSpecial(s[4]);
    forall i, j | 0 <= i && i + 2 <= j <= |s| && AllIn(s[i..j], IsSpecial)
      ensures !AllIn(s[..i], IsDotChar)
    {
      assert IsSpecial(s[i]) && IsSpecial(s[i + 1]) by {
        assert s[i..j][0] == s[i] && s[i..j][1] == s[i + 1];
      }
      assert i == 3;
      assert s[..i][1] == '\n';
    }
  }
}
