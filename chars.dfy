/** Character classes used by the registration checks: the ASCII classes of the
    email patterns, Java's line terminators (which the regex `.` does not match)
    and Java's `Character.isWhitespace`, which `String.isBlank` relies on. */
module Chars {

  /** Every character of `s` belongs to the class `cls`. */
  predicate AllIn(s: string, cls: char -> bool)
  {
    forall i :: 0 <= i < |s| ==> cls(s[i])
  }

  /** `[a-zA-Z]` */
  predicate IsLetter(c: char)
  {
    'a' <= c <= 'z' || 'A' <= c <= 'Z'
  }

  /** `\d`, which without the UNICODE_CHARACTER_CLASS flag is `[0-9]` */
  predicate IsDigit(c: char)
  {
    '0' <= c <= '9'
  }

  /** `[a-zA-Z\d]` */
  predicate IsAlnum(c: char)
  {
    IsLetter(c) || IsDigit(c)
  }

  /** `[^a-zA-Z\d]` */
  predicate IsSpecial(c: char)
  {
    !IsAlnum(c)
  }

  /** `[\w\d+~.\-]`: letters, digits, underscore, plus, tilde, dot and hyphen */
  predicate IsLocalChar(c: char)
  {
    IsAlnum(c) || c == '_' || c == '+' || c == '~' || c == '.' || c == '-'
  }

  /** `[a-zA-Z\d\-]` */
  predicate IsDomainChar(c: char)
  {
    IsAlnum(c) || c == '-'
  }

  /** `[a-zA-Z-]` */
  predicate IsTopLabelChar(c: char)
  {
    IsLetter(c) || c == '-'
  }

  /** The characters Java's regex `.` refuses when no flag is given. */
  predicate IsLineTerminator(c: char)
  {
    c == '\n' || c == '\r' || c == '\U{85}' || c == '\U{2028}' || c == '\U{2029}'
  }

  /** What `.` matches. */
  predicate IsDotChar(c: char)
  {
    !IsLineTerminator(c)
  }

  /** Java's `Character.isWhitespace`: the Unicode space, line and paragraph
      separators except the three non-breaking spaces, plus the ASCII controls
      TAB, LF, VT, FF, CR and the four information separators. */
  predicate IsWhitespace(c: char)
  {
    c == ' ' || '\U{9}' <= c <= '\U{D}' || '\U{1C}' <= c <= '\U{1F}'
    || c == '\U{1680}' || '\U{2000}' <= c <= '\U{2006}' || '\U{2008}' <= c <= '\U{200A}'
    || c == '\U{2028}' || c == '\U{2029}' || c == '\U{205F}' || c == '\U{3000}'
  }

  /** `String.isBlank`: empty, or whitespace only. */
  predicate IsBlank(s: string)
  {
    AllIn(s, IsWhitespace)
  }

  /** Number of occurrences of `c` in `s`. */
  function Count(s: string, c: char): nat
  {
    if s == [] then 0 else (if s[0] == c then 1 else 0) + Count(s[1..], c)
  }

  lemma {:induction false} CountAppend(a: string, b: string, c: char)
    ensures Count(a + b, c) == Count(a, c) + Count(b, c)
  {
    if a != [] {
      assert (a + b)[0] == a[0] && (a + b)[1..] == a[1..] + b;
      CountAppend(a[1..], b, c);
    } else {
      assert a + b == b;
    }
  }

  /** A character outside the class a string is drawn from does not occur in it. */
  lemma {:induction false} CountOutsideClass(s: string, cls: char -> bool, c: char)
    requires AllIn(s, cls) && !cls(c)
    ensures Count(s, c) == 0
  {
    if s != [] {
      assert AllIn(s[1..], cls) by {
        forall i | 0 <= i < |s[1..]| ensures cls(s[1..][i]) { assert s[1..][i] == s[i + 1]; }
      }
      CountOutsideClass(s[1..], cls, c);
    }
  }

  /** The class of a concatenation is the class of its parts. */
  lemma AllInAppend(a: string, b: string, cls: char -> bool)
    ensures AllIn(a + b, cls) <==> AllIn(a, cls) && AllIn(b, cls)
  {
    if AllIn(a + b, cls) {
      forall i | 0 <= i < |a| ensures cls(a[i]) { assert (a + b)[i] == a[i]; }
      forall i | 0 <= i < |b| ensures cls(b[i]) { assert (a + b)[|a| + i] == b[i]; }
    }
    if AllIn(a, cls) && AllIn(b, cls) {
      forall i | 0 <= i < |a + b| ensures cls((a + b)[i]) {
        if i < |a| { assert (a + b)[i] == a[i]; } else { assert (a + b)[i] == b[i - |a|]; }
      }
    }
  }
}
