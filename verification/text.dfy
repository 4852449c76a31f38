/** Character classes and lengths used by the validation rules. Strings are
    sequences of Unicode scalar values; the host platform measures lengths in
    UTF-16 code units, which `Utf16Length` makes explicit. */
module Text {

  /** One character of the class `[A-Za-z0-9]`. */
  predicate IsHalfWidthAlphanumeric(c: char) {
    ('A' <= c <= 'Z') || ('a' <= c <= 'z') || ('0' <= c <= '9')
  }

  /** Whole-string match of the pattern `^[A-Za-z0-9]+$`: at least one
      character, and every character in the class. */
  predicate MatchesAlphanumeric(s: string) {
    |s| > 0 && forall i :: 0 <= i < |s| ==> IsHalfWidthAlphanumeric(s[i])
  }

  /** The platform's notion of a white-space code point: the space, line and
      paragraph separators other than the non-breaking ones, plus the
      control characters TAB, LF, VT, FF, CR and FS, GS, RS, US. */
  predicate IsWhitespace(c: char) {
    || ('\U{0009}' <= c <= '\U{000D}')
    || ('\U{001C}' <= c <= '\U{0020}')
    || c == '\U{1680}'
    || ('\U{2000}' <= c <= '\U{2006}')
    || ('\U{2008}' <= c <= '\U{200A}')
    || c == '\U{2028}' || c == '\U{2029}'
    || c == '\U{205F}' || c == '\U{3000}'
  }

  /** A blank string is empty or made only of white space. */
  predicate IsBlank(s: string) {
    forall i :: 0 <= i < |s| ==> IsWhitespace(s[i])
  }

  /** Number of UTF-16 code units needed to encode `s`: characters beyond
      the Basic Multilingual Plane take a surrogate pair. */
  function Utf16Length(s: string): (n: nat)
    ensures |s| <= n <= 2 * |s|
    ensures n == 0 <==> s == []
  {
    if s == [] then 0
    else (if s[0] as int > 0xFFFF then 2 else 1) + Utf16Length(s[1..])
  }

  /** On half-width alphanumeric text the UTF-16 length is the number of
      characters, so the two length measures agree on valid passwords. */
  lemma {:induction false} Utf16LengthOfAlphanumeric(s: string)
    requires forall i :: 0 <= i < |s| ==> IsHalfWidthAlphanumeric(s[i])
    ensures Utf16Length(s) == |s|
  {
    if s != [] {
      assert IsHalfWidthAlphanumeric(s[0]);
      assert forall i :: 0 <= i < |s[1..]| ==> s[1..][i] == s[i + 1];
      Utf16LengthOfAlphanumeric(s[1..]);
    }
  }

  /** The pattern match fixes the UTF-16 length to the character count. */
  lemma MatchedLength(s: string)
    ensures MatchesAlphanumeric(s) ==> Utf16Length(s) == |s|
  {
    if MatchesAlphanumeric(s) {
      Utf16LengthOfAlphanumeric(s);
    }
  }
}
