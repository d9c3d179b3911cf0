/**
 * Python's `str.strip()` and `str.lower()`, as the request handlers apply
 * them to form fields before validating them.
 */
module Text {

  /** Python's `str.isspace()` for a single character. */
  predicate IsSpace(c: char) {
    || ('\t' <= c <= '\r')
    || ('\U{1c}' <= c <= '\U{1f}')
    || c == ' ' || c == '\U{85}' || c == '\U{a0}' || c == '\U{1680}'
    || ('\U{2000}' <= c <= '\U{200a}')
    || c == '\U{2028}' || c == '\U{2029}' || c == '\U{202f}' || c == '\U{205f}' || c == '\U{3000}'
  }

  /** The ASCII characters Python counts as whitespace. */
  const AsciiWhitespace: string := "\t\n\U{b}\U{c}\r\U{1c}\U{1d}\U{1e}\U{1f} "

  /**
   * Below U+0080, `IsSpace` agrees with Python's ASCII whitespace: tab,
   * line feed, vertical tab, form feed, carriage return, the four
   * information separators and the space.
   */
  lemma AsciiSpace()
    ensures forall c: char | c < '\U{80}' :: IsSpace(c) <==> c in AsciiWhitespace
  {
  }

  /** Every character of `s` is whitespace (true of the empty string). */
  predicate AllSpace(s: string) {
    forall k :: 0 <= k < |s| ==> IsSpace(s[k])
  }

  /** Neither end of `s` is whitespace: `s` is its own `strip()`. */
  predicate IsTrimmed(s: string) {
    s == [] || (!IsSpace(s[0]) && !IsSpace(s[|s| - 1]))
  }

  /** The first index at or after `i` that does not hold whitespace, or `|s|`. */
  function SkipSpace(s: string, i: nat): (n: nat)
    requires i <= |s|
    ensures i <= n <= |s|
    ensures forall k :: i <= k < n ==> IsSpace(s[k])
    ensures n == |s| || !IsSpace(s[n])
    decreases |s| - i
  {
    if i < |s| && IsSpace(s[i]) then SkipSpace(s, i + 1) else i
  }

  /** The end of `s[lo..j]` once its trailing whitespace is dropped. */
  function SkipSpaceBack(s: string, lo: nat, j: nat): (n: nat)
    requires lo <= j <= |s|
    ensures lo <= n <= j
    ensures forall k :: n <= k < j ==> IsSpace(s[k])
    ensures n == lo || !IsSpace(s[n - 1])
  {
    if lo < j && IsSpace(s[j - 1]) then SkipSpaceBack(s, lo, j - 1) else j
  }

  /** Where the text `strip()` keeps begins. */
  function StripBegin(s: string): nat {
    SkipSpace(s, 0)
  }

  /** Where the text `strip()` keeps ends. */
  function StripEnd(s: string): nat {
    SkipSpaceBack(s, StripBegin(s), |s|)
  }

  /**
   * `s.strip()`: `s` with its leading and trailing whitespace cut off. It
   * is empty exactly when `s` is all whitespace, and it neither starts nor
   * ends with whitespace; `StripCutsOnlySpace` says what was cut.
   */
  function Strip(s: string): (r: string)
    ensures r == [] <==> AllSpace(s)
    ensures IsTrimmed(r)
  {
    s[StripBegin(s)..StripEnd(s)]
  }

  /**
   * `strip()` returns the slice of `s` between `StripBegin` and
   * `StripEnd`, and everything it cut off before and after is whitespace.
   */
  lemma StripCutsOnlySpace(s: string)
    ensures StripBegin(s) <= StripEnd(s) <= |s|
    ensures Strip(s) == s[StripBegin(s)..StripEnd(s)]
    ensures forall k :: 0 <= k < StripBegin(s) ==> IsSpace(s[k])
    ensures forall k :: StripEnd(s) <= k < |s| ==> IsSpace(s[k])
  {
  }

  /** Stripping changes nothing exactly when neither end is whitespace. */
  lemma StripFixedPoint(s: string)
    ensures Strip(s) == s <==> IsTrimmed(s)
  {
    if IsTrimmed(s) && s != [] {
      assert StripBegin(s) == 0;
      assert StripEnd(s) == |s|;
    }
  }

  /** `s.strip().strip() == s.strip()`. */
  lemma StripIdempotent(s: string)
    ensures Strip(Strip(s)) == Strip(s)
  {
    StripFixedPoint(Strip(s));
  }

  /**
   * Python's `str.lower()` on one character, for the ASCII letters: an
   * upper-case letter becomes its lower-case one, anything else stays.
   */
  function LowerChar(c: char): (l: char)
    ensures !('A' <= l <= 'Z')
    ensures 'A' <= c <= 'Z' ==> 'a' <= l <= 'z' && l as int - c as int == 32
    ensures !('A' <= c <= 'Z') ==> l == c
  {
    if 'A' <= c <= 'Z' then (c as int + 32) as char else c
  }

  /** `s.lower()`: each character lower-cased where it stands. */
  function Lower(s: string): (r: string)
    ensures |r| == |s|
    ensures forall k :: 0 <= k < |s| ==> r[k] == LowerChar(s[k])
  {
    seq(|s|, k requires 0 <= k < |s| => LowerChar(s[k]))
  }

  /** Lower-casing keeps a trimmed string trimmed. */
  lemma LowerKeepsTrimmed(s: string)
    requires IsTrimmed(s)
    ensures IsTrimmed(Lower(s))
  {
  }

  /** `s.lower().lower() == s.lower()`. */
  lemma LowerIdempotent(s: string)
    ensures Lower(Lower(s)) == Lower(s)
  {
  }

  /** Lower-casing leaves whitespace alone, so the forward scan stops at the same place. */
  lemma {:induction false} LowerSkipSpace(s: string, i: nat)
    requires i <= |s|
    ensures SkipSpace(Lower(s), i) == SkipSpace(s, i)
    decreases |s| - i
  {
    if i < |s| {
      assert Lower(s)[i] == LowerChar(s[i]);
      if IsSpace(s[i]) {
        LowerSkipSpace(s, i + 1);
      }
    }
  }

  /** Lower-casing leaves whitespace alone, so the backward scan stops at the same place. */
  lemma {:induction false} LowerSkipSpaceBack(s: string, lo: nat, j: nat)
    requires lo <= j <= |s|
    ensures SkipSpaceBack(Lower(s), lo, j) == SkipSpaceBack(s, lo, j)
  {
    if lo < j {
      assert Lower(s)[j - 1] == LowerChar(s[j - 1]);
      if IsSpace(s[j - 1]) {
        LowerSkipSpaceBack(s, lo, j - 1);
      }
    }
  }

  /** `s.lower().strip() == s.strip().lower()`. */
  lemma LowerStrip(s: string)
    ensures Strip(Lower(s)) == Lower(Strip(s))
  {
    LowerSkipSpace(s, 0);
    LowerSkipSpaceBack(s, StripBegin(s), |s|);
    LowerSlice(s, StripBegin(s), StripEnd(s));
  }

  /** Lower-casing a slice is slicing the lower-cased string. */
  lemma LowerSlice(s: string, i: nat, j: nat)
    requires i <= j <= |s|
    ensures Lower(s)[i..j] == Lower(s[i..j])
  {
  }

  /** The forward scan over `[c] + s` is the scan over `s`, one place on. */
  lemma {:induction false} SkipSpaceCons(c: char, s: string, i: nat)
    requires i <= |s|
    ensures SkipSpace([c] + s, i + 1) == SkipSpace(s, i) + 1
    decreases |s| - i
  {
    var t := [c] + s;
    if i < |s| && IsSpace(s[i]) {
      assert t[i + 1] == s[i];
      SkipSpaceCons(c, s, i + 1);
    }
  }

  /** The backward scan over `[c] + s` is the scan over `s`, one place on. */
  lemma {:induction false} SkipSpaceBackCons(c: char, s: string, lo: nat, j: nat)
    requires lo <= j <= |s|
    ensures SkipSpaceBack([c] + s, lo + 1, j + 1) == SkipSpaceBack(s, lo, j) + 1
  {
    var t := [c] + s;
    if lo < j && IsSpace(s[j - 1]) {
      assert t[j] == s[j - 1];
      SkipSpaceBackCons(c, s, lo, j - 1);
    }
  }

  /** A leading whitespace character makes no difference to `strip()`. */
  lemma StripLeadingSpace(c: char, s: string)
    requires IsSpace(c)
    ensures Strip([c] + s) == Strip(s)
  {
    var t := [c] + s;
    var b, e := StripBegin(s), StripEnd(s);
    assert StripBegin(t) == b + 1 by {
      SkipSpaceCons(c, s, 0);
      assert SkipSpace(t, 0) == SkipSpace(t, 1);
    }
    assert StripEnd(t) == e + 1 by {
      SkipSpaceBackCons(c, s, b, |s|);
    }
    ConsSlice(c, s, b, e);
  }

  /** Slicing past a character put in front. */
  lemma ConsSlice(c: char, s: string, a: nat, b: nat)
    requires a <= b <= |s|
    ensures ([c] + s)[a + 1..b + 1] == s[a..b]
  {
    var t := [c] + s;
    assert t[1..] == s;
    assert t[a + 1..b + 1] == t[1..][a..b];
  }
}
