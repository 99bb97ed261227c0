/** String normalisation used by the handlers: Python's `str.lower()`
    (restricted to ASCII letters) and `str.strip()` (with Python's full set of
    whitespace characters). */
module Text {

  /** Python's `str.isspace()` for a single character: the ASCII control
      whitespace, the information separators U+001C..U+001F, the space, and
      the Unicode space and line/paragraph separators. */
  predicate IsSpace(c: char) {
    (9 <= c as int <= 13) || (28 <= c as int <= 32)
    || c as int == 0x85 || c as int == 0xA0 || c as int == 0x1680
    || (0x2000 <= c as int <= 0x200A) || c as int == 0x2028 || c as int == 0x2029
    || c as int == 0x202F || c as int == 0x205F || c as int == 0x3000
  }

  predicate AllSpace(s: string) {
    forall k :: 0 <= k < |s| ==> IsSpace(s[k])
  }

  function LowerChar(c: char): char {
    if 'A' <= c <= 'Z' then (c as int + 32) as char else c
  }

  /** `str.lower()`, on ASCII letters. */
  function Lower(s: string): (r: string)
    ensures |r| == |s|
    ensures forall k :: 0 <= k < |r| ==> !('A' <= r[k] <= 'Z')
    ensures forall k :: 0 <= k < |s| && !('A' <= s[k] <= 'Z') ==> r[k] == s[k]
    ensures forall k :: 0 <= k < |s| && 'A' <= s[k] <= 'Z' ==> r[k] as int == s[k] as int + 32
  {
    seq(|s|, k requires 0 <= k < |s| => LowerChar(s[k]))
  }

  /** Two characters that are equal, or the same ASCII letter in upper and
      lower case. */
  predicate SameUpToCase(a: char, b: char) {
    || a == b
    || ('A' <= a <= 'Z' && b as int == a as int + 32)
    || ('A' <= b <= 'Z' && a as int == b as int + 32)
  }

  /** Two strings lower to the same string exactly when they agree position by
      position up to the case of ASCII letters: comparing lowered emails is
      comparing them case-insensitively. */
  lemma LowerEqIff(s: string, t: string)
    ensures Lower(s) == Lower(t) <==> |s| == |t| && forall k :: 0 <= k < |s| ==> SameUpToCase(s[k], t[k])
  {
    if Lower(s) == Lower(t) {
      forall k | 0 <= k < |s| ensures SameUpToCase(s[k], t[k]) {
        assert Lower(s)[k] == Lower(t)[k];
      }
    }
    if |s| == |t| && forall k :: 0 <= k < |s| ==> SameUpToCase(s[k], t[k]) {
      forall k | 0 <= k < |s| ensures Lower(s)[k] == Lower(t)[k] {
        assert SameUpToCase(s[k], t[k]);
      }
    }
  }

  /** Lowering twice is lowering once: stored (already lowered) emails compare
      equal to the lowered form of themselves. */
  lemma LowerIdempotent(s: string)
    ensures Lower(Lower(s)) == Lower(s)
  {
  }

  /** The number of whitespace characters `s` starts with. */
  function SpanLeft(s: string): (n: nat)
    ensures n <= |s|
    ensures forall k :: 0 <= k < n ==> IsSpace(s[k])
    ensures n < |s| ==> !IsSpace(s[n])
  {
    if |s| > 0 && IsSpace(s[0]) then
      var t := s[1..];
      var m := SpanLeft(t);
      assert forall k :: 1 <= k < |s| ==> s[k] == t[k - 1];
      1 + m
    else 0
  }

  /** The number of whitespace characters `s` ends with. */
  function SpanRight(s: string): (n: nat)
    ensures n <= |s|
    ensures forall k :: |s| - n <= k < |s| ==> IsSpace(s[k])
    ensures n < |s| ==> !IsSpace(s[|s| - n - 1])
  {
    if |s| > 0 && IsSpace(s[|s| - 1]) then
      var t := s[..|s| - 1];
      var m := SpanRight(t);
      assert forall k :: 0 <= k < |t| ==> s[k] == t[k];
      1 + m
    else 0
  }

  /** `str.strip()`: the slice of `s` between its leading and its trailing
      whitespace; no whitespace is left at either end. */
  function Strip(s: string): (r: string)
    ensures |r| <= |s|
    ensures r == [] || (!IsSpace(r[0]) && !IsSpace(r[|r| - 1]))
  {
    var t := s[SpanLeft(s)..];
    t[..|t| - SpanRight(t)]
  }

  /** What `Strip` keeps is a middle slice of `s`, and everything it cuts off
      on either side is whitespace. */
  lemma StripSlice(s: string)
    ensures exists i, j :: 0 <= i <= j <= |s| && Strip(s) == s[i..j] && AllSpace(s[..i]) && AllSpace(s[j..])
  {
    var i := SpanLeft(s);
    var t := s[i..];
    var j := i + |t| - SpanRight(t);
    assert Strip(s) == s[i..j];
    assert AllSpace(s[j..]) by {
      forall k | 0 <= k < |s| - j ensures IsSpace(s[j..][k]) {
        assert s[j..][k] == t[|t| - SpanRight(t) + k];
      }
    }
  }

  /** A string made only of whitespace strips to the empty string. */
  lemma StripAllSpace(s: string)
    requires AllSpace(s)
    ensures Strip(s) == []
  {
    assert SpanLeft(s) == |s|;
  }

  /** Stripping is idempotent: a stripped value survives a second strip. */
  lemma StripIdempotent(s: string)
    ensures Strip(Strip(s)) == Strip(s)
  {
    var r := Strip(s);
    assert SpanLeft(r) == 0;
    assert r[SpanLeft(r)..] == r;
    assert SpanRight(r) == 0;
  }
}
