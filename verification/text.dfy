/**
 * Text operations the gateway relies on: Rust's `str::trim` and the
 * decimal rendering of a length inside an error message.
 */
module Text {

  /**
   * Rust's `char::is_whitespace`, the Unicode `White_Space` property:
   * U+0009..U+000D, U+0020, U+0085, U+00A0, U+1680, U+2000..U+200A,
   * U+2028, U+2029, U+202F, U+205F and U+3000.
   */
  predicate IsWhitespace(c: char) {
    var n := c as int;
    || 0x09 <= n <= 0x0D
    || n == 0x20
    || n == 0x85
    || n == 0xA0
    || n == 0x1680
    || 0x2000 <= n <= 0x200A
    || n == 0x2028
    || n == 0x2029
    || n == 0x202F
    || n == 0x205F
    || n == 0x3000
  }

  /** Every character of `s` satisfies `p`. */
  predicate AllMatch(s: string, p: char -> bool) {
    forall i :: 0 <= i < |s| ==> p(s[i])
  }

  predicate AllWhitespace(s: string) {
    AllMatch(s, IsWhitespace)
  }

  /** The first position at or after `k` whose character does not satisfy `p`, or `|s|`. */
  function SkipForward(s: string, p: char -> bool, k: nat): (a: nat)
    requires k <= |s|
    ensures k <= a <= |s|
    ensures forall i :: k <= i < a ==> p(s[i])
    ensures a < |s| ==> !p(s[a])
    decreases |s| - k
  {
    if k == |s| || !p(s[k]) then k else SkipForward(s, p, k + 1)
  }

  /** The end of the last character before `k` that does not satisfy `p`, or 0. */
  function SkipBackward(s: string, p: char -> bool, k: nat): (e: nat)
    requires k <= |s|
    ensures e <= k
    ensures forall i :: e <= i < k ==> p(s[i])
    ensures e > 0 ==> !p(s[e - 1])
  {
    if k == 0 || !p(s[k - 1]) then k else SkipBackward(s, p, k - 1)
  }

  /**
   * Rust's `str::trim_matches` for a character predicate: the slice of `s`
   * left after removing the characters satisfying `p` from both ends. It
   * is empty exactly when every character of `s` satisfies `p`.
   */
  function TrimMatches(s: string, p: char -> bool): (t: string)
    ensures |t| == 0 <==> AllMatch(s, p)
  {
    var a := SkipForward(s, p, 0);
    if a == |s| then [] else s[a..SkipBackward(s, p, |s|)]
  }

  /**
   * What `TrimMatches` keeps is a contiguous slice of `s` that neither
   * starts nor ends with a matching character, and everything it removes
   * matches.
   */
  lemma TrimMatchesSlice(s: string, p: char -> bool)
    ensures var t, a := TrimMatches(s, p), SkipForward(s, p, 0);
      && (|t| > 0 ==> !p(t[0]) && !p(t[|t| - 1]))
      && a + |t| <= |s|
      && t == s[a..a + |t|]
      && forall i :: 0 <= i < |s| && !(a <= i < a + |t|) ==> p(s[i])
  {
    var a, e := SkipForward(s, p, 0), SkipBackward(s, p, |s|);
    if a < |s| {
      assert a < e;
      var t := s[a..e];
      assert TrimMatches(s, p) == t;
      assert t[0] == s[a];
      assert t[|t| - 1] == s[e - 1];
      forall i | 0 <= i < |s| && !(a <= i < a + |t|) ensures p(s[i]) {
        if a <= i {
          assert e <= i;
        }
      }
    }
  }

  /**
   * Trimming is determined by its result alone: matching characters around
   * a text that neither starts nor ends with one are exactly what is removed.
   */
  lemma TrimMatchesPadded(pre: string, t: string, post: string, p: char -> bool)
    requires AllMatch(pre, p) && AllMatch(post, p)
    requires |t| > 0 ==> !p(t[0]) && !p(t[|t| - 1])
    ensures TrimMatches(pre + t + post, p) == t
  {
    var s := pre + t + post;
    var r := TrimMatches(s, p);
    TrimMatchesSlice(s, p);
    if |t| == 0 {
      assert AllMatch(s, p) by {
        forall i | 0 <= i < |s| ensures p(s[i]) {
          if i < |pre| { assert s[i] == pre[i]; } else { assert s[i] == post[i - |pre|]; }
        }
      }
    } else {
      assert s[|pre|] == t[0];
      assert s[|pre| + |t| - 1] == t[|t| - 1];
      assert r == s[|pre|..|pre| + |t|];
    }
  }

  /** Rust's `str::trim`: `trim_matches` with `char::is_whitespace`. */
  function Trim(s: string): (t: string)
    ensures |t| == 0 <==> AllWhitespace(s)
  {
    TrimMatches(s, IsWhitespace)
  }

  /** Trimming twice is the same as trimming once. */
  lemma TrimIdempotent(s: string)
    ensures Trim(Trim(s)) == Trim(s)
  {
    var t := Trim(s);
    TrimMatchesSlice(s, IsWhitespace);
    TrimMatchesPadded([], t, [], IsWhitespace);
    assert [] + t + [] == t;
  }

  predicate IsDecimalDigit(c: char) {
    '0' as int <= c as int <= '9' as int
  }

  /** The decimal digit for a value below 10. */
  function DigitChar(d: nat): (c: char)
    requires d < 10
    ensures IsDecimalDigit(c) && c as int - '0' as int == d
  {
    (('0' as int) + d) as char
  }

  /**
   * The decimal rendering of `n`, as Rust's `{}` formats an unsigned
   * integer: at least one digit and no leading zero.
   */
  function NatToDecimal(n: nat): (s: string)
    ensures |s| > 0
    ensures forall i :: 0 <= i < |s| ==> IsDecimalDigit(s[i])
    ensures s[0] == '0' ==> n == 0
  {
    if n < 10 then [DigitChar(n)] else NatToDecimal(n / 10) + [DigitChar(n % 10)]
  }

  /** The number a string of decimal digits denotes. */
  function DecimalValue(s: string): nat
    requires forall i :: 0 <= i < |s| ==> IsDecimalDigit(s[i])
  {
    if |s| == 0 then 0
    else
      var last := s[|s| - 1];
      assert IsDecimalDigit(last);
      DecimalValue(s[..|s| - 1]) * 10 + (last as int - '0' as int)
  }

  /** The decimal rendering of a number reads back as that number. */
  lemma {:induction false} DecimalRoundTrip(n: nat)
    ensures DecimalValue(NatToDecimal(n)) == n
  {
    var s := NatToDecimal(n);
    if n >= 10 {
      DecimalRoundTrip(n / 10);
      assert s[..|s| - 1] == NatToDecimal(n / 10);
    }
  }
}
