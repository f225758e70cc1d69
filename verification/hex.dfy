/**
 * Base16 decoding as in section 8 of RFC 4648, with the behaviour of the
 * `hex` crate's `decode` on ASCII text: both letter cases are accepted,
 * an odd number of digits is reported before any character is examined,
 * and otherwise the first non-digit is reported with its position. The
 * crate counts UTF-8 bytes where this module counts characters, so on
 * non-ASCII text its length test and error positions can differ.
 */
module Hex {
  import opened Wrappers
  import opened BigEndian
  import Text

  predicate IsHexDigit(c: char) {
    || '0' as int <= c as int <= '9' as int
    || 'a' as int <= c as int <= 'f' as int
    || 'A' as int <= c as int <= 'F' as int
  }

  /** A string the decoder accepts: an even number of hex digits. */
  predicate IsHex(s: string) {
    |s| % 2 == 0 && forall i :: 0 <= i < |s| ==> IsHexDigit(s[i])
  }

  /** The value of one hex digit, of either case. */
  function DigitValue(c: char): (v: nat)
    requires IsHexDigit(c)
    ensures v < 16
  {
    if '0' as int <= c as int <= '9' as int then c as int - '0' as int
    else if 'a' as int <= c as int <= 'f' as int then c as int - 'a' as int + 10
    else c as int - 'A' as int + 10
  }

  datatype LetterCase = Lower | Upper

  /**
   * The digit for a value below 16, the inverse of `DigitValue`; a value
   * of 10 or more is written as a letter in the given case.
   */
  function DigitChar(v: nat, letters: LetterCase): (c: char)
    requires v < 16
    ensures IsHexDigit(c) && DigitValue(c) == v
    ensures v >= 10 ==> (letters == Lower <==> 'a' as int <= c as int <= 'f' as int)
  {
    if v < 10 then Text.DigitChar(v)
    else if letters == Lower then ('a' as int + v - 10) as char
    else ('A' as int + v - 10) as char
  }

  /** The crate's `FromHexError` variants that `decode` can return. */
  datatype HexError = OddLength | InvalidHexCharacter(c: char, index: nat)

  /**
   * `e` names the first character of `s` that is not a hex digit, and the
   * position where it occurs.
   */
  predicate ReportsFirstInvalid(s: string, e: HexError) {
    && e.InvalidHexCharacter?
    && e.index < |s|
    && s[e.index] == e.c
    && !IsHexDigit(e.c)
    && forall j :: 0 <= j < e.index ==> IsHexDigit(s[j])
  }

  /** Byte `i` of a decoding is the value of digits `2i` and `2i+1`, high digit first. */
  predicate DecodesTo(s: string, bytes: seq<u8>)
    requires IsHex(s)
  {
    && |bytes| == |s| / 2
    && forall i :: 0 <= i < |bytes| ==> bytes[i] == 16 * DigitValue(s[2 * i]) + DigitValue(s[2 * i + 1])
  }

  /** Every character from position `k` on is a hex digit. */
  predicate AllHexFrom(s: string, k: nat) {
    forall j :: k <= j < |s| ==> IsHexDigit(s[j])
  }

  /**
   * Decodes the digit pairs of an even-length string from position `k`
   * on, stopping at the first bad digit, which is reported with its
   * position in the whole string.
   */
  function DecodeFrom(s: string, k: nat): (r: Result<seq<u8>, HexError>)
    requires |s| % 2 == 0 && k % 2 == 0 && k <= |s|
    ensures r.Ok? <==> AllHexFrom(s, k)
    ensures r.Ok? ==> |r.value| == (|s| - k) / 2
    ensures r.Err? ==> r.error.InvalidHexCharacter? && k <= r.error.index < |s|
    decreases |s| - k
  {
    if k == |s| then Ok([])
    else if !IsHexDigit(s[k]) then Err(InvalidHexCharacter(s[k], k))
    else if !IsHexDigit(s[k + 1]) then Err(InvalidHexCharacter(s[k + 1], k + 1))
    else
      match DecodeFrom(s, k + 2)
      case Err(e) => Err(e)
      case Ok(rest) => Ok([16 * DigitValue(s[k]) + DigitValue(s[k + 1])] + rest)
  }

  /** Byte `i` of a decoding from `k` is the value of digits `k + 2i` and `k + 2i + 1`. */
  lemma {:induction false} DecodeFromBytes(s: string, k: nat)
    requires |s| % 2 == 0 && k % 2 == 0 && k <= |s|
    ensures var r := DecodeFrom(s, k);
      r.Ok? ==> forall i :: 0 <= i < |r.value| ==> r.value[i] == 16 * DigitValue(s[k + 2 * i]) + DigitValue(s[k + 2 * i + 1])
    decreases |s| - k
  {
    var r := DecodeFrom(s, k);
    if k < |s| && r.Ok? {
      DecodeFromBytes(s, k + 2);
      var rest := DecodeFrom(s, k + 2).value;
      assert r.value[1..] == rest;
      forall i | 1 <= i < |r.value|
        ensures r.value[i] == 16 * DigitValue(s[k + 2 * i]) + DigitValue(s[k + 2 * i + 1])
      {
        assert r.value[i] == rest[i - 1];
        assert k + 2 * i == (k + 2) + 2 * (i - 1);
      }
    }
  }

  /** A failed decoding from `k` reports a bad digit with only hex digits between `k` and it. */
  lemma {:induction false} DecodeFromFirstInvalid(s: string, k: nat)
    requires |s| % 2 == 0 && k % 2 == 0 && k <= |s|
    ensures var r := DecodeFrom(s, k);
      r.Err? ==>
        && s[r.error.index] == r.error.c
        && !IsHexDigit(r.error.c)
        && forall j :: k <= j < r.error.index ==> IsHexDigit(s[j])
    decreases |s| - k
  {
    if k < |s| && IsHexDigit(s[k]) && IsHexDigit(s[k + 1]) {
      DecodeFromFirstInvalid(s, k + 2);
    }
  }

  /**
   * `hex::decode`: succeeds exactly on strings of an even number of hex
   * digits, with one byte per digit pair; otherwise fails with
   * `OddLength` if the length is odd and with the first offending
   * character if not.
   */
  function Decode(s: string): (r: Result<seq<u8>, HexError>)
    ensures r.Ok? <==> IsHex(s)
    ensures r.Ok? ==> DecodesTo(s, r.value)
    ensures |s| % 2 != 0 ==> r == Err(OddLength)
    ensures |s| % 2 == 0 && r.Err? ==> ReportsFirstInvalid(s, r.error)
  {
    if |s| % 2 != 0 then Err(OddLength)
    else
      DecodeFromBytes(s, 0);
      DecodeFromFirstInvalid(s, 0);
      DecodeFrom(s, 0)
  }

  /** `hex::encode` (lower case) and `hex::encode_upper`: two digits per byte. */
  function Encode(bytes: seq<u8>, letters: LetterCase): (s: string)
    ensures |s| == 2 * |bytes|
  {
    if |bytes| == 0 then []
    else [DigitChar(bytes[0] / 16, letters), DigitChar(bytes[0] % 16, letters)] + Encode(bytes[1..], letters)
  }

  /** Digits `2i` and `2i+1` of an encoding are the high and low digit of byte `i`. */
  lemma {:induction false} EncodeDigits(bytes: seq<u8>, letters: LetterCase)
    ensures forall i :: 0 <= i < |bytes| ==> Encode(bytes, letters)[2 * i] == DigitChar(bytes[i] / 16, letters)
    ensures forall i :: 0 <= i < |bytes| ==> Encode(bytes, letters)[2 * i + 1] == DigitChar(bytes[i] % 16, letters)
  {
    if |bytes| > 0 {
      EncodeDigits(bytes[1..], letters);
      var s, rest := Encode(bytes, letters), Encode(bytes[1..], letters);
      forall i | 1 <= i < |bytes|
        ensures s[2 * i] == DigitChar(bytes[i] / 16, letters)
        ensures s[2 * i + 1] == DigitChar(bytes[i] % 16, letters)
      {
        assert bytes[i] == bytes[1..][i - 1];
        assert s[2 * i] == rest[2 * (i - 1)];
        assert s[2 * i + 1] == rest[2 * (i - 1) + 1];
      }
    }
  }

  /** The two digits of byte `k` in an encoding. */
  lemma EncodeDigitsAt(bytes: seq<u8>, letters: LetterCase, k: nat)
    requires k < |bytes|
    ensures Encode(bytes, letters)[2 * k] == DigitChar(bytes[k] / 16, letters)
    ensures Encode(bytes, letters)[2 * k + 1] == DigitChar(bytes[k] % 16, letters)
  {
    EncodeDigits(bytes, letters);
  }

  /** Encoding distributes over concatenation. */
  lemma {:induction false} EncodeConcat(a: seq<u8>, b: seq<u8>, letters: LetterCase)
    ensures Encode(a + b, letters) == Encode(a, letters) + Encode(b, letters)
  {
    if |a| == 0 {
      assert a + b == b;
    } else {
      assert (a + b)[0] == a[0];
      assert (a + b)[1..] == a[1..] + b;
      EncodeConcat(a[1..], b, letters);
    }
  }

  /** Decoding the encoding of any byte sequence, in either letter case, gives it back. */
  lemma DecodeEncode(bytes: seq<u8>, letters: LetterCase)
    ensures Decode(Encode(bytes, letters)) == Ok(bytes)
  {
    var s := Encode(bytes, letters);
    EncodeDigits(bytes, letters);
    forall i | 0 <= i < |s| ensures IsHexDigit(s[i]) {
      var k := i / 2;
      if i % 2 == 0 {
        assert s[2 * k] == DigitChar(bytes[k] / 16, letters);
      } else {
        assert s[2 * k + 1] == DigitChar(bytes[k] % 16, letters);
      }
    }
    var r := Decode(s).value;
    assert |r| == |bytes|;
    forall i | 0 <= i < |r| ensures r[i] == bytes[i] {
      assert r[i] == 16 * (bytes[i] / 16) + bytes[i] % 16;
    }
    assert r == bytes;
  }

  /** Upper-case digits `A`-`F` folded to lower case; every other character is unchanged. */
  function FoldDigit(c: char): char {
    if 'A' as int <= c as int <= 'F' as int then (c as int + 32) as char else c
  }

  /** The lower-case digit for the value of a hex digit is that digit folded to lower case. */
  lemma DigitCharOfValue(c: char)
    requires IsHexDigit(c)
    ensures DigitChar(DigitValue(c), Lower) == FoldDigit(c)
  {
  }

  /** The digits of the byte built from two digits are those digits. */
  lemma SplitByte(hi: nat, lo: nat)
    requires hi < 16 && lo < 16
    ensures (16 * hi + lo) / 16 == hi && (16 * hi + lo) % 16 == lo
  {
  }

  /** A byte built from two digits re-encodes, in lower case, as those digits folded. */
  lemma ReencodedByte(bytes: seq<u8>, k: nat, hiDigit: char, loDigit: char)
    requires k < |bytes| && IsHexDigit(hiDigit) && IsHexDigit(loDigit)
    requires bytes[k] == 16 * DigitValue(hiDigit) + DigitValue(loDigit)
    ensures Encode(bytes, Lower)[2 * k] == FoldDigit(hiDigit)
    ensures Encode(bytes, Lower)[2 * k + 1] == FoldDigit(loDigit)
  {
    SplitByte(DigitValue(hiDigit), DigitValue(loDigit));
    EncodeDigitsAt(bytes, Lower, k);
    DigitCharOfValue(hiDigit);
    DigitCharOfValue(loDigit);
  }

  /** Character `i` of the lower-case re-encoding of a decoding is character `i` of the input, folded. */
  lemma ReencodedDigit(s: string, bytes: seq<u8>, i: nat)
    requires IsHex(s) && DecodesTo(s, bytes) && i < |s|
    ensures Encode(bytes, Lower)[i] == FoldDigit(s[i])
  {
    var k := i / 2;
    ReencodedByte(bytes, k, s[2 * k], s[2 * k + 1]);
    assert i == 2 * k || i == 2 * k + 1;
  }

  /**
   * Letter case does not matter to the decoder: the lower-case encoding of
   * what a valid string decodes to is that string with its digits folded
   * to lower case.
   */
  lemma EncodeDecode(s: string)
    requires IsHex(s)
    ensures Decode(s).Ok?
    ensures Encode(Decode(s).value, Lower) == seq(|s|, i requires 0 <= i < |s| => FoldDigit(s[i]))
  {
    var bytes := Decode(s).value;
    var e := Encode(bytes, Lower);
    var f := seq(|s|, i requires 0 <= i < |s| => FoldDigit(s[i]));
    forall i | 0 <= i < |s| ensures e[i] == f[i] {
      ReencodedDigit(s, bytes, i);
    }
    assert e == f;
  }

  /** The source's worked example: "0102FF" decodes to the bytes 0x01, 0x02, 0xFF. */
  lemma DecodeExample()
    ensures Decode("0102FF") == Ok([0x01, 0x02, 0xFF])
  {
    assert Encode([0x01, 0x02, 0xFF], Upper) == "0102FF";
    DecodeEncode([0x01, 0x02, 0xFF], Upper);
  }
}
