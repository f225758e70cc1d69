/**
 * The fixed-width integers of the telemetry frame and their big-endian
 * byte encodings, i.e. Rust's `u8`, `i32`, `i32::from_be_bytes` and
 * `i32::to_be_bytes`, over unbounded Dafny integers.
 */
module BigEndian {

  /** Rust's `u8`. */
  type u8 = b: int | 0 <= b < 0x100

  /** Rust's `i32`: the range of a two's-complement 32-bit integer. */
  type i32 = v: int | -0x8000_0000 <= v < 0x8000_0000

  const TWO_POW_32: int := 0x1_0000_0000

  function Pow256(k: nat): (p: nat)
    ensures p >= 1
  {
    if k == 0 then 1 else 256 * Pow256(k - 1)
  }

  /** The unsigned value of `s` read most-significant byte first. */
  function Unsigned(s: seq<u8>): (n: nat)
    ensures n < Pow256(|s|)
  {
    if |s| == 0 then 0 else Unsigned(s[..|s| - 1]) * 256 + s[|s| - 1]
  }

  /** The `len` bytes of `n`, most significant first. */
  function BytesOf(n: nat, len: nat): (s: seq<u8>)
    requires n < Pow256(len)
    ensures |s| == len
  {
    if len == 0 then [] else BytesOf(n / 256, len - 1) + [n % 256]
  }

  /** Reading back the bytes written by `BytesOf` gives the number written. */
  lemma {:induction false} UnsignedOfBytesOf(n: nat, len: nat)
    requires n < Pow256(len)
    ensures Unsigned(BytesOf(n, len)) == n
  {
    if len > 0 {
      var s := BytesOf(n, len);
      assert s[..len - 1] == BytesOf(n / 256, len - 1);
      UnsignedOfBytesOf(n / 256, len - 1);
    }
  }

  /** Writing the value of a byte sequence at its own width gives the sequence back. */
  lemma {:induction false} BytesOfUnsigned(s: seq<u8>)
    ensures BytesOf(Unsigned(s), |s|) == s
  {
    if |s| > 0 {
      var init := s[..|s| - 1];
      BytesOfUnsigned(init);
      var n := Unsigned(s);
      assert n / 256 == Unsigned(init);
      assert n % 256 == s[|s| - 1];
      assert s == init + [s[|s| - 1]];
    }
  }

  /** The value of a four-byte sequence, spelled out by position. */
  lemma UnsignedOfFour(b: seq<u8>)
    requires |b| == 4
    ensures Unsigned(b) == b[0] as int * 0x100_0000 + b[1] as int * 0x1_0000 + b[2] as int * 0x100 + b[3] as int
  {
    var b1, b2, b3 := b[..1], b[..2], b[..3];
    assert b1[..0] == [];
    assert b2[..1] == b1;
    assert b3[..2] == b2;
    assert Unsigned(b1) == b[0] as int;
    assert Unsigned(b2) == b[0] as int * 0x100 + b[1] as int;
    assert Unsigned(b3) == Unsigned(b2) * 0x100 + b[2] as int;
    assert Unsigned(b) == Unsigned(b3) * 0x100 + b[3] as int;
  }

  /**
   * `i32::from_be_bytes`: the unique `i32` that is congruent, modulo 2^32,
   * to the unsigned big-endian value of the four bytes; it is negative
   * exactly when the top bit of the first byte is set.
   */
  function I32FromBeBytes(b: seq<u8>): (v: i32)
    requires |b| == 4
    ensures v % TWO_POW_32 == Unsigned(b)
    ensures v < 0 <==> b[0] >= 0x80
  {
    UnsignedOfFour(b);
    var u := Unsigned(b);
    if u < 0x8000_0000 then u else u - TWO_POW_32
  }

  /** `i32::to_be_bytes`: four bytes whose unsigned big-endian value is `v` modulo 2^32. */
  function I32ToBeBytes(v: i32): (b: seq<u8>)
    ensures |b| == 4
    ensures Unsigned(b) == v % TWO_POW_32
  {
    assert Pow256(4) == TWO_POW_32;
    UnsignedOfBytesOf(v % TWO_POW_32, 4);
    BytesOf(v % TWO_POW_32, 4)
  }

  /** Decoding the big-endian bytes of any `i32` gives it back. */
  lemma I32RoundTrip(v: i32)
    ensures I32FromBeBytes(I32ToBeBytes(v)) == v
  {
    var w := I32FromBeBytes(I32ToBeBytes(v));
    assert w % TWO_POW_32 == v % TWO_POW_32;
  }

  /** Encoding the `i32` read from any four bytes gives those bytes back. */
  lemma I32BytesRoundTrip(b: seq<u8>)
    requires |b| == 4
    ensures I32ToBeBytes(I32FromBeBytes(b)) == b
  {
    assert Pow256(4) == TWO_POW_32;
    BytesOfUnsigned(b);
  }
}
