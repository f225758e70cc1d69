/**
 * `decode_and_parse_frame`: one trimmed line of text, hex-decoded and
 * then parsed as a telemetry frame.
 */
module Ingest {
  import opened Wrappers
  import opened BigEndian
  import Hex
  import opened FrameCodec

  /** Why a line did not yield a frame: bad hex text, or bytes that are not a frame. */
  datatype DecodeError = InvalidHexData(hex: Hex.HexError) | InvalidFrame(frame: FrameError)

  /**
   * Invalid hex fails with the decoder's error and never reaches the frame
   * parser; otherwise the result is that of parsing the decoded bytes. So
   * a line yields a frame exactly when it is 18 hex digits, the frame's
   * encoding is what the line decodes to, and other valid hex is rejected
   * with the number of bytes it held.
   */
  function DecodeAndParseFrame(line: string): (r: Result<TelemetryFrame, DecodeError>)
    ensures Hex.Decode(line).Err? ==> r == Err(InvalidHexData(Hex.Decode(line).error))
    ensures r.Ok? <==> Hex.IsHex(line) && |line| == 2 * FRAME_LENGTH
    ensures r.Ok? ==> Hex.Decode(line) == Ok(Encode(r.value))
    ensures Hex.IsHex(line) && |line| != 2 * FRAME_LENGTH ==> r == Err(InvalidFrame(InvalidLength(|line| / 2)))
  {
    match Hex.Decode(line)
    case Err(e) => Err(InvalidHexData(e))
    case Ok(raw) =>
      match FromBytes(raw)
      case Err(e) => Err(InvalidFrame(e))
      case Ok(frame) => Ok(frame)
  }

  /** A frame survives being written as hex in either letter case and read back. */
  lemma HexFrameRoundTrip(f: TelemetryFrame, letters: Hex.LetterCase)
    ensures DecodeAndParseFrame(Hex.Encode(Encode(f), letters)) == Ok(f)
  {
    Hex.DecodeEncode(Encode(f), letters);
    FrameCodec.DecodeEncode(f);
  }

  /** Hex text assembled from three pieces is the encoding of the three byte strings they encode. */
  lemma HexOfBytes(a: seq<u8>, b: seq<u8>, c: seq<u8>, x: string, y: string, z: string)
    requires Hex.Encode(a, Hex.Upper) == x && Hex.Encode(b, Hex.Upper) == y && Hex.Encode(c, Hex.Upper) == z
    ensures Hex.Encode(a + b + c, Hex.Upper) == x + y + z
  {
    Hex.EncodeConcat(a + b, c, Hex.Upper);
    Hex.EncodeConcat(a, b, Hex.Upper);
  }

  /** The nine bytes behind the documented sample line parse to its documented values. */
  lemma DocumentedExampleBytes()
    ensures FromBytes([0x01, 0x34, 0xF9, 0x7C, 0xFF, 0xEC, 0xB5, 0xC8, 0x64]) == Ok(TelemetryFrame(20248956, -1264184, 100))
  {
    var raw: seq<u8> := [0x01, 0x34, 0xF9, 0x7C, 0xFF, 0xEC, 0xB5, 0xC8, 0x64];
    UnsignedOfFour(raw[0..4]);
    UnsignedOfFour(raw[4..8]);
  }

  // The documented sample line and the 20-digit line, a few digits at a time.

  lemma DocumentedLatitudeText()
    ensures Hex.Encode([0x01, 0x34, 0xF9, 0x7C], Hex.Upper) == "0134F97C"
  {
  }

  lemma DocumentedLongitudeText()
    ensures Hex.Encode([0xFF, 0xEC, 0xB5, 0xC8], Hex.Upper) == "FFECB5C8"
  {
  }

  lemma DocumentedLineJoin()
    ensures Hex.Encode([0x64], Hex.Upper) == "64"
    ensures "0134F97C" + "FFECB5C8" + "64" == "0134F97CFFECB5C864"
  {
  }

  lemma TwentyDigitFirstText()
    ensures Hex.Encode([0xFD, 0xEC, 0x02, 0xC0], Hex.Upper) == "FDEC02C0"
  {
  }

  lemma TwentyDigitMiddleText()
    ensures Hex.Encode([0xFC, 0x93, 0xB7], Hex.Upper) == "FC93B7"
  {
  }

  lemma TwentyDigitLastText()
    ensures Hex.Encode([0x00, 0x00, 0x57], Hex.Upper) == "000057"
  {
  }

  lemma TwentyDigitLineJoin()
    ensures "FDEC02C0" + "FC93B7" + "000057" == "FDEC02C0FC93B7000057"
  {
  }

  /** The documented sample line is the upper-case hex encoding of those nine bytes. */
  lemma DocumentedExampleText()
    ensures Hex.Encode([0x01, 0x34, 0xF9, 0x7C, 0xFF, 0xEC, 0xB5, 0xC8, 0x64], Hex.Upper) == "0134F97CFFECB5C864"
  {
    var a: seq<u8>, b: seq<u8>, c: seq<u8> := [0x01, 0x34, 0xF9, 0x7C], [0xFF, 0xEC, 0xB5, 0xC8], [0x64];
    DocumentedLatitudeText();
    DocumentedLongitudeText();
    DocumentedLineJoin();
    HexOfBytes(a, b, c, "0134F97C", "FFECB5C8", "64");
    assert a + b + c == [0x01, 0x34, 0xF9, 0x7C, 0xFF, 0xEC, 0xB5, 0xC8, 0x64];
  }

  /**
   * The documented sample line "0134F97CFFECB5C864" decodes to latitude
   * 20248956 and longitude -1264184 microdegrees with battery 100.
   */
  lemma DocumentedExample()
    ensures DecodeAndParseFrame("0134F97CFFECB5C864") == Ok(TelemetryFrame(20248956, -1264184, 100))
  {
    var raw: seq<u8> := [0x01, 0x34, 0xF9, 0x7C, 0xFF, 0xEC, 0xB5, 0xC8, 0x64];
    DocumentedExampleText();
    Hex.DecodeEncode(raw, Hex.Upper);
    DocumentedExampleBytes();
  }

  /** The 20-digit line is the upper-case hex encoding of ten bytes. */
  lemma TwentyDigitLineText()
    ensures Hex.Encode([0xFD, 0xEC, 0x02, 0xC0, 0xFC, 0x93, 0xB7, 0x00, 0x00, 0x57], Hex.Upper) == "FDEC02C0FC93B7000057"
  {
    var a: seq<u8>, b: seq<u8>, c: seq<u8> := [0xFD, 0xEC, 0x02, 0xC0], [0xFC, 0x93, 0xB7], [0x00, 0x00, 0x57];
    TwentyDigitFirstText();
    TwentyDigitMiddleText();
    TwentyDigitLastText();
    TwentyDigitLineJoin();
    HexOfBytes(a, b, c, "FDEC02C0", "FC93B7", "000057");
    assert a + b + c == [0xFD, 0xEC, 0x02, 0xC0, 0xFC, 0x93, 0xB7, 0x00, 0x00, 0x57];
  }

  /**
   * A 20-digit line such as "FDEC02C0FC93B7000057" is valid hex of ten
   * bytes, so it is rejected as a frame of the wrong length.
   */
  lemma TwentyDigitLineRejected()
    ensures DecodeAndParseFrame("FDEC02C0FC93B7000057") == Err(InvalidFrame(InvalidLength(10)))
  {
    TwentyDigitLineText();
    Hex.DecodeEncode([0xFD, 0xEC, 0x02, 0xC0, 0xFC, 0x93, 0xB7, 0x00, 0x00, 0x57], Hex.Upper);
  }
}
