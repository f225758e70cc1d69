/**
 * `TelemetryFrame::from_bytes`: the fixed 9-byte telemetry frame, with
 * latitude and longitude kept as integer microdegrees (the source divides
 * them by 1,000,000 into `f32` degrees) and without the decode-time
 * timestamp. The encoder is the one the parsing exercise builds its test
 * frame with.
 */
module FrameCodec {
  import opened Wrappers
  import opened BigEndian
  import Text

  const FRAME_LENGTH: nat := 9

  /** A decoded frame: signed microdegrees and the battery byte as received. */
  datatype TelemetryFrame = TelemetryFrame(latMicro: i32, lonMicro: i32, battery: u8)

  /**
   * The errors `from_bytes` can return. The two extraction errors belong
   * to the `try_into` calls that turn a four-byte slice into an array.
   */
  datatype FrameError = InvalidLength(got: nat) | LatitudeBytes | LongitudeBytes

  /** The slice-to-`[u8; 4]` conversion `try_into`, which fails unless the slice has four bytes. */
  function ToArray4(s: seq<u8>): (a: Option<seq<u8>>)
    ensures a.Some? <==> |s| == 4
    ensures a.Some? ==> a.value == s
  {
    if |s| == 4 then Some(s) else None
  }

  /** Latitude bytes, longitude bytes, then the battery byte, as the exercise assembles them. */
  function Encode(f: TelemetryFrame): (raw: seq<u8>)
    ensures |raw| == FRAME_LENGTH
  {
    I32ToBeBytes(f.latMicro) + I32ToBeBytes(f.lonMicro) + [f.battery]
  }

  /**
   * `from_bytes`: any length other than 9 is rejected with that length;
   * every 9-byte input is accepted, the extraction errors never occur,
   * and the frame returned is the one whose encoding is the input. The
   * coordinates are negative exactly when the top bit of their first
   * byte is set, and the battery byte is copied without a range check.
   */
  function FromBytes(raw: seq<u8>): (r: Result<TelemetryFrame, FrameError>)
    ensures |raw| != FRAME_LENGTH <==> r == Err(InvalidLength(|raw|))
    ensures |raw| == FRAME_LENGTH ==> r.Ok?
    ensures r.Ok? ==> Encode(r.value) == raw
    ensures r.Ok? ==> (r.value.latMicro < 0 <==> raw[0] >= 0x80)
    ensures r.Ok? ==> (r.value.lonMicro < 0 <==> raw[4] >= 0x80)
    ensures r.Ok? ==> r.value.battery == raw[8]
  {
    if |raw| != FRAME_LENGTH then Err(InvalidLength(|raw|))
    else
      match ToArray4(raw[0..4])
      case None => Err(LatitudeBytes)
      case Some(latBytes) =>
        match ToArray4(raw[4..8])
        case None => Err(LongitudeBytes)
        case Some(lonBytes) =>
          I32BytesRoundTrip(latBytes);
          I32BytesRoundTrip(lonBytes);
          assert raw == latBytes + lonBytes + [raw[8]];
          Ok(TelemetryFrame(I32FromBeBytes(latBytes), I32FromBeBytes(lonBytes), raw[8]))
  }

  /** Parsing the encoding of any frame recovers its latitude, longitude and battery exactly. */
  lemma DecodeEncode(f: TelemetryFrame)
    ensures FromBytes(Encode(f)) == Ok(f)
  {
    var raw := Encode(f);
    assert raw[0..4] == I32ToBeBytes(f.latMicro);
    assert raw[4..8] == I32ToBeBytes(f.lonMicro);
    I32RoundTrip(f.latMicro);
    I32RoundTrip(f.lonMicro);
  }

  /**
   * Two inputs that parse to equal integer frames are equal: the
   * microdegrees and battery byte that `from_bytes` computes lose nothing.
   * The source's frame of `f32` degrees is not injective in this way.
   */
  lemma FromBytesInjective(a: seq<u8>, b: seq<u8>)
    requires FromBytes(a).Ok? && FromBytes(a) == FromBytes(b)
    ensures a == b
  {
  }

  const LENGTH_MESSAGE_PREFIX: string := "invalid frame length: expected 9 bytes, got "

  /**
   * The error text `from_bytes` formats for each error: the length
   * message, and only it, starts with the length prefix.
   */
  function Message(e: FrameError): (m: string)
    ensures e.InvalidLength? <==> LENGTH_MESSAGE_PREFIX <= m
  {
    match e
    case InvalidLength(got) => LENGTH_MESSAGE_PREFIX + Text.NatToDecimal(got)
    case LatitudeBytes => "failed to extract latitude bytes"
    case LongitudeBytes => "failed to extract longitude bytes"
  }

  /** Different errors get different texts, so a logged message identifies its error and any length in it. */
  lemma MessageIdentifiesError(e1: FrameError, e2: FrameError)
    requires Message(e1) == Message(e2)
    ensures e1 == e2
  {
    if e1.InvalidLength? && e2.InvalidLength? {
      var m := Message(e1);
      assert m[|LENGTH_MESSAGE_PREFIX|..] == Text.NatToDecimal(e1.got);
      assert m[|LENGTH_MESSAGE_PREFIX|..] == Text.NatToDecimal(e2.got);
      Text.DecimalRoundTrip(e1.got);
      Text.DecimalRoundTrip(e2.got);
    }
  }

  /** The message for a wrong-length input ends in the decimal digits of the length received. */
  lemma LengthMessageReportsLength(raw: seq<u8>)
    requires |raw| != FRAME_LENGTH
    ensures var m := Message(FromBytes(raw).error);
      && |m| > |LENGTH_MESSAGE_PREFIX|
      && m[..|LENGTH_MESSAGE_PREFIX|] == LENGTH_MESSAGE_PREFIX
      && (forall i :: |LENGTH_MESSAGE_PREFIX| <= i < |m| ==> Text.IsDecimalDigit(m[i]))
      && Text.DecimalValue(m[|LENGTH_MESSAGE_PREFIX|..]) == |raw|
  {
    var m := Message(FromBytes(raw).error);
    assert m[|LENGTH_MESSAGE_PREFIX|..] == Text.NatToDecimal(|raw|);
    Text.DecimalRoundTrip(|raw|);
  }
}
