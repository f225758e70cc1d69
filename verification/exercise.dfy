/**
 * The self-check in the parsing exercise's `main`: it encodes a sample
 * frame, parses it back, and asserts that the coordinates are within a
 * thousandth of a degree of -34 and -58 and that the battery is unchanged.
 * Coordinates stay in integer microdegrees here, so "within 0.001 degrees
 * of D" is "within 1000 microdegrees of D * 1,000,000".
 */
module ParseFrameExercise {
  import opened Wrappers
  import opened BigEndian
  import opened FrameCodec

  /** The sample the exercise encodes, as written. */
  const SAMPLE_LAT: i32 := -349_999_999
  const SAMPLE_LON: i32 := -580_000_001
  const SAMPLE_BATTERY: u8 := 87

  /** The sample its comments describe: about -34.0 and -58.0 degrees. */
  const INTENDED_LAT: i32 := -34_000_000
  const INTENDED_LON: i32 := -58_000_000

  /** `micro` is less than a thousandth of a degree away from `degrees`. */
  predicate WithinMillidegree(micro: int, degrees: int) {
    -1000 < micro - degrees * 1_000_000 < 1000
  }

  /** The exercise's checks on a parsed frame: latitude near -34, longitude near -58, battery 87. */
  predicate PassesChecks(f: TelemetryFrame) {
    WithinMillidegree(f.latMicro, -34) && WithinMillidegree(f.lonMicro, -58) && f.battery == SAMPLE_BATTERY
  }

  /**
   * As written, the sample parses back to exactly its own values, about
   * -350 and -580 degrees, so the coordinate checks fail and the
   * exercise's `main` panics; only the battery check holds.
   */
  lemma SampleFailsChecks()
    ensures FromBytes(Encode(TelemetryFrame(SAMPLE_LAT, SAMPLE_LON, SAMPLE_BATTERY))).Ok?
    ensures var f := FromBytes(Encode(TelemetryFrame(SAMPLE_LAT, SAMPLE_LON, SAMPLE_BATTERY))).value;
      && WithinMillidegree(f.latMicro, -350)
      && WithinMillidegree(f.lonMicro, -580)
      && f.battery == SAMPLE_BATTERY
      && !PassesChecks(f)
  {
    DecodeEncode(TelemetryFrame(SAMPLE_LAT, SAMPLE_LON, SAMPLE_BATTERY));
  }

  /** With the intended sample, the parsed frame passes every check. */
  lemma IntendedSamplePassesChecks()
    ensures FromBytes(Encode(TelemetryFrame(INTENDED_LAT, INTENDED_LON, SAMPLE_BATTERY))).Ok?
    ensures PassesChecks(FromBytes(Encode(TelemetryFrame(INTENDED_LAT, INTENDED_LON, SAMPLE_BATTERY))).value)
  {
    DecodeEncode(TelemetryFrame(INTENDED_LAT, INTENDED_LON, SAMPLE_BATTERY));
  }

  /**
   * Because parsing inverts the encoder, the checks pass for a parsed
   * sample exactly when they pass for the sample itself.
   */
  lemma ChecksSeeTheSample(f: TelemetryFrame)
    ensures FromBytes(Encode(f)).Ok?
    ensures PassesChecks(FromBytes(Encode(f)).value) <==> PassesChecks(f)
  {
    DecodeEncode(f);
  }
}
