# IoT telemetry gateway: frame decoding and line handling

This is a Dafny model of the decoding core of a small Rust TCP gateway. IoT
devices connect to it and send one telemetry frame per line, written as
hexadecimal text. For each line the gateway:

1. trims the surrounding whitespace;
2. skips the line if it is blank;
3. hex-decodes the line;
4. parses the bytes as a fixed 9-byte frame: a big-endian signed 32-bit
   latitude in microdegrees, the longitude in the same form, and a battery
   byte;
5. forwards every frame that decodes to a metrics collector.

A line that fails to decode is logged and dropped. The connection stays open.

The modules follow the program's structure:

- `BigEndian`: unsigned big-endian byte strings and `i32::from_be_bytes`/`to_be_bytes` as two's complement mod 2^32.
- `Text`: `str::trim`, generic over the character class as `trim_matches` is and instantiated with Unicode `White_Space`; decimal rendering of lengths in messages.
- `Hex`: `hex::decode` on ASCII text (base16, either letter case, odd length checked before any character, first invalid character reported with its absolute index) and `hex::encode` in both letter cases.
- `FrameCodec`: `TelemetryFrame::from_bytes`, the frame encoder the parsing exercise uses, and the length-error message.
- `Ingest`: `decode_and_parse_frame`.
- `Connection`: the read loop of `handle_connection`. A connection is the sequence of results of its `read_line` calls: the text appended, which is empty exactly on a zero-byte read, or an I/O error. Each forward's success is an oracle bit.
- `ParseFrameExercise`: the self-check in the parsing exercise's `main`.

Coordinates stay integer microdegrees throughout. The source's `f32` division
by 1,000,000 is not modelled (see below).

## Model

| member | source | states |
|---|---|---|
| BigEndian.Unsigned | final-project/src/main.rs:42-43 | the unsigned big-endian value of a byte string is below 256 to the power of its length |
| BigEndian.UnsignedOfBytesOf | final-project/src/main.rs:42-43 | writing a number in `len` big-endian bytes and reading it back gives the number |
| BigEndian.BytesOfUnsigned | final-project/src/main.rs:42-43 | reading a byte string as a number and writing it back in the same width gives the bytes |
| BigEndian.UnsignedOfFour | final-project/src/main.rs:42-43 | a 4-byte value is the positional sum of its bytes with weights 2^24, 2^16, 2^8, 1 |
| BigEndian.I32FromBeBytes | final-project/src/main.rs:42-43 | `i32::from_be_bytes` yields the i32 congruent to the unsigned value mod 2^32, negative exactly when the top bit of the first byte is set |
| BigEndian.I32ToBeBytes | exercises/01_parse_frame.rs:43-44 | `to_be_bytes` gives four bytes whose unsigned value is the i32 mod 2^32 |
| BigEndian.I32RoundTrip | exercises/01_parse_frame.rs:24-25 | reading back the bytes of any i32 yields that i32 |
| BigEndian.I32BytesRoundTrip | final-project/src/main.rs:42-43 | every four bytes are the encoding of the i32 they are read as, so the reading is a bijection |
| Text.SkipForward | final-project/src/main.rs:104 | the scan from the front stops at the first character outside the class, or at the end |
| Text.SkipBackward | final-project/src/main.rs:104 | the scan from the back stops after the last character outside the class, or at the start |
| Text.TrimMatches | final-project/src/main.rs:104-105 | the trimmed text is empty exactly when every character is in the class |
| Text.TrimMatchesSlice | final-project/src/main.rs:104 | the trimmed text is a contiguous slice of the input, neither its first nor its last character is in the class, and every character cut off is |
| Text.TrimMatchesPadded | final-project/src/main.rs:104 | trimming text that neither starts nor ends with a class character, padded with class characters on both sides, gives back exactly that text |
| Text.Trim | final-project/src/main.rs:103-107 | `str::trim` yields an empty line exactly when the line is all Unicode whitespace, so such lines are the ones skipped |
| Text.TrimIdempotent | final-project/src/main.rs:104 | trimming a trimmed line changes nothing |
| Text.NatToDecimal | final-project/src/main.rs:29-31 | the rendering of a length is a non-empty digit string with no leading zero |
| Text.DecimalRoundTrip | final-project/src/main.rs:29-31 | reading the rendered digits back gives the number |
| Hex.DigitValue | exercises/02_hex_decode.rs:1-3 | a hex digit's value is below 16 |
| Hex.DigitChar | exercises/02_hex_decode.rs:1-3 | the digit written for a value below 16 is a hex digit of that value, and a value of 10 or more is a lower-case letter exactly when lower case is chosen |
| Hex.DecodeFrom | exercises/02_hex_decode.rs:1-3 | decoding the digit pairs of an even-length text from position k succeeds exactly when every character from k on is a hex digit, giving one byte per pair; a failure is an invalid character at or after k |
| Hex.DecodeFromBytes | exercises/02_hex_decode.rs:1-3 | byte i of a decoding from k is built from digits k+2i and k+2i+1, high digit first |
| Hex.DecodeFromFirstInvalid | exercises/02_hex_decode.rs:1-3 | a failed decoding from k names a character that is not a hex digit, at its position in the whole text, with only hex digits between k and it |
| Hex.Decode | exercises/02_hex_decode.rs:1-3 | `hex::decode` succeeds exactly on even-length text of hex digits, with the bytes the digit pairs spell; odd length is reported before any character, and otherwise the first invalid character is reported with its index |
| Hex.Encode | exercises/02_hex_decode.rs:1-3 | the hex text of n bytes has 2n characters |
| Hex.EncodeDigits | exercises/02_hex_decode.rs:1-3 | character 2i of the encoding is the high digit of byte i and character 2i+1 the low digit |
| Hex.EncodeConcat | final-project/src/main.rs:15-16 | the encoding of concatenated bytes is the concatenation of the encodings |
| Hex.DecodeEncode | exercises/02_hex_decode.rs:1-3 | decoding the hex text of any bytes, in either letter case, gives back those bytes |
| Hex.DigitCharOfValue | exercises/02_hex_decode.rs:1-3 | re-writing a hex digit from its value gives the digit with its letter lower-cased |
| Hex.ReencodedDigit | exercises/02_hex_decode.rs:1-3 | each character of re-encoded decoded text is the original character with its letter lower-cased |
| Hex.EncodeDecode | exercises/02_hex_decode.rs:1-3 | decoding valid hex text and encoding it again in lower case gives the text with letters lower-cased, so decoding ignores letter case and loses nothing else |
| Hex.DecodeExample | exercises/02_hex_decode.rs:5-10 | "0102FF" decodes to the bytes 0x01, 0x02, 0xFF |
| FrameCodec.Encode | exercises/01_parse_frame.rs:42-45 | latitude bytes, longitude bytes and the battery byte make a frame of exactly 9 bytes |
| FrameCodec.ToArray4 | final-project/src/main.rs:35-40 | the slice-to-array conversion succeeds exactly on four bytes and keeps them |
| FrameCodec.FromBytes | final-project/src/main.rs:27-52 | any length but 9 is rejected with that length, and every 9-byte input is accepted, so the extraction errors never occur; the frame's encoding is the input, each coordinate is negative exactly when the top bit of its first byte is set, and the battery byte is copied unchecked |
| FrameCodec.DecodeEncode | exercises/01_parse_frame.rs:42-51 | parsing the encoding of any frame gives back that frame, including every negative coordinate and every battery byte |
| FrameCodec.FromBytesInjective | exercises/01_parse_frame.rs:24-26 | two inputs that parse to the same microdegrees and battery byte are equal, so the integers computed before the `f32` conversion lose nothing (the `f32` frame itself is not injective) |
| FrameCodec.Message | final-project/src/main.rs:28-40 | the error texts of `from_bytes`: the length message, and only it, starts with the length prefix |
| FrameCodec.MessageIdentifiesError | final-project/src/main.rs:29-40 | different errors get different texts, so a logged message identifies its error and any length in it |
| FrameCodec.LengthMessageReportsLength | final-project/src/main.rs:28-32 | the wrong-length message is the fixed prefix followed by the decimal digits of the length received |
| Ingest.DecodeAndParseFrame | final-project/src/main.rs:125-128 | invalid hex fails with the decoder's error and never reaches the frame parser; a line yields a frame exactly when it is 18 hex digits, and the frame's encoding is what the line decodes to; other valid hex is rejected with its byte count |
| Ingest.HexFrameRoundTrip | final-project/src/main.rs:125-128 | any frame written as hex in either letter case decodes back to that frame |
| Ingest.HexOfBytes | final-project/src/main.rs:15-16 | hex text assembled from three encoded pieces is the encoding of the three byte strings joined |
| Ingest.DocumentedExampleBytes | final-project/src/main.rs:10-16 | the nine bytes of the sample line parse to latitude 20248956 µdeg, longitude -1264184 µdeg, battery 100 |
| Ingest.DocumentedExampleText | final-project/src/main.rs:15-16 | the sample line is the upper-case hex encoding of its nine bytes |
| Ingest.DocumentedExample | final-project/src/main.rs:15-16 | the sample line "0134F97CFFECB5C864" decodes to latitude 20248956 µdeg, longitude -1264184 µdeg, battery 100 |
| Ingest.TwentyDigitLineText | final-project/src/main.rs:125-128 | "FDEC02C0FC93B7000057" is the hex encoding of ten bytes |
| Ingest.TwentyDigitLineRejected | final-project/src/main.rs:125-128 | a 20-digit hex line is rejected as a frame of length 10, not decoded |
| Connection.HandleLine | final-project/src/main.rs:103-119 | a line is skipped exactly when it is all whitespace; a rejection carries the decode error of the trimmed text; a forward carries the frame the trimmed text decodes to and the collector's answer |
| Connection.ForwardedIffDecodes | final-project/src/main.rs:103-119 | a line is forwarded exactly when its trimmed text decodes, that is, exactly when the trimmed text is 18 hex digits |
| Connection.HandleTrimmed | final-project/src/main.rs:103-109 | a line and its trimmed text are handled alike, so surrounding whitespace and the line terminator never matter |
| Connection.ReceivedLines | final-project/src/main.rs:94-101 | the loop receives, in order, the non-empty reads before the first zero-byte read or read error |
| Connection.ZeroByteReadCloses | final-project/src/main.rs:96-100 | a zero-byte read ends the loop as a close by the peer: only the lines before it are received, and no later read matters |
| Connection.HandleConnection | final-project/src/main.rs:94-122 | every line received before a zero-byte read or a read error gets its outcome, in order, whatever earlier lines did; the loop ends exactly at that read, and runs on only if every read is a non-empty line |
| Connection.LoopEnds | final-project/src/main.rs:94-101 | when the first k reads are non-empty lines and read k is not, exactly k lines are received, and outcomes built one per line are those of the received lines |
| Connection.ForwardsFollowDecodedLines | final-project/src/main.rs:109-119 | the frames forwarded are, in order, the frames the decodable lines yield, whatever the collector answers |
| Connection.DeliveryIndependent | final-project/src/main.rs:112-114 | a failed forward changes nothing else: under any two collector answers the same lines are skipped, rejected and forwarded, with the same frames |
| Connection.BlankLinesSkipped | final-project/src/main.rs:105-107 | a whitespace-only line, such as a bare terminator, is skipped without a decode attempt |
| ParseFrameExercise.SampleFailsChecks | exercises/01_parse_frame.rs:38-51 | the exercise's sample parses back to itself, about -350 and -580 degrees, so its coordinate checks against -34 and -58 fail; only the battery check holds |
| ParseFrameExercise.IntendedSamplePassesChecks | exercises/01_parse_frame.rs:37-51 | with -34,000,000 and -58,000,000 µdeg and battery 87, the parsed frame passes every check |
| ParseFrameExercise.ChecksSeeTheSample | exercises/01_parse_frame.rs:42-51 | the checks pass for the parsed frame exactly when they pass for the encoded sample |

## Left out

- The frame's `f32` degrees. The source turns microdegrees into `f32` and divides by 1,000,000. The model keeps exact integer microdegrees, so single-precision rounding (for example, -349,999,999 becomes -350,000,000 in `f32`) is not modelled. The tolerance checks of the parsing exercise are stated on exact microdegrees: "within 0.001 degrees" becomes "within 1000 µdeg".
- The frame's `timestamp`. It comes from the system clock (`Utc::now()`) and is not part of the decoded data.
- Socket I/O. This covers binding, `accept`, `tokio::spawn`, `read_line` on the socket, and the TCP connection and write in `forward_to_metrics`. A connection is modelled as the sequence of `read_line` results, and each forward's success as a supplied bit.
- The forwarded line format (`telemetry lat=...,lon=...`). It formats `f32` values and the timestamp, neither of which is modelled.
- Bytes that are not valid UTF-8. `read_line` fails on them, which the model covers as a `ReadFailed` read.
- A final line without a terminator. `read_line` still returns it, so the model treats it like any other line.
- `main`'s accept loop. A failed `accept` ends `main` with an error and stops all new connections. This loop is not modelled.
- Environment configuration (`TELEMETRY_BIND_ADDR`, `METRICS_FORWARD_ADDR`) and all logging.
- The TCP echo exercise (exercises/03_tokio_tcp_echo.rs). It is context only and not part of this model.
- The text of hex errors. `hex::FromHexError` is kept structured (odd length, or an invalid character with its index), so the `invalid hex data: ...` and `invalid hex: ...` wrappers are not rendered.
- The parsing exercise's message wording. Its `from_bytes` has the same branches as the gateway's but different texts. Only the gateway's texts are modelled, in `FrameCodec.Message`.
- Hex.Decode: decoding works on characters, not UTF-8 bytes, so the model agrees with the `hex` crate on ASCII text only. Success and the decoded bytes are the same either way, since every hex digit is one byte. On non-ASCII text the crate counts bytes, so even the error variant can differ. "é" is one character but two bytes: the model returns `OddLength`, while the crate reports an invalid character at index 0. "éa" is two characters but three bytes: the model reports 'é' at index 0, while the crate returns `OddLength`. Where both report an invalid character, the crate gives the offending byte and its byte offset, and the model gives the character and its index.
- Hex.Encode: its own contract states only the length. The digits it writes are stated by `Hex.EncodeDigits`, and its inverse by `Hex.DecodeEncode` and `Hex.EncodeDecode`.

## Findings

| source | as written | input that shows it | evidently intended | confidence | as-written member | corrected member |
|---|---|---|---|---|---|---|
| exercises/01_parse_frame.rs:38-39 | the sample coordinates are -349,999,999 and -580,000,001 µdeg, commented "-34.0 approx" and "-58.0 approx" | the sample frame from lines 42-45: it parses back to about -350° and -580°, so the checks on lines 49-50 fail and `main` panics | -34,000,000 and -58,000,000 µdeg, which parse back within 0.001° of -34 and -58 | not executed | ParseFrameExercise.SampleFailsChecks | ParseFrameExercise.IntendedSamplePassesChecks |
