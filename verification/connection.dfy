/**
 * The per-line policy of `handle_connection`, with the socket taken out:
 * the connection is the sequence of results its `read_line` calls
 * return, and the answer of each forwarding attempt is supplied as an
 * oracle bit per read.
 */
module Connection {
  import opened Wrappers
  import Text
  import Hex
  import opened FrameCodec
  import opened Ingest

  /**
   * What one `read_line` call returns: the text it appended to the
   * buffer, line terminator included, or an I/O error. The text is empty
   * exactly when the call read zero bytes, which is how the peer's close
   * shows.
   */
  datatype Read = Line(text: string) | ReadFailed

  /** A read the loop goes on from: a line of at least one byte. */
  predicate Continues(r: Read) {
    r.Line? && r.text != []
  }

  /**
   * What the handler does with one line: skip a blank line, log a decode
   * failure, or forward the frame, which the collector accepted or not.
   */
  datatype Outcome = Skipped | Rejected(error: DecodeError) | Forwarded(frame: TelemetryFrame, delivered: bool)

  /** How the handler left its loop, or `StillOpen` if the reads observed so far did not end it. */
  datatype Exit = PeerClosed | TransportError | StillOpen

  /**
   * One pass of the loop body: the line is trimmed; a blank line is
   * skipped; anything else is decoded and, if it yields a frame, forwarded.
   * Blank means all whitespace, a rejection carries the decode error of
   * the trimmed text, and a forward carries its frame and the collector's
   * answer.
   */
  function HandleLine(line: string, delivered: bool): (o: Outcome)
    ensures o.Skipped? <==> Text.AllWhitespace(line)
    ensures o.Rejected? ==> DecodeAndParseFrame(Text.Trim(line)) == Err(o.error)
    ensures o.Forwarded? ==> DecodeAndParseFrame(Text.Trim(line)) == Ok(o.frame) && o.delivered == delivered
  {
    var hexStr := Text.Trim(line);
    if hexStr == [] then Skipped
    else
      match DecodeAndParseFrame(hexStr)
      case Ok(frame) => Forwarded(frame, delivered)
      case Err(err) => Rejected(err)
  }

  /**
   * A line is forwarded exactly when its trimmed text decodes to a frame,
   * that is, when it is 18 hex digits once surrounding whitespace is removed.
   */
  lemma ForwardedIffDecodes(line: string, delivered: bool)
    ensures HandleLine(line, delivered).Forwarded? <==> DecodeAndParseFrame(Text.Trim(line)).Ok?
    ensures HandleLine(line, delivered).Forwarded? <==> Hex.IsHex(Text.Trim(line)) && |Text.Trim(line)| == 2 * FRAME_LENGTH
  {
    var hexStr := Text.Trim(line);
    if hexStr == [] {
      assert |hexStr| != 2 * FRAME_LENGTH;
    }
  }

  /** A line and its trimmed text are handled alike: surrounding whitespace and the line terminator are irrelevant. */
  lemma HandleTrimmed(line: string, delivered: bool)
    ensures HandleLine(Text.Trim(line), delivered) == HandleLine(line, delivered)
  {
    Text.TrimIdempotent(line);
  }

  /**
   * The lines the loop receives: the non-empty texts of the stream before
   * the first zero-byte read or read error.
   */
  function ReceivedLines(stream: seq<Read>): (lines: seq<string>)
    ensures |lines| <= |stream|
    ensures forall i :: 0 <= i < |lines| ==> stream[i] == Line(lines[i]) && lines[i] != []
    ensures |lines| < |stream| ==> !Continues(stream[|lines|])
  {
    if |stream| == 0 || !Continues(stream[0]) then [] else [stream[0].text] + ReceivedLines(stream[1..])
  }

  /** The read that ends the loop, if any: a zero-byte read is the peer closing, anything else a transport error. */
  function Ending(stream: seq<Read>): Exit {
    var n := |ReceivedLines(stream)|;
    if n == |stream| then StillOpen
    else if stream[n].Line? then PeerClosed
    else TransportError
  }

  /** The outcomes of handling `lines` in order, line `i` forwarded with answer `delivery[i]`. */
  function HandleLines(lines: seq<string>, delivery: seq<bool>): (outcomes: seq<Outcome>)
    requires |lines| <= |delivery|
  {
    seq(|lines|, i requires 0 <= i < |lines| => HandleLine(lines[i], delivery[i]))
  }

  /**
   * `handle_connection`'s loop over the reads of one connection. A
   * rejected line or a failed forward never ends it: every line received
   * before a zero-byte read or a read error has an outcome, in order, and
   * the loop ends exactly at that read.
   */
  method HandleConnection(stream: seq<Read>, delivery: seq<bool>) returns (outcomes: seq<Outcome>, exit: Exit)
    requires |delivery| == |stream|
    ensures outcomes == HandleLines(ReceivedLines(stream), delivery)
    ensures exit == Ending(stream)
    ensures exit == StillOpen <==> forall i :: 0 <= i < |stream| ==> Continues(stream[i])
  {
    outcomes := [];
    var k := 0;
    while k < |stream|
      invariant k <= |stream|
      invariant |outcomes| == k
      invariant forall j :: 0 <= j < k ==> Continues(stream[j]) && outcomes[j] == HandleLine(stream[j].text, delivery[j])
    {
      match stream[k]
      case ReadFailed =>
        exit := TransportError;
        LoopEnds(stream, delivery, k, outcomes);
        return;
      case Line(text) =>
        if |text| == 0 {
          exit := PeerClosed;
          LoopEnds(stream, delivery, k, outcomes);
          return;
        }
        outcomes := outcomes + [HandleLine(text, delivery[k])];
        k := k + 1;
    }
    exit := StillOpen;
    LoopEnds(stream, delivery, k, outcomes);
  }

  /**
   * When the first `k` reads are non-empty lines and read `k` is not (or
   * there is none), exactly those lines are received, and outcomes built
   * one per line are the outcomes of the received lines.
   */
  lemma LoopEnds(stream: seq<Read>, delivery: seq<bool>, k: nat, outcomes: seq<Outcome>)
    requires |delivery| == |stream| && k <= |stream|
    requires k < |stream| ==> !Continues(stream[k])
    requires |outcomes| == k
    requires forall j :: 0 <= j < k ==> Continues(stream[j]) && outcomes[j] == HandleLine(stream[j].text, delivery[j])
    ensures |ReceivedLines(stream)| == k
    ensures outcomes == HandleLines(ReceivedLines(stream), delivery)
    ensures k == |stream| <==> forall i :: 0 <= i < |stream| ==> Continues(stream[i])
  {
    var lines := ReceivedLines(stream);
    assert |lines| == k;
  }

  /**
   * A zero-byte read after `i` non-empty lines closes the connection:
   * exactly those `i` lines are received and no later read is looked at.
   */
  lemma ZeroByteReadCloses(stream: seq<Read>, i: nat)
    requires i < |stream| && stream[i] == Line([])
    requires forall j :: 0 <= j < i ==> Continues(stream[j])
    ensures |ReceivedLines(stream)| == i
    ensures ReceivedLines(stream) == ReceivedLines(stream[..i + 1])
    ensures Ending(stream) == PeerClosed
  {
  }

  /** The frames forwarded, in order, whatever the collector answered. */
  function ForwardedFrames(outcomes: seq<Outcome>): seq<TelemetryFrame> {
    if |outcomes| == 0 then []
    else if outcomes[0].Forwarded? then [outcomes[0].frame] + ForwardedFrames(outcomes[1..])
    else ForwardedFrames(outcomes[1..])
  }

  /** The frames the lines decode to, in order, skipping the lines that do not decode. */
  function DecodedFrames(lines: seq<string>): seq<TelemetryFrame> {
    if |lines| == 0 then []
    else
      match DecodeAndParseFrame(Text.Trim(lines[0]))
      case Ok(f) => [f] + DecodedFrames(lines[1..])
      case Err(_) => DecodedFrames(lines[1..])
  }

  /**
   * Forward attempts happen exactly for the lines that decode, in the
   * order the lines arrived, whatever the collector answers.
   */
  lemma {:induction false} ForwardsFollowDecodedLines(lines: seq<string>, delivery: seq<bool>)
    requires |lines| <= |delivery|
    ensures ForwardedFrames(HandleLines(lines, delivery)) == DecodedFrames(lines)
  {
    if |lines| > 0 {
      var outcomes := HandleLines(lines, delivery);
      assert outcomes[1..] == HandleLines(lines[1..], delivery[1..]);
      ForwardsFollowDecodedLines(lines[1..], delivery[1..]);
    }
  }

  /** The outcome with the collector's answer erased. */
  function Attempt(o: Outcome): Outcome {
    if o.Forwarded? then Forwarded(o.frame, false) else o
  }

  /**
   * The collector's answers change nothing but the answers recorded: with
   * any two oracles, the same lines are skipped, rejected and forwarded,
   * with the same frames.
   */
  lemma DeliveryIndependent(lines: seq<string>, d1: seq<bool>, d2: seq<bool>)
    requires |lines| <= |d1| && |lines| <= |d2|
    ensures var o1, o2 := HandleLines(lines, d1), HandleLines(lines, d2);
      |o1| == |o2| && forall i :: 0 <= i < |o1| ==> Attempt(o1[i]) == Attempt(o2[i])
  {
  }

  /** Whitespace-only lines, such as a bare line terminator, are skipped without a decode attempt. */
  lemma BlankLinesSkipped(lines: seq<string>, delivery: seq<bool>, i: nat)
    requires |lines| <= |delivery| && i < |lines|
    requires Text.AllWhitespace(lines[i])
    ensures HandleLines(lines, delivery)[i] == Skipped
  {
  }
}
