/** greetd framing: a native little-endian length prefix followed by a JSON payload. JSON itself is
    represented by an arbitrary parser passed to the decoder. */
module GreetdFrames {
  import opened Basics

  type Payload = p: seq<Byte> | |p| <= MAX_FRAME_BYTES
  type Parser<!T> = seq<Byte> -> Option<T>

  const MAX_FRAME_BYTES := 65536

  datatype FrameError = Json | FrameTooLarge(bytes: nat) | BufferedDataTooLarge
  datatype Result<+T> = Ok(value: T) | Err(error: FrameError)

  // ---------------------------------------------------------------- Framing

  function LengthBytes(n: nat): (b: seq<Byte>)
    requires n < 0x1_0000_0000
    ensures |b| == 4
  {
    [n % 256, n / 256 % 256, n / 65536 % 256, n / 16777216]
  }

  function LengthValue(b: seq<Byte>): nat
    requires |b| >= 4
  {
    b[0] as int + 256 * (b[1] as int) + 65536 * (b[2] as int) + 16777216 * (b[3] as int)
  }

  lemma {:induction false} LengthRoundTrip(n: nat, rest: seq<Byte>)
    requires n < 0x1_0000_0000
    ensures LengthValue(LengthBytes(n) + rest) == n
  {
    assert n / 65536 == n / 256 / 256 && n / 16777216 == n / 65536 / 256;
  }

  function Frame(payload: Payload): (f: seq<Byte>)
    ensures |f| == 4 + |payload|
  {
    LengthBytes(|payload|) + payload
  }

  function Frames(payloads: seq<Payload>): seq<Byte> {
    if payloads == [] then [] else Frame(payloads[0]) + Frames(payloads[1..])
  }

  function EncodeRequest(payload: seq<Byte>): Result<seq<Byte>> {
    if |payload| > MAX_FRAME_BYTES then Err(FrameTooLarge(|payload|)) else Ok(Frame(payload))
  }

  // ---------------------------------------------------------------- The decoder as a function

  /** Contents of the decoder buffer together with what the call returned. */
  datatype Decoded<+T> = Decoded(buffer: seq<Byte>, messages: Result<seq<T>>)

  function Prepend<T>(message: T, d: Decoded<T>): Decoded<T> {
    if d.messages.Ok? then Decoded(d.buffer, Ok([message] + d.messages.value)) else d
  }

  predicate HoldsFrame(buffer: seq<Byte>) {
    |buffer| >= 4 && |buffer| >= 4 + LengthValue(buffer)
  }

  function Drain<T>(parse: Parser<T>, buffer: seq<Byte>): Decoded<T>
    decreases |buffer|
  {
    if |buffer| < 4 then Decoded(buffer, Ok([]))
    else if LengthValue(buffer) > MAX_FRAME_BYTES then Decoded([], Err(FrameTooLarge(LengthValue(buffer))))
    else if !HoldsFrame(buffer) then Decoded(buffer, Ok([]))
    else
      var end := 4 + LengthValue(buffer);
      match parse(buffer[4..end])
      case None => Decoded(buffer, Err(Json))
      case Some(message) => Prepend(message, Drain(parse, buffer[end..]))
  }

  function Push<T>(parse: Parser<T>, buffer: seq<Byte>, bytes: seq<Byte>): Decoded<T> {
    if |buffer| + |bytes| > MAX_FRAME_BYTES + 4 then Decoded([], Err(BufferedDataTooLarge))
    else Drain(parse, buffer + bytes)
  }

  /** Successive pushes, stopping at the first error. */
  function PushAll<T>(parse: Parser<T>, buffer: seq<Byte>, chunks: seq<seq<Byte>>): Decoded<T>
    decreases |chunks|
  {
    if chunks == [] then Decoded(buffer, Ok([])) else
      var first := Push(parse, buffer, chunks[0]);
      if first.messages.Err? then first
      else PrependAll(first.messages.value, PushAll(parse, first.buffer, chunks[1..]))
  }

  function PrependAll<T>(messages: seq<T>, d: Decoded<T>): Decoded<T> {
    if d.messages.Ok? then Decoded(d.buffer, Ok(messages + d.messages.value)) else d
  }

  function Concat(chunks: seq<seq<Byte>>): seq<Byte> {
    if chunks == [] then [] else chunks[0] + Concat(chunks[1..])
  }

  /** The decoder without its JSON. */
  function Raw(payload: seq<Byte>): Option<seq<Byte>> {
    Some(payload)
  }

  /** The payloads that a decoder at the other end finds in the frames written. */
  function Heard(frames: seq<seq<Byte>>): seq<seq<Byte>> {
    var d := Drain(Raw, Concat(frames));
    if d.messages.Ok? then d.messages.value else []
  }

  // ---------------------------------------------------------------- Fragmentation does not matter

  lemma {:induction false} DrainLeavesNoFrame<T>(parse: Parser<T>, buffer: seq<Byte>)
    requires Drain(parse, buffer).messages.Ok?
    ensures !HoldsFrame(Drain(parse, buffer).buffer)
    decreases |buffer|
  {
    if HoldsFrame(buffer) {
      DrainLeavesNoFrame(parse, buffer[4 + LengthValue(buffer)..]);
    }
  }

  /** Draining in two goes is draining once. */
  lemma {:induction false} DrainSplits<T>(parse: Parser<T>, front: seq<Byte>, back: seq<Byte>)
    requires Drain(parse, front).messages.Ok?
    ensures
      var d := Drain(parse, front);
      Drain(parse, front + back) == PrependAll(d.messages.value, Drain(parse, d.buffer + back))
    decreases |front|
  {
    var d := Drain(parse, front);
    if HoldsFrame(front) {
      var end := 4 + LengthValue(front);
      assert (front + back)[4..end] == front[4..end];
      assert (front + back)[end..] == front[end..] + back;
      DrainSplits(parse, front[end..], back);
      PrependAssociates(parse(front[4..end]).value, Drain(parse, front[end..]), Drain(parse, d.buffer + back));
    } else {
      PrependNothing(Drain(parse, front + back));
    }
  }

  lemma {:induction false} PrependNothing<T>(d: Decoded<T>)
    ensures PrependAll([], d) == d
  {
    if d.messages.Ok? {
      assert [] + d.messages.value == d.messages.value;
    }
  }

  lemma {:induction false} PrependAssociates<T>(message: T, middle: Decoded<T>, last: Decoded<T>)
    requires middle.messages.Ok?
    ensures Prepend(message, PrependAll(middle.messages.value, last)) == PrependAll([message] + middle.messages.value, last)
  {
    if last.messages.Ok? {
      assert [message] + (middle.messages.value + last.messages.value) == [message] + middle.messages.value + last.messages.value;
    }
  }

  lemma {:induction false} FirstFrame(payload: Payload, tail: seq<Byte>)
    ensures
      var wire := Frame(payload) + tail;
      && HoldsFrame(wire) && LengthValue(wire) == |payload|
      && wire[4..4 + |payload|] == payload && wire[4 + |payload|..] == tail
  {
    assert Frame(payload) + tail == LengthBytes(|payload|) + (payload + tail);
    LengthRoundTrip(|payload|, payload + tail);
  }

  /** A proper prefix of a frame is never mistaken for a frame, nor for an oversized one. */
  ghost predicate Incomplete(rest: seq<Byte>) {
    !HoldsFrame(rest) && (|rest| >= 4 ==> LengthValue(rest) <= MAX_FRAME_BYTES)
  }

  lemma {:induction false} ProperPrefixIncomplete(payload: Payload, rest: seq<Byte>)
    requires rest <= Frame(payload) && |rest| < |Frame(payload)|
    ensures Incomplete(rest)
  {
    FirstFrame(payload, []);
    assert Frame(payload) + [] == Frame(payload);
    if |rest| >= 4 {
      assert rest[..4] == Frame(payload)[..4];
    }
  }

  lemma {:induction false} DrainFrames<T>(parse: Parser<T>, payloads: seq<Payload>, rest: seq<Byte>)
    requires (forall i :: 0 <= i < |payloads| ==> parse(payloads[i]).Some?) && Incomplete(rest)
    ensures Drain(parse, Frames(payloads) + rest) == Decoded(rest, Ok(Messages(parse, payloads)))
    decreases |payloads|
  {
    if payloads == [] {
      assert Frames(payloads) + rest == rest;
    } else {
      var tail := Frames(payloads[1..]) + rest;
      assert Frames(payloads) + rest == Frame(payloads[0]) + tail;
      FirstFrame(payloads[0], tail);
      DrainFrames(parse, payloads[1..], rest);
    }
  }

  function Messages<T>(parse: Parser<T>, payloads: seq<seq<Byte>>): (m: seq<T>)
    requires forall i :: 0 <= i < |payloads| ==> parse(payloads[i]).Some?
    ensures |m| == |payloads| && forall i :: 0 <= i < |payloads| ==> m[i] == parse(payloads[i]).value
  {
    if payloads == [] then [] else [parse(payloads[0]).value] + Messages(parse, payloads[1..])
  }

  // ---------------------------------------------------------------- Every fragmentation decodes alike

  /** Each push meets the buffer bound, the buffer holding what draining the earlier chunks leaves. */
  ghost predicate Fits<T>(parse: Parser<T>, buffer: seq<Byte>, chunks: seq<seq<Byte>>) {
    forall i :: 0 <= i < |chunks| ==> FitsAt(parse, buffer, chunks, i)
  }

  ghost predicate FitsAt<T>(parse: Parser<T>, buffer: seq<Byte>, chunks: seq<seq<Byte>>, i: nat)
    requires i < |chunks|
  {
    |Drain(parse, buffer + Concat(chunks[..i])).buffer| + |chunks[i]| <= MAX_FRAME_BYTES + 4
  }

  ghost predicate Settled<T>(parse: Parser<T>, buffer: seq<Byte>) {
    Drain(parse, buffer) == Decoded(buffer, Ok([]))
  }

  lemma {:induction false} DrainIsSettled<T>(parse: Parser<T>, buffer: seq<Byte>)
    requires Drain(parse, buffer).messages.Ok?
    ensures Settled(parse, Drain(parse, buffer).buffer)
    decreases |buffer|
  {
    if HoldsFrame(buffer) {
      DrainIsSettled(parse, buffer[4 + LengthValue(buffer)..]);
    }
  }

  lemma {:induction false} FitsAtShift<T>(parse: Parser<T>, buffer: seq<Byte>, chunks: seq<seq<Byte>>, i: nat)
    requires 0 < i < |chunks| && Drain(parse, buffer + chunks[0]).messages.Ok?
    ensures FitsAt(parse, buffer, chunks, i) <==> FitsAt(parse, Drain(parse, buffer + chunks[0]).buffer, chunks[1..], i - 1)
  {
    var middle := Concat(chunks[1..][..i - 1]);
    assert chunks[..i][1..] == chunks[1..][..i - 1];
    assert buffer + Concat(chunks[..i]) == (buffer + chunks[0]) + middle;
    DrainSplits(parse, buffer + chunks[0], middle);
  }

  lemma {:induction false} FitsStep<T>(parse: Parser<T>, buffer: seq<Byte>, chunks: seq<seq<Byte>>)
    requires Settled(parse, buffer) && chunks != [] && Drain(parse, buffer + chunks[0]).messages.Ok?
    ensures Fits(parse, buffer, chunks) <==>
            |buffer| + |chunks[0]| <= MAX_FRAME_BYTES + 4 && Fits(parse, Drain(parse, buffer + chunks[0]).buffer, chunks[1..])
  {
    var next := Drain(parse, buffer + chunks[0]).buffer;
    assert buffer + Concat(chunks[..0]) == buffer;
    assert FitsAt(parse, buffer, chunks, 0) <==> |buffer| + |chunks[0]| <= MAX_FRAME_BYTES + 4;
    forall i | 0 < i < |chunks|
      ensures FitsAt(parse, buffer, chunks, i) <==> FitsAt(parse, next, chunks[1..], i - 1)
    {
      FitsAtShift(parse, buffer, chunks, i);
    }
    if Fits(parse, buffer, chunks) {
      forall i | 0 <= i < |chunks[1..]|
        ensures FitsAt(parse, next, chunks[1..], i)
      {
        assert FitsAt(parse, buffer, chunks, i + 1);
      }
    }
  }

  /** For every byte stream that decodes, and every way of cutting it into reads: pushing the chunks
      one by one gives the same messages and leftover as draining the stream at once, if and only if
      every push meets the buffer bound; otherwise the run fails with the bound error. */
  lemma {:induction false} FragmentationInvariance<T>(parse: Parser<T>, buffer: seq<Byte>, chunks: seq<seq<Byte>>)
    requires Settled(parse, buffer) && Drain(parse, buffer + Concat(chunks)).messages.Ok?
    ensures PushAll(parse, buffer, chunks) ==
            if Fits(parse, buffer, chunks) then Drain(parse, buffer + Concat(chunks)) else Decoded([], Err(BufferedDataTooLarge))
    decreases |chunks|
  {
    if chunks == [] {
      assert buffer + Concat(chunks) == buffer;
    } else {
      var front := buffer + chunks[0];
      assert buffer + Concat(chunks) == front + Concat(chunks[1..]);
      DrainPrefixSucceeds(parse, front, Concat(chunks[1..]));
      DrainSplits(parse, front, Concat(chunks[1..]));
      DrainIsSettled(parse, front);
      FitsStep(parse, buffer, chunks);
      FragmentationInvariance(parse, Drain(parse, front).buffer, chunks[1..]);
    }
  }

  lemma {:induction false} DrainPrefixSucceeds<T>(parse: Parser<T>, front: seq<Byte>, back: seq<Byte>)
    requires Drain(parse, front + back).messages.Ok?
    ensures Drain(parse, front).messages.Ok?
    decreases |front|
  {
    if |front| >= 4 {
      assert LengthValue(front + back) == LengthValue(front);
      if HoldsFrame(front) {
        var end := 4 + LengthValue(front);
        assert (front + back)[4..end] == front[4..end];
        assert (front + back)[end..] == front[end..] + back;
        DrainPrefixSucceeds(parse, front[end..], back);
      }
    }
  }

  /** Framed payloads, cut arbitrarily within the bound and possibly followed by the start of another
      frame, decode to exactly those payloads in order and leave exactly that start. */
  lemma {:induction false} FramesSurviveFragmentation<T>(parse: Parser<T>, payloads: seq<Payload>, rest: seq<Byte>, chunks: seq<seq<Byte>>)
    requires (forall i :: 0 <= i < |payloads| ==> parse(payloads[i]).Some?) && Incomplete(rest)
    requires Concat(chunks) == Frames(payloads) + rest
    ensures Fits(parse, [], chunks) <==> PushAll(parse, [], chunks) == Decoded(rest, Ok(Messages(parse, payloads)))
    ensures !Fits(parse, [], chunks) ==> PushAll(parse, [], chunks).messages == Err(BufferedDataTooLarge)
  {
    assert [] + Concat(chunks) == Frames(payloads) + rest;
    DrainFrames(parse, payloads, rest);
    FragmentationInvariance(parse, [], chunks);
  }

  /** Bytes that fit one maximal frame in total never meet the bound, however they are cut. */
  lemma {:induction false} ShortStreamsFit<T>(parse: Parser<T>, buffer: seq<Byte>, chunks: seq<seq<Byte>>)
    requires |buffer| + |Concat(chunks)| <= MAX_FRAME_BYTES + 4
    ensures Fits(parse, buffer, chunks)
  {
    forall i | 0 <= i < |chunks|
      ensures FitsAt(parse, buffer, chunks, i)
    {
      DrainShrinks(parse, buffer + Concat(chunks[..i]));
      ConcatSplits(chunks, i);
    }
  }

  lemma {:induction false} DrainShrinks<T>(parse: Parser<T>, buffer: seq<Byte>)
    ensures |Drain(parse, buffer).buffer| <= |buffer|
    decreases |buffer|
  {
    if HoldsFrame(buffer) {
      DrainShrinks(parse, buffer[4 + LengthValue(buffer)..]);
    }
  }

  lemma {:induction false} ConcatSplits(chunks: seq<seq<Byte>>, i: nat)
    requires i < |chunks|
    ensures |Concat(chunks[..i])| + |chunks[i]| <= |Concat(chunks)|
  {
    if i > 0 {
      ConcatSplits(chunks[1..], i - 1);
      assert chunks[..i][1..] == chunks[1..][..i - 1];
    }
  }

  // ---------------------------------------------------------------- What the bytes are

  /** A request is encoded exactly if it has at most 64 KiB, as its length in four bytes, the lowest
      first, followed by the payload itself. */
  lemma {:induction false} EncodesExactly(payload: seq<Byte>)
    ensures EncodeRequest(payload).Ok? <==> |payload| <= 65536
    ensures |payload| > 65536 ==> EncodeRequest(payload) == Err(FrameTooLarge(|payload|))
    ensures |payload| <= 65536 ==>
      var frame := EncodeRequest(payload).value;
      && |frame| == 4 + |payload| && frame[4..] == payload
      && frame[0] as int + 256 * (frame[1] as int) + 65536 * (frame[2] as int) + 16777216 * (frame[3] as int) == |payload|
  {
    if |payload| <= 65536 {
      LengthRoundTrip(|payload|, payload);
    }
  }

  lemma {:induction false} FramesOfTwoBytes()
    ensures EncodeRequest([123, 125]) == Ok([2, 0, 0, 0, 123, 125])
  {
    assert Frame([123, 125]) == [2, 0, 0, 0, 123, 125];
  }

  /** Frames written one after the other are heard as their payloads, in order. */
  lemma {:induction false} HeardFrames(payloads: seq<Payload>, frames: seq<seq<Byte>>)
    requires |frames| == |payloads| && forall i :: 0 <= i < |payloads| ==> EncodeRequest(payloads[i]) == Ok(frames[i])
    ensures Drain(Raw, Concat(frames)) == Decoded([], Ok(payloads))
    ensures Heard(frames) == payloads
  {
    ConcatFrames(payloads, frames);
    DrainFrames(Raw, payloads, []);
    assert Frames(payloads) + [] == Frames(payloads);
    assert Messages(Raw, payloads) == payloads;
  }

  lemma {:induction false} ConcatFrames(payloads: seq<Payload>, frames: seq<seq<Byte>>)
    requires |frames| == |payloads| && forall i :: 0 <= i < |payloads| ==> EncodeRequest(payloads[i]) == Ok(frames[i])
    ensures Concat(frames) == Frames(payloads)
  {
    if payloads != [] {
      ConcatFrames(payloads[1..], frames[1..]);
      assert EncodeRequest(payloads[0]) == Ok(frames[0]);
    }
  }

  /** What decoding stops at: the start of a frame, a length over the limit, or a frame that is no JSON. */
  datatype Stop = Partial | TooLong(length: nat) | Malformed(payload: Payload, tail: seq<Byte>)

  ghost predicate StopsAt<T>(parse: Parser<T>, rest: seq<Byte>, stop: Stop) {
    match stop
    case Partial => Incomplete(rest)
    case TooLong(length) =>
      && |rest| >= 4 && length > 65536
      && length == rest[0] as int + 256 * (rest[1] as int) + 65536 * (rest[2] as int) + 16777216 * (rest[3] as int)
    case Malformed(payload, tail) => rest == Frame(payload) + tail && parse(payload).None?
  }

  /** Every stream is frames that parse followed by one such stop. */
  lemma {:induction false} EveryStreamStops<T>(parse: Parser<T>, stream: seq<Byte>) returns (payloads: seq<Payload>, rest: seq<Byte>, stop: Stop)
    ensures stream == Frames(payloads) + rest && StopsAt(parse, rest, stop)
    ensures forall i :: 0 <= i < |payloads| ==> parse(payloads[i]).Some?
    decreases |stream|
  {
    payloads, rest, stop := [], stream, Partial;
    if |stream| >= 4 && LengthValue(stream) > MAX_FRAME_BYTES {
      stop := TooLong(LengthValue(stream));
    } else if HoldsFrame(stream) {
      var end := 4 + LengthValue(stream);
      var payload, tail := stream[4..end], stream[end..];
      LengthBytesOf(stream);
      assert stream == Frame(payload) + tail;
      if parse(payload).None? {
        stop := Malformed(payload, tail);
      } else {
        var more;
        more, rest, stop := EveryStreamStops(parse, tail);
        payloads := [payload] + more;
        assert payloads[1..] == more;
        assert Frames(payloads) + rest == Frame(payload) + (Frames(more) + rest);
      }
    }
  }

  lemma {:induction false} LengthBytesOf(b: seq<Byte>)
    requires |b| >= 4
    ensures LengthBytes(LengthValue(b)) == b[..4]
  {
    var n := LengthValue(b);
    var n2 := b[2] as int + 256 * (b[3] as int);
    var n1 := b[1] as int + 256 * n2;
    assert n == b[0] as int + 256 * n1;
    assert n % 256 == b[0] && n / 256 == n1;
    assert n1 % 256 == b[1] && n1 / 256 == n2;
    assert n2 % 256 == b[2] && n2 / 256 == b[3];
    assert n / 65536 == n / 256 / 256 && n / 16777216 == n / 65536 / 256;
  }

  /** What draining returns and keeps, by that stop: everything parsed and the started frame; an empty
      buffer and the length; or the buffer from the bad frame on. An error loses what was parsed. */
  lemma {:induction false} DrainExactly<T>(parse: Parser<T>, payloads: seq<Payload>, rest: seq<Byte>, stop: Stop)
    requires (forall i :: 0 <= i < |payloads| ==> parse(payloads[i]).Some?) && StopsAt(parse, rest, stop)
    ensures Drain(parse, Frames(payloads) + rest) ==
      match stop
      case Partial => Decoded(rest, Ok(Messages(parse, payloads)))
      case TooLong(length) => Decoded([], Err(FrameTooLarge(length)))
      case Malformed(_, _) => Decoded(rest, Err(Json))
  {
    if stop.Partial? {
      DrainFrames(parse, payloads, rest);
    } else {
      DrainFrames(parse, payloads, []);
      assert Frames(payloads) + [] == Frames(payloads);
      DrainSplits(parse, Frames(payloads), rest);
      assert [] + rest == rest;
      if stop.Malformed? {
        FirstFrame(stop.payload, stop.tail);
      }
    }
  }

  /** A push that would hold more than one maximal frame fails and empties the buffer; any other one
      drains what was kept together with what came. */
  lemma {:induction false} PushExactly<T>(parse: Parser<T>, buffer: seq<Byte>, bytes: seq<Byte>)
    ensures Push(parse, buffer, bytes) ==
      if |buffer| + |bytes| <= 65540 then Drain(parse, buffer + bytes) else Decoded([], Err(BufferedDataTooLarge))
  {
  }

  // ---------------------------------------------------------------- The decoder object

  class FrameDecoder<T> {
    var buffer: seq<Byte>

    constructor ()
      ensures buffer == []
    {
      buffer := [];
    }

    method PushBytes(parse: Parser<T>, bytes: seq<Byte>) returns (r: Result<seq<T>>)
      modifies this
      ensures Decoded(buffer, r) == Push(parse, old(buffer), bytes)
    {
      if |buffer| + |bytes| > MAX_FRAME_BYTES + 4 {
        buffer := [];
        return Err(BufferedDataTooLarge);
      }
      buffer := buffer + bytes;
      var decoded: seq<T> := [];
      ghost var whole := buffer;
      PrependNothing(Drain(parse, whole));
      while true
        invariant Drain(parse, whole) == PrependAll(decoded, Drain(parse, buffer))
        decreases |buffer|
      {
        if |buffer| < 4 {
          break;
        }
        var length := LengthValue(buffer);
        if length > MAX_FRAME_BYTES {
          buffer := [];
          return Err(FrameTooLarge(length));
        }
        var end := 4 + length;
        if |buffer| < end {
          break;
        }
        match parse(buffer[4..end])
        case None => return Err(Json);
        case Some(message) =>
          PrependSnoc(decoded, message, Drain(parse, buffer[end..]));
          decoded := decoded + [message];
          buffer := buffer[end..];
      }
      assert decoded + [] == decoded;
      return Ok(decoded);
    }
  }

  lemma {:induction false} PrependSnoc<T>(decoded: seq<T>, message: T, d: Decoded<T>)
    ensures PrependAll(decoded, Prepend(message, d)) == PrependAll(decoded + [message], d)
  {
    if d.messages.Ok? {
      assert decoded + ([message] + d.messages.value) == decoded + [message] + d.messages.value;
    }
  }
}
