/** Runs of the greetd client: which frames it writes and which exchanges complete. */
module GreetdProgress {
  import opened Basics
  import opened GreetdFrames
  import opened GreetdClient

  // ---------------------------------------------------------------- What is written

  /** The call is neither refused nor too large. */
  predicate Accepted(w: World, e: Event) {
    e.Call? && !w.client.active && !w.client.failed && |e.payload| <= 65536
  }

  /** The payloads of the accepted calls of a run. */
  function Calls(parse: Parser<Response>, w: World, events: seq<Event>): seq<Payload>
    requires Run(parse, w, events).Some?
    decreases |events|
  {
    if events == [] then [] else
      var later := Calls(parse, Step(parse, w, events[0]).value, events[1..]);
      if Accepted(w, events[0]) then [events[0].payload] + later else later
  }

  /** A write left behind belongs to an exchange that was dropped. */
  ghost predicate Orderly(c: Client) {
    && !c.at.AwaitOldWrite? && (!c.at.Idle? ==> c.active && !c.failed)
    && (c.write ==> c.at.AwaitWrite? || (c.at.Idle? && (c.active || c.failed)))
  }

  /** The frames written since are those of the payloads, in order. */
  ghost predicate Wrote(w: World, w': World, payloads: seq<Payload>) {
    && |w'.sent| == |w.sent| + |payloads| && w'.sent[..|w.sent|] == w.sent
    && forall k :: 0 <= k < |payloads| ==> EncodeRequest(payloads[k]) == Ok(w'.sent[|w.sent| + k])
  }

  lemma {:induction false} StepWrites(parse: Parser<Response>, w: World, e: Event)
    requires Orderly(w.client) && Step(parse, w, e).Some?
    ensures Orderly(Step(parse, w, e).value.client)
    ensures Wrote(w, Step(parse, w, e).value, if Accepted(w, e) then [e.payload] else [])
  {
    if e.Call? {
      EncodesExactly(e.payload);
    }
  }

  lemma {:induction false} WroteComposes(w: World, w1: World, w2: World, front: seq<Payload>, back: seq<Payload>)
    requires Wrote(w, w1, front) && Wrote(w1, w2, back)
    ensures Wrote(w, w2, front + back)
  {
    assert w2.sent[..|w.sent|] == w2.sent[..|w1.sent|][..|w.sent|];
    forall k | 0 <= k < |front + back|
      ensures EncodeRequest((front + back)[k]) == Ok(w2.sent[|w.sent| + k])
    {
      if k < |front| {
        assert w2.sent[|w.sent| + k] == w2.sent[..|w1.sent|][|w.sent| + k];
      } else {
        assert (front + back)[k] == back[k - |front|];
      }
    }
  }

  lemma {:induction false} RunWrites(parse: Parser<Response>, w: World, events: seq<Event>)
    requires Orderly(w.client) && Run(parse, w, events).Some?
    ensures Orderly(Run(parse, w, events).value.client)
    ensures Wrote(w, Run(parse, w, events).value, Calls(parse, w, events))
    decreases |events|
  {
    if events != [] {
      var w1 := Step(parse, w, events[0]).value;
      var first: seq<Payload> := if Accepted(w, events[0]) then [events[0].payload] else [];
      StepWrites(parse, w, events[0]);
      RunWrites(parse, w1, events[1..]);
      WroteComposes(w, w1, Run(parse, w, events).value, first, Calls(parse, w1, events[1..]));
      assert first + Calls(parse, w1, events[1..]) == Calls(parse, w, events);
    }
  }

  /** In every run, against any server and with any drops and errors: exactly the accepted calls write a
      frame, in order; the server hears exactly their payloads; and the `k`-th frame alone decodes to the
      payload of the call that wrote it. */
  lemma {:induction false} FramesCarryTheirCalls(parse: Parser<Response>, events: seq<Event>)
    requires Run(parse, Connected(), events).Some?
    ensures
      var sent, calls := Run(parse, Connected(), events).value.sent, Calls(parse, Connected(), events);
      && |sent| == |calls| && Heard(sent) == calls
      && forall k :: 0 <= k < |sent| ==> Drain(Raw, sent[k]) == Decoded([], Ok([calls[k]]))
  {
    var sent, calls := Run(parse, Connected(), events).value.sent, Calls(parse, Connected(), events);
    RunWrites(parse, Connected(), events);
    assert forall k :: 0 <= k < |calls| ==> EncodeRequest(calls[k]) == Ok(sent[k]);
    HeardFrames(calls, sent);
    forall k | 0 <= k < |sent|
      ensures Drain(Raw, sent[k]) == Decoded([], Ok([calls[k]]))
    {
      FrameDecodes(calls[k], sent[k]);
    }
  }

  lemma {:induction false} FrameDecodes(payload: Payload, frame: seq<Byte>)
    requires EncodeRequest(payload) == Ok(frame)
    ensures Drain(Raw, frame) == Decoded([], Ok([payload]))
  {
    HeardFrames([payload], [frame]);
    assert Concat([frame][1..]) == [];
    assert Concat([frame]) == frame;
  }

  /** Against a server whose replies depend on what it has been asked: an answer returned for the `k`-th
      accepted call is the server's reply to the payloads of the first `k + 1` accepted calls. */
  lemma {:induction false} AnswersBelongToTheirCalls(parse: Parser<Response>, reply: Replies, events: seq<Event>, i: nat)
    requires AllParse(parse, reply) && BehavedRun(parse, reply, Connected(), events) && Run(parse, Connected(), events).Some?
    requires
      var log := Run(parse, Connected(), events).value.log;
      i < |log| && log[i].Answered?
    ensures
      var o, calls := Run(parse, Connected(), events).value.log[i], Calls(parse, Connected(), events);
      o.request < |calls| && parse(reply(calls[..o.request + 1])) == Some(o.response)
  {
    var w, calls := Run(parse, Connected(), events).value, Calls(parse, Connected(), events);
    ConnectedIsHonest(parse, reply);
    ExchangesReturnTheirOwnAnswers(parse, reply, Connected(), events);
    RunWrites(parse, Connected(), events);
    var k := w.log[i].request;
    HeardFrames(calls[..k + 1], w.sent[..k + 1]);
  }

  // ---------------------------------------------------------------- Exchanges complete

  function Sum(cuts: seq<nat>): nat {
    if cuts == [] then 0 else cuts[0] + Sum(cuts[1..])
  }

  function Reads(cuts: seq<nat>): seq<Event> {
    if cuts == [] then [] else [ReadDone(cuts[0])] + Reads(cuts[1..])
  }

  /** Reads of one to 16384 bytes each. */
  ghost predicate AreReads(cuts: seq<nat>) {
    forall i :: 0 <= i < |cuts| ==> 0 < cuts[i] <= 16384
  }

  lemma {:induction false} RunOne(parse: Parser<Response>, w: World, e: Event, rest: seq<Event>)
    requires Step(parse, w, e).Some?
    ensures Run(parse, w, [e] + rest) == Run(parse, Step(parse, w, e).value, rest)
  {
    assert ([e] + rest)[1..] == rest;
  }

  /** Ready for the next call, with one more answer returned. */
  ghost predicate Completed(w': World, sent: seq<seq<Byte>>, log: seq<Outcome>, response: Response) {
    && w'.client == Connected().client && w'.inbound == [] && w'.sent == sent && w'.replied == |sent|
    && sent != [] && w'.log == log + [Answered(|sent| - 1, response)]
  }

  ghost predicate Reading(reply: Replies, w: World) {
    InStep(reply, w) && w.client.at.AwaitRead? && w.replied == |w.sent|
  }

  lemma {:induction false} PartialRead(parse: Parser<Response>, reply: Replies, w: World, n: nat)
    requires AllParse(parse, reply) && Reading(reply, w) && 0 < n <= 16384 && n < |w.inbound|
    ensures Step(parse, w, ReadDone(n)).Some?
    ensures
      var w' := Step(parse, w, ReadDone(n)).value;
      Reading(reply, w') && w'.sent == w.sent && w'.log == w.log && w'.inbound == w.inbound[n..]
  {
    ReceiveDecodes(parse, reply, w, n);
    assert w.client.pending + [] == [];
    var w' := Step(parse, w, ReadDone(n)).value;
    assert w'.client.buffer + w'.inbound == w.client.buffer + w.inbound;
  }

  lemma {:induction false} LastRead(parse: Parser<Response>, reply: Replies, w: World)
    requires AllParse(parse, reply) && Reading(reply, w) && |w.inbound| <= 16384
    ensures Step(parse, w, ReadDone(|w.inbound|)).Some?
    ensures
      var w' := Step(parse, w, ReadDone(|w.inbound|)).value;
      Completed(w', w.sent, w.log, parse(ReplyTo(reply, w.sent, |w.sent| - 1)).value)
  {
    ReceiveDecodes(parse, reply, w, |w.inbound|);
    var response := parse(ReplyTo(reply, w.sent, |w.sent| - 1)).value;
    assert w.client.pending + [response] == [response] && [response][1..] == [];
  }

  lemma {:induction false} SumIsPositive(cuts: seq<nat>)
    requires AreReads(cuts)
    ensures Sum(cuts) == 0 <==> cuts == []
  {
  }

  /** However the outstanding reply is cut into reads, the last of them completes the exchange. */
  lemma {:induction false} ReadsComplete(parse: Parser<Response>, reply: Replies, w: World, cuts: seq<nat>)
    requires AllParse(parse, reply) && Reading(reply, w) && AreReads(cuts) && Sum(cuts) == |w.inbound|
    ensures Run(parse, w, Reads(cuts)).Some?
    ensures Completed(Run(parse, w, Reads(cuts)).value, w.sent, w.log, parse(ReplyTo(reply, w.sent, |w.sent| - 1)).value)
    decreases |cuts|
  {
    assert w.inbound != [];
    var n, later := cuts[0], cuts[1..];
    SumIsPositive(later);
    if later == [] {
      LastRead(parse, reply, w);
      RunOne(parse, w, ReadDone(n), []);
    } else {
      PartialRead(parse, reply, w, n);
      RunOne(parse, w, ReadDone(n), Reads(later));
      ReadsComplete(parse, reply, Step(parse, w, ReadDone(n)).value, later);
    }
  }

  /** From every state ready for a call, a payload within the limit, a written frame and the server's
      reply, in reads of any sizes, complete the exchange: the frame is sent, its answer is returned and
      the client is ready again. */
  lemma {:induction false} ExchangeCompletes(parse: Parser<Response>, reply: Replies, w: World, payload: Payload, cuts: seq<nat>)
    requires AllParse(parse, reply) && w.client == Connected().client && w.inbound == [] && w.replied == |w.sent|
    requires
      var sent := w.sent + [Frame(payload)];
      AreReads(cuts) && Sum(cuts) == |Frame(ReplyTo(reply, sent, |w.sent|))|
    ensures
      var sent := w.sent + [Frame(payload)];
      var answer := ReplyTo(reply, sent, |w.sent|);
      var events := [Call(payload)] + ([WriteDone(true)] + ([ServerSends(Frame(answer))] + Reads(cuts)));
      && Run(parse, w, events).Some?
      && Completed(Run(parse, w, events).value, sent, w.log, parse(answer).value)
  {
    EncodesExactly(payload);
    var sent := w.sent + [Frame(payload)];
    var answer := ReplyTo(reply, sent, |w.sent|);
    var w1 := Step(parse, w, Call(payload)).value;
    assert w1 == World(w.client.(at := AwaitWrite, active := true, write := true), sent, w.replied, [], w.log);
    var w2 := Step(parse, w1, WriteDone(true)).value;
    var w3 := Step(parse, w2, ServerSends(Frame(answer))).value;
    assert w3.inbound == Frame(answer);
    RunOne(parse, w, Call(payload), [WriteDone(true)] + ([ServerSends(Frame(answer))] + Reads(cuts)));
    RunOne(parse, w1, WriteDone(true), [ServerSends(Frame(answer))] + Reads(cuts));
    RunOne(parse, w2, ServerSends(Frame(answer)), Reads(cuts));
    ReadsComplete(parse, reply, w3, cuts);
  }

  /** Every failure is reported as what it was: a broken write or read, the end of the stream, or what the
      decoder found. */
  lemma {:induction false} FailuresExactly(parse: Parser<Response>, w: World, e: Event)
    requires Step(parse, w, e).Some? && Orderly(w.client) && w.client.pending == []
    ensures
      var w' := Step(parse, w, e).value;
      && (e == WriteDone(false) || e == ReadFailed ==> w'.log == w.log + [Failed(Io)])
      && (e == ReadDone(0) ==> w'.log == w.log + [Failed(UnexpectedEof)])
      && (e.ReadDone? && e.count > 0 ==>
            var decoded := Push(parse, w.client.buffer, w.inbound[..e.count]).messages;
            decoded.Err? ==> w'.log == w.log + [Failed(Protocol(decoded.error))])
  {
  }

  // ---------------------------------------------------------------- Several responses at once

  /** A read that brings whole frames and perhaps the start of another: up to eight responses, of which
      the first is returned and the others wait in order; more than eight fail the connection; none leads
      to the next read. */
  lemma {:induction false} BatchIsReceived(parse: Parser<Response>, w: World, n: nat, payloads: seq<Payload>, rest: seq<Byte>)
    requires w.client.at.AwaitRead? && w.client.pending == [] && w.sent != [] && 0 < n <= |w.inbound| && n <= 16384
    requires w.client.buffer + w.inbound[..n] == Frames(payloads) + rest && |w.client.buffer| + n <= 65540
    requires Incomplete(rest) && forall i :: 0 <= i < |payloads| ==> parse(payloads[i]).Some?
    ensures Step(parse, w, ReadDone(n)).Some?
    ensures
      var w', messages := Step(parse, w, ReadDone(n)).value, Messages(parse, payloads);
      && w'.client.buffer == rest && w'.inbound == w.inbound[n..] && w'.sent == w.sent
      && (if |payloads| == 0 then w'.client.at == AwaitRead && w'.log == w.log && w'.client.pending == []
          else if |payloads| <= 8 then
            w'.client.at == Idle && !w'.client.active && w'.client.failed == w.client.failed
            && w'.log == w.log + [Answered(|w.sent| - 1, messages[0])] && w'.client.pending == messages[1..]
          else Broken(w'.client) && w'.log == w.log + [Failed(PendingResponsesFull)])
  {
    BatchDecodes(parse, w.client.buffer, w.inbound[..n], payloads, rest);
    var w1 := w.(client := w.client.(read := false), inbound := w.inbound[n..]);
    BatchIsTaken(parse, w1, w.inbound[..n], Messages(parse, payloads), rest);
    assert Step(parse, w, ReadDone(n)).value == Receive(parse, w1, w.inbound[..n]);
  }

  lemma {:induction false} BatchIsTaken(parse: Parser<Response>, w: World, bytes: seq<Byte>, messages: seq<Response>, rest: seq<Byte>)
    requires w.client.pending == [] && w.sent != [] && Push(parse, w.client.buffer, bytes) == Decoded(rest, Ok(messages))
    ensures Receive(parse, w, bytes) ==
      if |messages| == 0 then w.(client := w.client.(buffer := rest, at := AwaitRead, read := true))
      else if |messages| <= 8 then
        w.(client := w.client.(buffer := rest, at := Idle, active := false, pending := messages[1..]),
           log := w.log + [Answered(|w.sent| - 1, messages[0])])
      else w.(client := w.client.(buffer := rest, at := Idle, active := false, failed := true), log := w.log + [Failed(PendingResponsesFull)])
  {
    assert w.client.pending + messages == messages;
  }

  lemma {:induction false} BatchDecodes(parse: Parser<Response>, buffer: seq<Byte>, bytes: seq<Byte>, payloads: seq<Payload>, rest: seq<Byte>)
    requires buffer + bytes == Frames(payloads) + rest && |buffer| + |bytes| <= 65540
    requires Incomplete(rest) && forall i :: 0 <= i < |payloads| ==> parse(payloads[i]).Some?
    ensures Push(parse, buffer, bytes) == Decoded(rest, Ok(Messages(parse, payloads)))
  {
    DrainFrames(parse, payloads, rest);
  }

  /** A response that came early answers the next call without a read. */
  lemma {:induction false} PendingAnswersNextCall(parse: Parser<Response>, w: World, payload: Payload)
    requires w.client.at.Idle? && !w.client.active && !w.client.failed && !w.client.write && w.client.pending != []
    ensures
      var events := [Call(payload)] + [WriteDone(true)];
      && Run(parse, w, events).Some?
      && Run(parse, w, events).value ==
         World(w.client.(pending := w.client.pending[1..]), w.sent + [Frame(payload)], w.replied, w.inbound,
               w.log + [Answered(|w.sent|, w.client.pending[0])])
  {
    EncodesExactly(payload);
    var w1 := Step(parse, w, Call(payload)).value;
    RunOne(parse, w, Call(payload), [WriteDone(true)]);
    RunOne(parse, w1, WriteDone(true), []);
    assert [WriteDone(true)] + [] == [WriteDone(true)];
  }
}
