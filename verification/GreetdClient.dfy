/** The greetd transport: one outstanding request, resumed at awaits and droppable at each of them. */
module GreetdClient {
  import opened Basics
  import opened GreetdFrames

  const READ_CHUNK_SIZE := 16384
  const MAX_PENDING_RESPONSES := 8

  datatype ErrorType = AuthError | OtherError
  datatype AuthMessageType = Visible | Secret | Info | ErrorText
  datatype Response =
    | Success
    | Error(errorType: ErrorType, description: string)
    | AuthMessage(messageType: AuthMessageType, message: string)

  datatype ClientError = Io | Protocol(error: FrameError) | UnexpectedEof | PendingResponsesFull | InterruptedExchange | ConnectionUnusable

  /** Where the current exchange future is suspended; `Idle` when no future is being polled. */
  datatype Await = Idle | AwaitOldWrite(frame: seq<Byte>) | AwaitWrite | AwaitRead

  datatype Client = Client(at: Await, write: bool, read: bool, buffer: seq<Byte>, pending: seq<Response>, active: bool, failed: bool)

  /** What callers observed: an answer to the `request`-th frame written, a failed exchange, or a
      call refused before anything was written. */
  datatype Outcome = Answered(request: nat, response: Response) | Failed(error: ClientError) | Refused(error: ClientError)

  /** The client, the request frames written, the number of server replies, the bytes sent by the
      server and not yet read, and every outcome so far. */
  datatype World = World(client: Client, sent: seq<seq<Byte>>, replied: nat, inbound: seq<Byte>, log: seq<Outcome>)

  datatype Event =
    | Call(payload: seq<Byte>)
    | WriteDone(ok: bool)
    | ReadFailed
    | ReadDone(count: nat)
    | Cancel
    | ServerSends(bytes: seq<Byte>)

  function Connected(): World {
    World(Client(Idle, false, false, [], [], false, false), [], 0, [], [])
  }

  // ---------------------------------------------------------------- Steps between awaits

  function Answer(w: World, response: Response): World
    requires w.sent != []
  {
    w.(client := w.client.(at := Idle, active := false), log := w.log + [Answered(|w.sent| - 1, response)])
  }

  function Fail(w: World, error: ClientError): World {
    w.(client := w.client.(at := Idle, active := false, failed := true), log := w.log + [Failed(error)])
  }

  function Refuse(w: World, error: ClientError): World {
    w.(log := w.log + [Refused(error)])
  }

  function StartWrite(w: World, frame: seq<Byte>): World {
    w.(client := w.client.(at := AwaitWrite, write := true), sent := w.sent + [frame])
  }

  /** `exchange` up to its first await. */
  function Begin(w: World, payload: seq<Byte>): World {
    var c := w.client;
    if c.active then Refuse(w.(client := c.(failed := true)), InterruptedExchange)
    else if c.failed then Refuse(w, ConnectionUnusable)
    else match EncodeRequest(payload)
         case Err(e) => Refuse(w, Protocol(e))
         case Ok(frame) =>
           var w' := w.(client := c.(active := true));
           if c.write then w'.(client := w'.client.(at := AwaitOldWrite(frame))) else StartWrite(w', frame)
  }

  /** The head of the `next_response` loop. */
  function Next(w: World): World
    requires w.sent != []
  {
    var c := w.client;
    if c.pending != [] then Answer(w.(client := c.(pending := c.pending[1..])), c.pending[0])
    else w.(client := c.(at := AwaitRead, read := true))
  }

  function Receive(parse: Parser<Response>, w: World, bytes: seq<Byte>): World
    requires w.sent != []
  {
    var d := Push(parse, w.client.buffer, bytes);
    var w' := w.(client := w.client.(buffer := d.buffer));
    match d.messages
    case Err(e) => Fail(w', Protocol(e))
    case Ok(decoded) =>
      if |w.client.pending| + |decoded| > MAX_PENDING_RESPONSES then Fail(w', PendingResponsesFull)
      else Next(w'.(client := w'.client.(pending := w.client.pending + decoded)))
  }

  function Step(parse: Parser<Response>, w: World, e: Event): Option<World> {
    var c := w.client;
    match e
    case Call(payload) => if c.at.Idle? then Some(Begin(w, payload)) else None
    case WriteDone(ok) =>
      var w' := w.(client := c.(write := false));
      if c.at.AwaitWrite? && w.sent != [] then Some(if ok then Next(w') else Fail(w', Io))
      else if c.at.AwaitOldWrite? then Some(if ok then StartWrite(w', c.at.frame) else Fail(w', Io))
      else None
    case ReadFailed => if c.at.AwaitRead? then Some(Fail(w.(client := c.(read := false)), Io)) else None
    case ReadDone(n) =>
      if !c.at.AwaitRead? || n > |w.inbound| || n > READ_CHUNK_SIZE || w.sent == [] then None else
        var w' := w.(client := c.(read := false), inbound := w.inbound[n..]);
        Some(if n == 0 then Fail(w', UnexpectedEof) else Receive(parse, w', w.inbound[..n]))
    case Cancel => if c.at.Idle? then None else Some(w.(client := c.(at := Idle)))
    case ServerSends(bytes) => Some(w.(inbound := w.inbound + bytes, replied := w.replied + 1))
  }

  /** The world after a run, if every event was possible when it happened. */
  function Run(parse: Parser<Response>, w: World, events: seq<Event>): Option<World>
    decreases |events|
  {
    if events == [] then Some(w) else
      match Step(parse, w, events[0])
      case None => None
      case Some(w') => Run(parse, w', events[1..])
  }

  // ---------------------------------------------------------------- A broken client stays broken

  /** No future is polled and either an exchange was dropped midway or one has failed. */
  predicate Broken(c: Client) {
    c.at.Idle? && (c.active || c.failed)
  }

  /** Dropping an exchange at any await, or any failure after encoding, breaks the client. */
  lemma {:induction false} InterruptionBreaks(parse: Parser<Response>, w: World, e: Event)
    requires Step(parse, w, e).Some?
    requires w.client.at != Idle ==> w.client.active
    ensures
      var w' := Step(parse, w, e).value;
      && (e.Cancel? ==> Broken(w'.client))
      && (|w'.log| > |w.log| && w'.log[|w.log|].Failed? ==> Broken(w'.client))
      && (w'.client.at != Idle ==> w'.client.active)
  {
  }

  /** Against any server: from a broken state nothing is ever answered, written or even suspended again. */
  lemma {:induction false} BrokenForever(parse: Parser<Response>, w: World, events: seq<Event>)
    requires Broken(w.client) && Run(parse, w, events).Some?
    ensures
      var w' := Run(parse, w, events).value;
      && Broken(w'.client) && w'.sent == w.sent && w.log <= w'.log
      && (forall i :: |w.log| <= i < |w'.log| ==> w'.log[i].Refused?)
    decreases |events|
  {
    if events != [] {
      var w1 := Step(parse, w, events[0]).value;
      assert Broken(w1.client) && w1.sent == w.sent && w.log <= w1.log;
      BrokenForever(parse, w1, events[1..]);
    }
  }

  lemma {:induction false} SuspendedMeansActive(parse: Parser<Response>, w: World, events: seq<Event>)
    requires (w.client.at != Idle ==> w.client.active) && Run(parse, w, events).Some?
    ensures Run(parse, w, events).value.client.at != Idle ==> Run(parse, w, events).value.client.active
    decreases |events|
  {
    if events != [] {
      InterruptionBreaks(parse, w, events[0]);
      SuspendedMeansActive(parse, Step(parse, w, events[0]).value, events[1..]);
    }
  }

  /** In every run against any server, once an exchange has been dropped at an await or has failed
      after encoding, every later call is refused and no further request frame is written. */
  lemma {:induction false} NothingSucceedsAfterInterruption(parse: Parser<Response>, front: seq<Event>, e: Event, back: seq<Event>)
    requires Run(parse, Connected(), front).Some? && Step(parse, Run(parse, Connected(), front).value, e).Some?
    requires
      var w, w' := Run(parse, Connected(), front).value, Step(parse, Run(parse, Connected(), front).value, e).value;
      && (e.Cancel? || (|w'.log| > |w.log| && w'.log[|w.log|].Failed?))
      && Run(parse, w', back).Some?
    ensures
      var w' := Step(parse, Run(parse, Connected(), front).value, e).value;
      var last := Run(parse, w', back).value;
      && last.sent == w'.sent && w'.log <= last.log
      && (forall i :: |w'.log| <= i < |last.log| ==> last.log[i].Refused?)
  {
    SuspendedMeansActive(parse, Connected(), front);
    var w := Run(parse, Connected(), front).value;
    InterruptionBreaks(parse, w, e);
    BrokenForever(parse, Step(parse, w, e).value, back);
  }

  // ---------------------------------------------------------------- Answers match requests

  /** The payload the server sends once it has received these request payloads, the last of them being
      the request it answers. */
  type Replies = seq<seq<Byte>> -> Payload

  /** The reply to the `k`-th request frame: the server decodes the bytes written so far. */
  function ReplyTo(reply: Replies, sent: seq<seq<Byte>>, k: nat): Payload
    requires k < |sent|
  {
    reply(Heard(sent[..k + 1]))
  }

  /** The server sends one well-formed frame per request frame, and only after that request. */
  predicate Behaved(reply: Replies, w: World, e: Event) {
    e.ServerSends? ==> w.replied < |w.sent| && e.bytes == Frame(ReplyTo(reply, w.sent, w.replied))
  }

  ghost predicate BehavedRun(parse: Parser<Response>, reply: Replies, w: World, events: seq<Event>)
    decreases |events|
  {
    events == [] || (Behaved(reply, w, events[0]) && (Step(parse, w, events[0]).Some? ==>
      BehavedRun(parse, reply, Step(parse, w, events[0]).value, events[1..])))
  }

  /** The bytes of the outstanding reply that have been sent but not decoded. */
  function Outstanding(reply: Replies, w: World): seq<Byte>
    requires w.sent != []
  {
    if w.replied == |w.sent| then Frame(ReplyTo(reply, w.sent, |w.sent| - 1)) else []
  }

  ghost predicate InStep(reply: Replies, w: World) {
    var c := w.client;
    match c.at
    case Idle => !c.active && !c.failed ==>
      c.buffer == [] && c.pending == [] && w.inbound == [] && !c.write && !c.read && w.replied == |w.sent|
    case AwaitOldWrite(_) => false
    case AwaitWrite =>
      && c.active && !c.failed && c.buffer == [] && c.pending == [] && c.write && !c.read
      && 0 < |w.sent| <= w.replied + 1 && w.replied <= |w.sent| && w.inbound == Outstanding(reply, w)
    case AwaitRead =>
      && c.active && !c.failed && c.pending == [] && !c.write && c.read
      && 0 < |w.sent| <= w.replied + 1 && w.replied <= |w.sent| && c.buffer + w.inbound == Outstanding(reply, w)
      && |c.buffer| < |Frame(ReplyTo(reply, w.sent, |w.sent| - 1))|
  }

  ghost predicate HonestOutcome(parse: Parser<Response>, reply: Replies, sent: seq<seq<Byte>>, o: Outcome, before: nat)
    requires before <= |sent|
  {
    match o
    case Answered(k, response) => k < before && parse(ReplyTo(reply, sent, k)) == Some(response)
    case Failed(error) => error == Io || error == UnexpectedEof
    case Refused(_) => true
  }

  ghost predicate InOrder(log: seq<Outcome>) {
    forall i, j :: 0 <= i < j < |log| && log[i].Answered? && log[j].Answered? ==> log[i].request < log[j].request
  }

  /** Every answer is the parse of the reply to its own request, requests are answered in order and
      at most once, and no limit was ever hit. */
  ghost predicate HonestLog(parse: Parser<Response>, reply: Replies, sent: seq<seq<Byte>>, log: seq<Outcome>, before: nat)
    requires before <= |sent|
  {
    InOrder(log) && forall i :: 0 <= i < |log| ==> HonestOutcome(parse, reply, sent, log[i], before)
  }

  /** While an exchange is under way its own request is still unanswered. */
  ghost predicate Honest(parse: Parser<Response>, reply: Replies, w: World) {
    HonestLog(parse, reply, w.sent, w.log, if w.client.at.Idle? || w.sent == [] then |w.sent| else |w.sent| - 1)
  }

  lemma {:induction false} HonestLogGrows(parse: Parser<Response>, reply: Replies, sent: seq<seq<Byte>>, log: seq<Outcome>, before: nat, o: Outcome)
    requires before <= |sent| && HonestLog(parse, reply, sent, log, before)
    requires if o.Answered? then o.request == before < |sent| && HonestOutcome(parse, reply, sent, o, before + 1) else HonestOutcome(parse, reply, sent, o, before)
    ensures before < |sent| ==> HonestLog(parse, reply, sent, log + [o], before + 1)
    ensures !o.Answered? ==> HonestLog(parse, reply, sent, log + [o], before)
  {
    forall i | 0 <= i < |log|
      ensures before < |sent| ==> HonestOutcome(parse, reply, sent, log[i], before + 1)
      ensures log[i].Answered? ==> log[i].request < before
    {
      assert HonestOutcome(parse, reply, sent, log[i], before);
    }
  }

  /** Later frames do not change what was replied to earlier ones. */
  lemma {:induction false} HonestLogStays(parse: Parser<Response>, reply: Replies, sent: seq<seq<Byte>>, log: seq<Outcome>, frame: seq<Byte>)
    requires HonestLog(parse, reply, sent, log, |sent|)
    ensures HonestLog(parse, reply, sent + [frame], log, |sent|)
  {
    forall i | 0 <= i < |log|
      ensures HonestOutcome(parse, reply, sent + [frame], log[i], |sent|)
    {
      assert HonestOutcome(parse, reply, sent, log[i], |sent|);
      if log[i].Answered? {
        assert (sent + [frame])[..log[i].request + 1] == sent[..log[i].request + 1];
      }
    }
  }

  ghost predicate AllParse(parse: Parser<Response>, reply: Replies) {
    forall heard :: parse(reply(heard)).Some?
  }

  lemma {:induction false} ReceiveDecodes(parse: Parser<Response>, reply: Replies, w: World, n: nat)
    requires AllParse(parse, reply) && InStep(reply, w) && w.client.at.AwaitRead? && 0 < n <= |w.inbound|
    ensures
      var payload := ReplyTo(reply, w.sent, |w.sent| - 1);
      var buffer := w.client.buffer + w.inbound[..n];
      Push(parse, w.client.buffer, w.inbound[..n]) ==
        if |buffer| < |Frame(payload)| then Decoded(buffer, Ok([]))
        else Decoded([], Ok([parse(payload).value]))
    ensures |w.client.buffer + w.inbound[..n]| == |Frame(ReplyTo(reply, w.sent, |w.sent| - 1))| ==> w.inbound[n..] == []
  {
    var payload := ReplyTo(reply, w.sent, |w.sent| - 1);
    var buffer := w.client.buffer + w.inbound[..n];
    assert w.client.buffer + w.inbound == Frame(payload);
    assert buffer == Frame(payload)[..|buffer|];
    if |buffer| < |Frame(payload)| {
      ProperPrefixIncomplete(payload, buffer);
      assert Frames([]) + buffer == buffer;
      DrainFrames(parse, [], buffer);
    } else {
      assert buffer == Frame(payload);
      assert Frames([payload]) + [] == Frame(payload);
      DrainFrames(parse, [payload], []);
      assert Messages(parse, [payload]) == [parse(payload).value];
    }
  }

  lemma {:induction false} PartialReadKeepsHonest(parse: Parser<Response>, reply: Replies, w: World, n: nat)
    requires AllParse(parse, reply) && InStep(reply, w) && Honest(parse, reply, w)
    requires n > 0 && Step(parse, w, ReadDone(n)).Some? && |w.client.buffer| + n < |Frame(ReplyTo(reply, w.sent, |w.sent| - 1))|
    ensures
      var w' := Step(parse, w, ReadDone(n)).value;
      InStep(reply, w') && Honest(parse, reply, w')
  {
    ReceiveDecodes(parse, reply, w, n);
    var w' := Step(parse, w, ReadDone(n)).value;
    assert w.client.pending + [] == [];
    assert w'.client.pending == [] && w'.client.buffer + w'.inbound == w.client.buffer + w.inbound;
  }

  lemma {:induction false} FullReadKeepsHonest(parse: Parser<Response>, reply: Replies, w: World, n: nat)
    requires AllParse(parse, reply) && InStep(reply, w) && Honest(parse, reply, w)
    requires n > 0 && Step(parse, w, ReadDone(n)).Some? && |w.client.buffer| + n >= |Frame(ReplyTo(reply, w.sent, |w.sent| - 1))|
    ensures
      var w' := Step(parse, w, ReadDone(n)).value;
      InStep(reply, w') && Honest(parse, reply, w')
  {
    ReceiveDecodes(parse, reply, w, n);
    var response := parse(ReplyTo(reply, w.sent, |w.sent| - 1)).value;
    assert w.client.pending + [response] == [response];
    HonestLogGrows(parse, reply, w.sent, w.log, |w.sent| - 1, Answered(|w.sent| - 1, response));
  }

  lemma {:induction false} ReadKeepsHonest(parse: Parser<Response>, reply: Replies, w: World, n: nat)
    requires AllParse(parse, reply) && InStep(reply, w) && Honest(parse, reply, w)
    requires n > 0 && Step(parse, w, ReadDone(n)).Some?
    ensures
      var w' := Step(parse, w, ReadDone(n)).value;
      InStep(reply, w') && Honest(parse, reply, w')
  {
    if |w.client.buffer| + n < |Frame(ReplyTo(reply, w.sent, |w.sent| - 1))| {
      PartialReadKeepsHonest(parse, reply, w, n);
    } else {
      FullReadKeepsHonest(parse, reply, w, n);
    }
  }

  lemma {:induction false} CallKeepsHonest(parse: Parser<Response>, reply: Replies, w: World, payload: seq<Byte>)
    requires InStep(reply, w) && Honest(parse, reply, w) && w.client.at.Idle?
    ensures InStep(reply, Begin(w, payload)) && Honest(parse, reply, Begin(w, payload))
  {
    var w' := Begin(w, payload);
    if w'.sent != w.sent {
      HonestLogStays(parse, reply, w.sent, w.log, w'.sent[|w.sent|]);
    } else {
      HonestLogGrows(parse, reply, w.sent, w.log, |w.sent|, w'.log[|w.log|]);
    }
  }

  lemma {:induction false} WriteKeepsHonest(parse: Parser<Response>, reply: Replies, w: World, ok: bool)
    requires InStep(reply, w) && Honest(parse, reply, w) && Step(parse, w, WriteDone(ok)).Some?
    ensures var w' := Step(parse, w, WriteDone(ok)).value; InStep(reply, w') && Honest(parse, reply, w')
  {
    HonestLogGrows(parse, reply, w.sent, w.log, |w.sent| - 1, Failed(Io));
  }

  lemma {:induction false} FailedReadKeepsHonest(parse: Parser<Response>, reply: Replies, w: World, e: Event)
    requires InStep(reply, w) && Honest(parse, reply, w) && (e == ReadFailed || e == ReadDone(0)) && Step(parse, w, e).Some?
    ensures var w' := Step(parse, w, e).value; InStep(reply, w') && Honest(parse, reply, w')
  {
    HonestLogGrows(parse, reply, w.sent, w.log, |w.sent| - 1, Failed(Io));
    HonestLogGrows(parse, reply, w.sent, w.log, |w.sent| - 1, Failed(UnexpectedEof));
  }

  lemma {:induction false} CancelKeepsHonest(parse: Parser<Response>, reply: Replies, w: World)
    requires InStep(reply, w) && Honest(parse, reply, w) && Step(parse, w, Cancel).Some?
    ensures var w' := Step(parse, w, Cancel).value; InStep(reply, w') && Honest(parse, reply, w')
  {
    HonestLogGrows(parse, reply, w.sent, w.log, |w.sent| - 1, Failed(Io));
  }

  lemma {:induction false} StepKeepsHonest(parse: Parser<Response>, reply: Replies, w: World, e: Event)
    requires AllParse(parse, reply) && InStep(reply, w) && Honest(parse, reply, w)
    requires Behaved(reply, w, e) && Step(parse, w, e).Some?
    ensures
      var w' := Step(parse, w, e).value;
      InStep(reply, w') && Honest(parse, reply, w')
  {
    match e
    case Call(payload) => CallKeepsHonest(parse, reply, w, payload);
    case WriteDone(ok) => WriteKeepsHonest(parse, reply, w, ok);
    case ReadFailed => FailedReadKeepsHonest(parse, reply, w, e);
    case ReadDone(n) => if n > 0 { ReadKeepsHonest(parse, reply, w, n); } else { FailedReadKeepsHonest(parse, reply, w, e); }
    case Cancel => CancelKeepsHonest(parse, reply, w);
    case ServerSends(bytes) =>
  }

  /** Over every run against a server that answers each request frame with one well-formed frame of
      at most 64 KiB, under every split into reads and every pattern of cancellations and I/O
      errors: an exchange that succeeds returns the answer to its own request, and neither the
      buffer limit nor the pending limit is ever hit. */
  lemma {:induction false} ExchangesReturnTheirOwnAnswers(parse: Parser<Response>, reply: Replies, w: World, events: seq<Event>)
    requires AllParse(parse, reply) && InStep(reply, w) && Honest(parse, reply, w)
    requires BehavedRun(parse, reply, w, events) && Run(parse, w, events).Some?
    ensures InStep(reply, Run(parse, w, events).value) && Honest(parse, reply, Run(parse, w, events).value)
    decreases |events|
  {
    if events != [] {
      StepKeepsHonest(parse, reply, w, events[0]);
      ExchangesReturnTheirOwnAnswers(parse, reply, Step(parse, w, events[0]).value, events[1..]);
    }
  }

  lemma {:induction false} ConnectedIsHonest(parse: Parser<Response>, reply: Replies)
    ensures InStep(reply, Connected()) && Honest(parse, reply, Connected())
  {
  }

  // ---------------------------------------------------------------- The retained object

  /** The client's fields, changed in place by the code between two awaits. `sent` and `log` record
      what was written and returned; the bytes in flight belong to the connection's other end. */
  class Connection {
    var at: Await
    var write: bool
    var read: bool
    const decoder: FrameDecoder<Response>
    var pending: seq<Response>
    var exchangeActive: bool
    var failed: bool
    ghost var sent: seq<seq<Byte>>
    ghost var log: seq<Outcome>

    ghost function View(inbound: seq<Byte>, replied: nat): World
      reads this, decoder
    {
      World(Client(at, write, read, decoder.buffer, pending, exchangeActive, failed), sent, replied, inbound, log)
    }

    constructor ()
      ensures View([], 0) == Connected() && fresh(decoder)
    {
      at, write, read, pending, exchangeActive, failed, sent, log := Idle, false, false, [], false, false, [], [];
      decoder := new FrameDecoder();
    }

    method EnsureUsable() returns (error: Option<ClientError>)
      modifies this`failed
      ensures error == if exchangeActive then Some(InterruptedExchange) else if old(failed) then Some(ConnectionUnusable) else None
      ensures failed == (old(failed) || exchangeActive)
    {
      if exchangeActive {
        failed := true;
        return Some(InterruptedExchange);
      }
      return if failed then Some(ConnectionUnusable) else None;
    }

    method Exchange(payload: seq<Byte>, ghost inbound: seq<Byte>, ghost replied: nat)
      requires at.Idle?
      modifies this
      ensures View(inbound, replied) == Begin(old(View(inbound, replied)), payload)
    {
      var error := EnsureUsable();
      if error.Some? {
        log := log + [Refused(error.value)];
        return;
      }
      match EncodeRequest(payload)
      case Err(e) => log := log + [Refused(Protocol(e))];
      case Ok(frame) =>
        exchangeActive := true;
        if write {
          at := AwaitOldWrite(frame);
        } else {
          at, write, sent := AwaitWrite, true, sent + [frame];
        }
    }

    method Finish(outcome: Outcome)
      modifies this`at, this`exchangeActive, this`failed, this`log
      ensures at == Idle && !exchangeActive && failed == (old(failed) || outcome.Failed?) && log == old(log) + [outcome]
    {
      at, exchangeActive, log := Idle, false, log + [outcome];
      if outcome.Failed? {
        failed := true;
      }
    }

    method NextResponse(ghost inbound: seq<Byte>, ghost replied: nat)
      requires sent != []
      modifies this
      ensures View(inbound, replied) == Next(old(View(inbound, replied)))
    {
      if pending != [] {
        var response := pending[0];
        pending := pending[1..];
        at, exchangeActive, log := Idle, false, log + [Answered(|sent| - 1, response)];
      } else {
        at, read := AwaitRead, true;
      }
    }

    method WriteFinished(parse: Parser<Response>, ok: bool, ghost inbound: seq<Byte>, ghost replied: nat)
      requires (at.AwaitWrite? && sent != []) || at.AwaitOldWrite?
      modifies this
      ensures Some(View(inbound, replied)) == Step(parse, old(View(inbound, replied)), WriteDone(ok))
    {
      write := false;
      if !ok {
        Finish(Failed(Io));
      } else if at.AwaitOldWrite? {
        at, write, sent := AwaitWrite, true, sent + [at.frame];
      } else {
        NextResponse(inbound, replied);
      }
    }

    method ReadBroke(parse: Parser<Response>, ghost inbound: seq<Byte>, ghost replied: nat)
      requires at.AwaitRead?
      modifies this
      ensures Some(View(inbound, replied)) == Step(parse, old(View(inbound, replied)), ReadFailed)
    {
      read := false;
      Finish(Failed(Io));
    }

    method ReadFinished(parse: Parser<Response>, bytes: seq<Byte>, ghost inbound: seq<Byte>, ghost replied: nat)
      requires at.AwaitRead? && sent != [] && |bytes| <= READ_CHUNK_SIZE && bytes <= inbound
      modifies this, decoder
      ensures Some(View(inbound[|bytes|..], replied)) == Step(parse, old(View(inbound, replied)), ReadDone(|bytes|))
    {
      read := false;
      if bytes == [] {
        Finish(Failed(UnexpectedEof));
        return;
      }
      assert inbound[..|bytes|] == bytes;
      ghost var buffer := decoder.buffer;
      var decoded := decoder.PushBytes(parse, bytes);
      assert Decoded(decoder.buffer, decoded) == Push(parse, buffer, bytes);
      match decoded
      case Err(e) => Finish(Failed(Protocol(e)));
      case Ok(messages) =>
        if |pending| + |messages| > MAX_PENDING_RESPONSES {
          Finish(Failed(PendingResponsesFull));
        } else {
          pending := pending + messages;
          NextResponse(inbound[|bytes|..], replied);
        }
    }

    /** Dropping the future keeps every field: only the flag set before the first await remembers it. */
    method Dropped(parse: Parser<Response>, ghost inbound: seq<Byte>, ghost replied: nat)
      requires !at.Idle?
      modifies this`at
      ensures Some(View(inbound, replied)) == Step(parse, old(View(inbound, replied)), Cancel)
    {
      at := Idle;
    }
  }
}
