/** The transaction layer over the greetd client, over the bytes of a connection: which answer of the
    server authorizes a session. */
module GreeterStack {
  import opened Basics
  import opened GreeterModel
  import F = GreetdFrames
  import C = GreetdClient
  import T = GreeterTransaction
  import P = GreetdProgress

  type Parser = F.Parser<C.Response>

  datatype Request =
    | CreateSession(username: string)
    | PostAuthMessageResponse(response: Option<string>)
    | StartSession(command: seq<string>, environment: seq<string>)
    | CancelSession

  /** The serializer of requests; JSON itself is not part of this model. */
  type Encoder = Request -> seq<Byte>

  datatype Operation = Begin | Respond(attempt: Attempt, response: Option<string>) | Start(attempt: Attempt) | Cancel

  /** A selection; an operation with what happens at the client's awaits until its future ends or is
      dropped; or bytes from the server in between. */
  datatype Action =
    | Choose(step: T.Step)
    | Operate(op: Operation, events: seq<C.Event>)
    | Receive(bytes: seq<Byte>)

  datatype Joint = Joint(state: T.State, world: C.World)

  function StepOf(op: Operation, exchange: T.Exchange): T.Step {
    match op
    case Begin => T.Begin(exchange)
    case Respond(attempt, response) => T.Respond(attempt, response.Some?, exchange)
    case Start(attempt) => T.Start(attempt, exchange)
    case Cancel => T.Cancel(exchange)
  }

  /** The model lets the operation reach the client. */
  predicate Reaches(g: Greeter, op: Operation)
    requires Valid(g)
  {
    match op
    case Begin => BeginAuthentication(g).1.Ok?
    case Respond(attempt, response) => ResponseSent(g, attempt, response.Some?).1.Ok?
    case Start(attempt) => GreeterModel.StartSession(g, attempt).Ok?
    case Cancel => true
  }

  /** What the operation asks the server. */
  function Asking(g: Greeter, op: Operation): Request
    requires Valid(g) && Reaches(g, op)
  {
    match op
    case Begin => CreateSession(BeginAuthentication(g).1.value.1)
    case Respond(_, response) => PostAuthMessageResponse(response)
    case Start(attempt) =>
      var session := GreeterModel.StartSession(g, attempt).value;
      StartSession(session.command, session.environment)
    case Cancel => CancelSession
  }

  /** How the exchange ended, read off what the client returned. */
  function ExchangeOf(w: C.World, w': C.World): T.Exchange {
    if |w'.log| <= |w.log| then T.Lost
    else match w'.log[|w.log|]
      case Answered(_, response) => T.Replied(response)
      case Failed(_) => T.Lost
      case Refused(_) => T.Unencodable
  }

  predicate NoCall(events: seq<C.Event>) {
    forall i :: 0 <= i < |events| ==> !events[i].Call?
  }

  function Perform(parse: Parser, encode: Encoder, j: Joint, a: Action): Option<Joint>
    requires Valid(j.state.model)
  {
    match a
    case Choose(step) =>
      if step.ChooseUser? || step.ChooseSession? then Some(j.(state := T.Take(j.state, step))) else None
    case Receive(bytes) => Some(j.(world := C.Step(parse, j.world, C.ServerSends(bytes)).value))
    case Operate(op, events) =>
      if !Reaches(j.state.model, op) then Some(j.(state := T.Take(j.state, StepOf(op, T.Unencodable))))
      else if !NoCall(events) then None
      else match C.Run(parse, j.world, [C.Call(encode(Asking(j.state.model, op)))] + events)
        case None => None
        case Some(w) =>
          if !w.client.at.Idle? then None
          else Some(Joint(T.Take(j.state, StepOf(op, ExchangeOf(j.world, w))), w))
  }

  /** The server answers each request frame with one well-formed frame. */
  ghost predicate Behaved(parse: Parser, encode: Encoder, reply: C.Replies, j: Joint, a: Action)
    requires Valid(j.state.model)
  {
    match a
    case Choose(_) => true
    case Receive(bytes) => C.Behaved(reply, j.world, C.ServerSends(bytes))
    case Operate(op, events) =>
      Reaches(j.state.model, op) ==> C.BehavedRun(parse, reply, j.world, [C.Call(encode(Asking(j.state.model, op)))] + events)
  }

  // ---------------------------------------------------------------- One exchange of the client

  /** The exchange that started in `w0` is under way. */
  ghost predicate Running(w0: C.World, w: C.World, frame: seq<Byte>) {
    && !w.client.at.Idle? && w.client.active && !w.client.failed
    && w.log == w0.log && w.sent == w0.sent + [frame]
  }

  /** It has ended: dropped, failed, or answered with the number of the request it wrote. */
  ghost predicate Ended(w0: C.World, w: C.World, frame: seq<Byte>) {
    && w.client.at.Idle? && w.sent == w0.sent + [frame]
    && (|| (w.log == w0.log && w.client.active)
        || (|w.log| == |w0.log| + 1 && w.log[..|w0.log|] == w0.log && w.log[|w0.log|].Failed? && w.client.failed)
        || (|w.log| == |w0.log| + 1 && w.log[..|w0.log|] == w0.log && w.log[|w0.log|].Answered?
            && w.log[|w0.log|].request == |w0.sent| && !w.client.active && !w.client.failed))
  }

  lemma {:induction false} StepOfExchange(parse: Parser, reply: C.Replies, w0: C.World, w: C.World, frame: seq<Byte>, e: C.Event)
    requires C.InStep(reply, w) && !e.Call? && C.Step(parse, w, e).Some?
    requires Running(w0, w, frame) || Ended(w0, w, frame)
    ensures Running(w0, C.Step(parse, w, e).value, frame) || Ended(w0, C.Step(parse, w, e).value, frame)
  {
  }

  lemma {:induction false} ExchangeRuns(parse: Parser, reply: C.Replies, w0: C.World, w: C.World, frame: seq<Byte>, events: seq<C.Event>)
    requires C.AllParse(parse, reply) && C.InStep(reply, w) && C.Honest(parse, reply, w)
    requires C.BehavedRun(parse, reply, w, events) && C.Run(parse, w, events).Some? && NoCall(events)
    requires Running(w0, w, frame) || Ended(w0, w, frame)
    ensures var w' := C.Run(parse, w, events).value; Running(w0, w', frame) || Ended(w0, w', frame)
    decreases |events|
  {
    if events != [] {
      var w1 := C.Step(parse, w, events[0]).value;
      C.StepKeepsHonest(parse, reply, w, events[0]);
      StepOfExchange(parse, reply, w0, w, frame, events[0]);
      ExchangeRuns(parse, reply, w0, w1, frame, events[1..]);
    }
  }

  /** A refused call leaves the client as it was, whatever the server sends meanwhile. */
  lemma {:induction false} RefusedRuns(parse: Parser, w: C.World, events: seq<C.Event>)
    requires w.client.at.Idle? && C.Run(parse, w, events).Some? && NoCall(events)
    ensures var w' := C.Run(parse, w, events).value;
      w'.client == w.client && w'.log == w.log && w'.sent == w.sent
    decreases |events|
  {
    if events != [] {
      RefusedRuns(parse, C.Step(parse, w, events[0]).value, events[1..]);
    }
  }

  /** What one call leads to, for a client that waits for nothing. */
  lemma {:induction false} CallRuns(parse: Parser, reply: C.Replies, w: C.World, payload: seq<Byte>, events: seq<C.Event>)
    requires C.AllParse(parse, reply) && C.InStep(reply, w) && C.Honest(parse, reply, w) && w.client.at.Idle?
    requires NoCall(events) && C.BehavedRun(parse, reply, w, [C.Call(payload)] + events)
    requires C.Run(parse, w, [C.Call(payload)] + events).Some?
    requires C.Run(parse, w, [C.Call(payload)] + events).value.client.at.Idle?
    ensures
      var w' := C.Run(parse, w, [C.Call(payload)] + events).value;
      && C.InStep(reply, w') && C.Honest(parse, reply, w')
      && (if C.Broken(w.client) || F.EncodeRequest(payload).Err?
          then C.Broken(w'.client) == C.Broken(w.client) && w'.sent == w.sent && ExchangeOf(w, w') == T.Unencodable
          else Ended(w, w', F.EncodeRequest(payload).value))
  {
    var all := [C.Call(payload)] + events;
    assert all[0] == C.Call(payload) && all[1..] == events;
    var w1 := C.Step(parse, w, all[0]).value;
    C.ExchangesReturnTheirOwnAnswers(parse, reply, w, all);
    C.StepKeepsHonest(parse, reply, w, all[0]);
    if C.Broken(w.client) || F.EncodeRequest(payload).Err? {
      RefusedRuns(parse, w1, events);
    } else {
      var frame := F.EncodeRequest(payload).value;
      assert Running(w, w1, frame);
      ExchangeRuns(parse, reply, w, w1, frame, events);
    }
  }

  // ---------------------------------------------------------------- Requests and answers, numbered

  function Requests(log: seq<T.Entry>): nat {
    if log == [] then 0 else Requests(log[..|log| - 1]) + if T.IsRequest(log[|log| - 1]) then 1 else 0
  }

  /** As many requests as frames were written, each carried by its frame, and every logged answer is what
      the server replied to the request right before it. */
  ghost predicate Matched(parse: Parser, encode: Encoder, reply: C.Replies, log: seq<T.Entry>, sent: seq<seq<Byte>>) {
    && Requests(log) == |sent|
    && (forall k :: 0 <= k < |log| && T.IsAnswer(log[k]) ==> MatchedAt(parse, reply, log, sent, k))
    && (forall m :: 0 <= m < |log| && T.IsRequest(log[m]) ==> CarriedAt(encode, log, sent, m))
  }

  ghost predicate MatchedAt(parse: Parser, reply: C.Replies, log: seq<T.Entry>, sent: seq<seq<Byte>>, k: nat)
    requires k < |log| && T.IsAnswer(log[k])
  {
    && k > 0 && Requests(log[..k - 1]) < |sent|
    && parse(C.ReplyTo(reply, sent, Requests(log[..k - 1]))) == Some(log[k].response)
  }

  ghost predicate CarriedAt(encode: Encoder, log: seq<T.Entry>, sent: seq<seq<Byte>>, m: nat)
    requires m < |log| && T.IsRequest(log[m])
  {
    Requests(log[..m]) < |sent| && Carries(encode, log[..m], log[m], sent[Requests(log[..m])])
  }

  /** The frame asks for what the log says: the session of a start with its command and environment, a
      cancel, the user of an attempt that has just begun, and otherwise some response of the user. */
  ghost predicate Carries(encode: Encoder, before: seq<T.Entry>, request: T.Entry, frame: seq<Byte>)
    requires T.IsRequest(request)
  {
    match request
    case StartSent(_, _, session) => F.EncodeRequest(encode(StartSession(session.command, session.environment))) == F.Ok(frame)
    case CancelSent => F.EncodeRequest(encode(CancelSession)) == F.Ok(frame)
    case AuthSent(a) =>
      if before != [] && before[|before| - 1].Began?
      then before[|before| - 1].attempt == a && F.EncodeRequest(encode(CreateSession(before[|before| - 1].user))) == F.Ok(frame)
      else exists response :: F.EncodeRequest(encode(PostAuthMessageResponse(response))) == F.Ok(frame)
  }

  /** An answer, or a begun attempt, is logged without a further frame. */
  lemma {:induction false} MatchedSnoc(parse: Parser, encode: Encoder, reply: C.Replies, log: seq<T.Entry>, sent: seq<seq<Byte>>, e: T.Entry)
    requires Matched(parse, encode, reply, log, sent) && !T.IsRequest(e)
    requires T.IsAnswer(e) ==>
      && log != [] && Requests(log[..|log| - 1]) < |sent|
      && parse(C.ReplyTo(reply, sent, Requests(log[..|log| - 1]))) == Some(e.response)
    ensures Matched(parse, encode, reply, log + [e], sent)
  {
    var more := log + [e];
    assert more[..|log|] == log;
    forall k | 0 <= k < |more| && T.IsAnswer(more[k]) ensures MatchedAt(parse, reply, more, sent, k) {
      if k < |log| {
        assert more[k] == log[k] && MatchedAt(parse, reply, log, sent, k) && more[..k - 1] == log[..k - 1];
      } else {
        assert more[..k - 1] == log[..|log| - 1];
      }
    }
    forall m | 0 <= m < |more| && T.IsRequest(more[m]) ensures CarriedAt(encode, more, sent, m) {
      assert more[m] == log[m] && CarriedAt(encode, log, sent, m) && more[..m] == log[..m];
    }
  }

  /** A request is logged together with its frame. */
  lemma {:induction false} MatchedRequest(parse: Parser, encode: Encoder, reply: C.Replies, log: seq<T.Entry>, sent: seq<seq<Byte>>, e: T.Entry, frame: seq<Byte>)
    requires Matched(parse, encode, reply, log, sent) && T.IsRequest(e) && Carries(encode, log, e, frame)
    ensures Matched(parse, encode, reply, log + [e], sent + [frame])
  {
    var more, frames := log + [e], sent + [frame];
    assert more[..|log|] == log;
    forall k | 0 <= k < |more| && T.IsAnswer(more[k]) ensures MatchedAt(parse, reply, more, frames, k) {
      assert more[k] == log[k] && MatchedAt(parse, reply, log, sent, k) && more[..k - 1] == log[..k - 1];
      var n := Requests(log[..k - 1]);
      assert frames[..n + 1] == sent[..n + 1];
    }
    forall m | 0 <= m < |more| && T.IsRequest(more[m]) ensures CarriedAt(encode, more, frames, m) {
      if m < |log| {
        assert more[m] == log[m] && CarriedAt(encode, log, sent, m) && more[..m] == log[..m];
      }
    }
  }

  /** What the operation logs before its request, and the request. */
  function LoggedBefore(s: T.State, op: Operation): seq<T.Entry>
    requires Valid(s.model)
  {
    if !op.Begin? || BeginAuthentication(s.model).1.Err? then [] else
      var (g, r) := BeginAuthentication(s.model);
      [T.Began(r.value.0, r.value.1, g.sessions[g.selectedSession])]
  }

  function RequestOf(s: T.State, op: Operation): T.Entry
    requires Valid(s.model) && Reaches(s.model, op)
  {
    match op
    case Begin => T.AuthSent(BeginAuthentication(s.model).1.value.0)
    case Respond(attempt, _) => T.AuthSent(attempt)
    case Start(attempt) => T.StartSent(attempt, T.SelectedUser(s.model), GreeterModel.StartSession(s.model, attempt).value)
    case Cancel => T.CancelSent
  }

  lemma {:induction false} OperationSends(s: T.State, op: Operation, exchange: T.Exchange)
    requires Valid(s.model) && Reaches(s.model, op)
    ensures T.IsRequest(RequestOf(s, op))
    ensures
      var sent := T.Send(s.(log := s.log + LoggedBefore(s, op)), RequestOf(s, op), exchange).0;
      T.Take(s, StepOf(op, exchange)).log == sent.log && T.Take(s, StepOf(op, exchange)).usable == sent.usable
  {
    assert s.log + [] == s.log;
  }

  ghost predicate AnsweredSince(log: seq<T.Entry>, a: Attempt, k: nat) {
    && k < |log| && log[k].AuthReply? && log[k].attempt == a
    && forall m :: k < m < |log| ==> !log[m].Began?
  }

  /** A prompt is shown only after an answer to its attempt, and none has begun since. */
  ghost predicate PromptAnswered(s: T.State) {
    s.model.phase.Prompting? ==> exists k: nat :: AnsweredSince(s.log, s.model.phase.attempt, k)
  }

  lemma {:induction false} ExchangePromptAnswered(s: T.State, a: Attempt, exchange: T.Exchange)
    requires s.model.phase == Waiting(a)
    ensures PromptAnswered(T.AuthExchange(s, a, exchange))
  {
    var s' := T.AuthExchange(s, a, exchange);
    if s'.model.phase.Prompting? {
      assert AnsweredSince(s'.log, a, |s.log| + 1);
    }
  }

  lemma {:induction false} TakePromptAnswered(s: T.State, step: T.Step)
    requires Valid(s.model) && PromptAnswered(s)
    ensures PromptAnswered(T.Take(s, step))
  {
    var s' := T.Take(s, step);
    match step
    case Begin(exchange) =>
      var (g, r) := BeginAuthentication(s.model);
      if r.Ok? {
        ExchangePromptAnswered(s.(model := g, log := s.log + [T.Began(r.value.0, r.value.1, g.sessions[g.selectedSession])]), r.value.0, exchange);
      }
    case Respond(attempt, hasResponse, exchange) =>
      var (g, r) := ResponseSent(s.model, attempt, hasResponse);
      if r.Ok? {
        ExchangePromptAnswered(s.(model := g), attempt, exchange);
      }
    case Cancel(exchange) =>
      if s'.model.phase.Prompting? {
        var k: nat :| AnsweredSince(s.log, s.model.phase.attempt, k);
        assert AnsweredSince(s'.log, s.model.phase.attempt, k);
      }
    case _ =>
  }

  /** The authentication request at entry `m` belongs to the attempt begun at entry `b`, the last one to
      begin, whose first request follows at once. */
  ghost predicate OpenedAt(log: seq<T.Entry>, m: nat, b: nat) {
    && b < m < |log| && log[m].AuthSent? && log[b].Began? && log[b].attempt == log[m].attempt
    && log[b + 1] == T.AuthSent(log[b].attempt)
    && forall x :: b < x < m ==> !log[x].Began?
  }

  ghost predicate HasOpening(log: seq<T.Entry>, m: nat) {
    exists b: nat :: OpenedAt(log, m, b)
  }

  ghost predicate Opened(log: seq<T.Entry>) {
    forall m {:trigger HasOpening(log, m)} :: 0 <= m < |log| && log[m].AuthSent? ==> HasOpening(log, m)
  }

  lemma {:induction false} OpenedSnoc(log: seq<T.Entry>, e: T.Entry)
    requires Opened(log) && (e.AuthSent? ==> HasOpening(log + [e], |log|))
    ensures Opened(log + [e])
  {
    var more := log + [e];
    forall m | 0 <= m < |more| && more[m].AuthSent? ensures HasOpening(more, m) {
      if m < |log| {
        assert log[m] == more[m] && HasOpening(log, m);
        var b: nat :| OpenedAt(log, m, b);
        assert OpenedAt(more, m, b);
      }
    }
  }

  /** A response belongs to the attempt whose question it answers. */
  lemma {:induction false} ResponseOpened(log: seq<T.Entry>, a: Attempt, k: nat, b: nat)
    requires AnsweredSince(log, a, k) && k > 0 && log[k - 1] == T.AuthSent(a) && OpenedAt(log, k - 1, b)
    ensures OpenedAt(log + [T.AuthSent(a)], |log|, b)
  {
    var more := log + [T.AuthSent(a)];
    assert more[b] == log[b] && more[b + 1] == log[b + 1] && more[|log|] == T.AuthSent(a);
    forall x | b < x < |log| ensures !more[x].Began? {
      assert more[x] == log[x];
    }
  }

  lemma {:induction false} AnswersFollow(s: T.State, k: nat)
    requires T.Paired(s) && k < |s.log| && s.log[k].AuthReply?
    ensures k > 0 && s.log[k - 1] == T.AuthSent(s.log[k].attempt)
  {
    assert T.Answered(s.log, k);
  }

  lemma {:induction false} OperationOpened(s: T.State, op: Operation, exchange: T.Exchange)
    requires Valid(s.model) && Reaches(s.model, op) && Opened(s.log) && T.Paired(s) && PromptAnswered(s)
    ensures Opened(T.Take(s, StepOf(op, exchange)).log)
  {
    OperationSends(s, op, exchange);
    var log, request := s.log + LoggedBefore(s, op), RequestOf(s, op);
    if op.Begin? {
      OpenedSnoc(s.log, LoggedBefore(s, op)[0]);
      assert log == s.log + [LoggedBefore(s, op)[0]];
      assert OpenedAt(log + [request], |log|, |s.log|);
    } else {
      assert log == s.log;
      if op.Respond? {
        var k: nat :| AnsweredSince(s.log, op.attempt, k);
        AnswersFollow(s, k);
        assert HasOpening(s.log, k - 1);
        var b: nat :| OpenedAt(s.log, k - 1, b);
        ResponseOpened(s.log, op.attempt, k, b);
      }
    }
    OpenedSnoc(log, request);
    if exchange.Replied? {
      OpenedSnoc(log + [request], T.AnswerTo(request, exchange.response));
    }
  }

  /** What is asked is what is logged. */
  lemma {:induction false} AskingCarries(encode: Encoder, s: T.State, op: Operation, frame: seq<Byte>)
    requires Valid(s.model) && Reaches(s.model, op) && PromptAnswered(s)
    requires F.EncodeRequest(encode(Asking(s.model, op))) == F.Ok(frame)
    ensures T.IsRequest(RequestOf(s, op)) && Carries(encode, s.log + LoggedBefore(s, op), RequestOf(s, op), frame)
  {
    var before := s.log + LoggedBefore(s, op);
    if op.Begin? {
      assert before[|before| - 1] == LoggedBefore(s, op)[0];
    } else {
      assert before == s.log;
      if op.Respond? {
        var k: nat :| AnsweredSince(s.log, s.model.phase.attempt, k);
        assert !before[|before| - 1].Began?;
      }
    }
  }

  lemma {:induction false} SendMatched(parse: Parser, encode: Encoder, reply: C.Replies, s: T.State, sent: seq<seq<Byte>>, request: T.Entry, exchange: T.Exchange, frame: seq<Byte>)
    requires Matched(parse, encode, reply, s.log, sent) && T.IsRequest(request) && s.usable && !exchange.Unencodable?
    requires Carries(encode, s.log, request, frame)
    requires exchange.Replied? ==> parse(C.ReplyTo(reply, sent + [frame], |sent|)) == Some(exchange.response)
    ensures Matched(parse, encode, reply, T.Send(s, request, exchange).0.log, sent + [frame])
  {
    MatchedRequest(parse, encode, reply, s.log, sent, request, frame);
    if exchange.Replied? {
      assert (s.log + [request])[..|s.log|] == s.log;
      MatchedSnoc(parse, encode, reply, s.log + [request], sent + [frame], T.AnswerTo(request, exchange.response));
    }
  }

  // ---------------------------------------------------------------- What the server hears

  ghost predicate IsFrame(frame: seq<Byte>) {
    exists payload: F.Payload :: F.EncodeRequest(payload) == F.Ok(frame)
  }

  ghost predicate WellFramed(sent: seq<seq<Byte>>) {
    forall n :: 0 <= n < |sent| ==> IsFrame(sent[n])
  }

  lemma {:induction false} StillFramed(sent: seq<seq<Byte>>, payload: seq<Byte>)
    requires WellFramed(sent) && F.EncodeRequest(payload).Ok?
    ensures WellFramed(sent + [F.EncodeRequest(payload).value])
  {
    F.EncodesExactly(payload);
  }

  lemma {:induction false} PayloadsOf(sent: seq<seq<Byte>>) returns (payloads: seq<F.Payload>)
    requires WellFramed(sent)
    ensures |payloads| == |sent| && forall n :: 0 <= n < |sent| ==> F.EncodeRequest(payloads[n]) == F.Ok(sent[n])
  {
    if sent == [] {
      payloads := [];
    } else {
      var front := sent[..|sent| - 1];
      payloads := PayloadsOf(front);
      assert IsFrame(sent[|sent| - 1]);
      var payload: F.Payload :| F.EncodeRequest(payload) == F.Ok(sent[|sent| - 1]);
      payloads := payloads + [payload];
      forall n | 0 <= n < |sent| ensures F.EncodeRequest(payloads[n]) == F.Ok(sent[n]) {
        assert n < |front| ==> sent[n] == front[n];
      }
    }
  }

  /** One payload is heard for every frame, the same whether or not more follow. */
  lemma {:induction false} FramesAreHeard(sent: seq<seq<Byte>>, n: nat)
    requires WellFramed(sent) && n < |sent|
    ensures |F.Heard(sent)| == |sent| && F.EncodeRequest(F.Heard(sent)[n]) == F.Ok(sent[n])
    ensures F.Heard(sent[..n + 1]) == F.Heard(sent)[..n + 1]
  {
    var payloads := PayloadsOf(sent);
    F.HeardFrames(payloads, sent);
    F.HeardFrames(payloads[..n + 1], sent[..n + 1]);
  }

  lemma {:induction false} SameFrameSamePayload(p: seq<Byte>, q: seq<Byte>, frame: seq<Byte>)
    requires F.EncodeRequest(p) == F.Ok(frame) && F.EncodeRequest(q) == F.Ok(frame)
    ensures p == q
  {
    F.EncodesExactly(p);
    F.EncodesExactly(q);
  }

  // ---------------------------------------------------------------- The joint run

  /** Both layers agree on whether the connection is usable and on every request and answer. */
  ghost predicate Joined(parse: Parser, encode: Encoder, reply: C.Replies, j: Joint) {
    && T.Safe(j.state) && T.Paired(j.state) && PromptAnswered(j.state) && Opened(j.state.log)
    && j.world.client.at.Idle? && C.InStep(reply, j.world) && C.Honest(parse, reply, j.world)
    && j.state.usable == !C.Broken(j.world.client)
    && Matched(parse, encode, reply, j.state.log, j.world.sent) && WellFramed(j.world.sent)
  }

  lemma {:induction false} OperationJoined(parse: Parser, encode: Encoder, reply: C.Replies, j: Joint, op: Operation, events: seq<C.Event>)
    requires C.AllParse(parse, reply) && Joined(parse, encode, reply, j) && Reaches(j.state.model, op)
    requires Behaved(parse, encode, reply, j, Operate(op, events)) && Perform(parse, encode, j, Operate(op, events)).Some?
    ensures Joined(parse, encode, reply, Perform(parse, encode, j, Operate(op, events)).value)
  {
    var payload := encode(Asking(j.state.model, op));
    var w' := C.Run(parse, j.world, [C.Call(payload)] + events).value;
    var exchange := ExchangeOf(j.world, w');
    CallRuns(parse, reply, j.world, payload, events);
    T.TakeSafe(j.state, StepOf(op, exchange));
    T.TakePaired(j.state, StepOf(op, exchange));
    TakePromptAnswered(j.state, StepOf(op, exchange));
    OperationOpened(j.state, op, exchange);
    OperationSends(j.state, op, exchange);
    if w'.sent != j.world.sent {
      StillFramed(j.world.sent, payload);
    }
    ExchangeMatched(parse, encode, reply, j, op, w');
  }

  lemma {:induction false} ExchangeMatched(parse: Parser, encode: Encoder, reply: C.Replies, j: Joint, op: Operation, w': C.World)
    requires Valid(j.state.model) && Reaches(j.state.model, op) && PromptAnswered(j.state)
    requires Matched(parse, encode, reply, j.state.log, j.world.sent)
    requires C.Honest(parse, reply, w') && T.IsRequest(RequestOf(j.state, op))
    requires
      var encoded := F.EncodeRequest(encode(Asking(j.state.model, op)));
      if j.state.usable && encoded.Ok? then Ended(j.world, w', encoded.value)
      else w'.sent == j.world.sent && ExchangeOf(j.world, w') == T.Unencodable
    ensures
      var before := j.state.(log := j.state.log + LoggedBefore(j.state, op));
      var sent := T.Send(before, RequestOf(j.state, op), ExchangeOf(j.world, w')).0;
      Matched(parse, encode, reply, sent.log, w'.sent)
  {
    var s, exchange := j.state, ExchangeOf(j.world, w');
    LoggedMatched(parse, encode, reply, s, j.world.sent, op);
    var encoded := F.EncodeRequest(encode(Asking(s.model, op)));
    if s.usable && encoded.Ok? {
      if exchange.Replied? {
        AnswerIsReply(parse, reply, j.world, w', encoded.value);
      }
      AskingCarries(encode, s, op, encoded.value);
      SendMatched(parse, encode, reply, s.(log := s.log + LoggedBefore(s, op)), j.world.sent, RequestOf(s, op), exchange, encoded.value);
    }
  }

  lemma {:induction false} LoggedMatched(parse: Parser, encode: Encoder, reply: C.Replies, s: T.State, sent: seq<seq<Byte>>, op: Operation)
    requires Valid(s.model) && Matched(parse, encode, reply, s.log, sent)
    ensures Matched(parse, encode, reply, s.log + LoggedBefore(s, op), sent)
  {
    if LoggedBefore(s, op) == [] {
      assert s.log + LoggedBefore(s, op) == s.log;
    } else {
      MatchedSnoc(parse, encode, reply, s.log, sent, LoggedBefore(s, op)[0]);
      assert LoggedBefore(s, op) == [LoggedBefore(s, op)[0]];
    }
  }

  lemma {:induction false} AnswerIsReply(parse: Parser, reply: C.Replies, w: C.World, w': C.World, frame: seq<Byte>)
    requires Ended(w, w', frame) && C.Honest(parse, reply, w') && ExchangeOf(w, w').Replied?
    ensures parse(C.ReplyTo(reply, w.sent + [frame], |w.sent|)) == Some(ExchangeOf(w, w').response)
  {
    assert C.HonestOutcome(parse, reply, w'.sent, w'.log[|w.log|], |w'.sent|);
  }

  lemma {:induction false} PerformJoined(parse: Parser, encode: Encoder, reply: C.Replies, j: Joint, a: Action)
    requires C.AllParse(parse, reply) && Joined(parse, encode, reply, j)
    requires Behaved(parse, encode, reply, j, a) && Perform(parse, encode, j, a).Some?
    ensures Joined(parse, encode, reply, Perform(parse, encode, j, a).value)
  {
    match a
    case Choose(step) =>
      T.TakeSafe(j.state, step);
      T.TakePaired(j.state, step);
      TakePromptAnswered(j.state, step);
    case Receive(bytes) => C.StepKeepsHonest(parse, reply, j.world, C.ServerSends(bytes));
    case Operate(op, events) =>
      if Reaches(j.state.model, op) {
        OperationJoined(parse, encode, reply, j, op, events);
      } else {
        assert T.Take(j.state, StepOf(op, T.Unencodable)) == j.state;
      }
  }

  // ---------------------------------------------------------------- What an operation does on the wire

  /** When an operation gets as far as the client, without reference to the model's operations. */
  lemma {:induction false} ReachesExactly(g: Greeter, op: Operation)
    requires Valid(g)
    ensures Reaches(g, op) <==>
      match op
      case Begin => (g.phase.Idle? || g.phase.Failed?) && g.selectedUser.Some?
      case Respond(attempt, response) =>
        && g.phase.Prompting? && g.phase.attempt == attempt
        && (response.Some? <==> g.phase.prompt.kind == Visible || g.phase.prompt.kind == Secret)
      case Start(attempt) => g.phase == Authenticated(attempt)
      case Cancel => true
  {
  }

  /** What such an operation asks: for the selected user, with the response given, for the selected
      session, or to cancel. */
  lemma {:induction false} AsksExactly(g: Greeter, op: Operation)
    requires Valid(g) && Reaches(g, op)
    ensures op.Begin? ==> g.selectedUser.Some?
    ensures Asking(g, op) ==
      match op
      case Begin => CreateSession(g.users[g.selectedUser.value])
      case Respond(_, response) => PostAuthMessageResponse(response)
      case Start(_) => StartSession(g.sessions[g.selectedSession].command, g.sessions[g.selectedSession].environment)
      case Cancel => CancelSession
  {
  }

  lemma {:induction false} ReadsAreNoCalls(cuts: seq<nat>)
    ensures NoCall(P.Reads(cuts))
  {
    if cuts != [] {
      ReadsAreNoCalls(cuts[1..]);
    }
  }

  /** On a usable connection, for a request within the limit: an operation that gets as far as the client
      writes exactly its request, and the server's reply, cut into reads of any sizes, takes the
      transaction where that answer leads, with the connection usable again. */
  lemma {:induction false} OperationCompletes(parse: Parser, encode: Encoder, reply: C.Replies, j: Joint, op: Operation, cuts: seq<nat>)
    requires C.AllParse(parse, reply) && Joined(parse, encode, reply, j) && j.state.usable && Reaches(j.state.model, op)
    requires |encode(Asking(j.state.model, op))| <= 65536 && P.AreReads(cuts)
    requires
      var sent := j.world.sent + [F.Frame(encode(Asking(j.state.model, op)))];
      P.Sum(cuts) == |F.Frame(C.ReplyTo(reply, sent, |j.world.sent|))|
    ensures
      var sent := j.world.sent + [F.Frame(encode(Asking(j.state.model, op)))];
      var answer := C.ReplyTo(reply, sent, |j.world.sent|);
      var events := [C.WriteDone(true)] + ([C.ServerSends(F.Frame(answer))] + P.Reads(cuts));
      var done := Perform(parse, encode, j, Operate(op, events));
      && done.Some? && done.value.world.sent == sent && !C.Broken(done.value.world.client)
      && done.value.state == T.Take(j.state, StepOf(op, T.Replied(parse(answer).value)))
  {
    var payload := encode(Asking(j.state.model, op));
    var sent := j.world.sent + [F.Frame(payload)];
    var answer := C.ReplyTo(reply, sent, |j.world.sent|);
    var events := [C.WriteDone(true)] + ([C.ServerSends(F.Frame(answer))] + P.Reads(cuts));
    P.ExchangeCompletes(parse, reply, j.world, payload, cuts);
    ReadsAreNoCalls(cuts);
    assert NoCall(events);
    var w := C.Run(parse, j.world, [C.Call(payload)] + events).value;
    assert w.log[|j.world.log|] == C.Answered(|j.world.sent|, parse(answer).value);
    assert ExchangeOf(j.world, w) == T.Replied(parse(answer).value);
  }

  // ---------------------------------------------------------------- Runs of both layers

  ghost predicate BehavedRun(parse: Parser, encode: Encoder, reply: C.Replies, j: Joint, actions: seq<Action>)
    requires Valid(j.state.model)
    decreases |actions|
  {
    actions == [] ||
    (&& Behaved(parse, encode, reply, j, actions[0]) && Perform(parse, encode, j, actions[0]).Some?
     && Valid(Perform(parse, encode, j, actions[0]).value.state.model)
     && BehavedRun(parse, encode, reply, Perform(parse, encode, j, actions[0]).value, actions[1..]))
  }

  /** The last state of a run in which every action was possible. */
  ghost function Run(parse: Parser, encode: Encoder, reply: C.Replies, j: Joint, actions: seq<Action>): Joint
    requires Valid(j.state.model) && BehavedRun(parse, encode, reply, j, actions)
    decreases |actions|
  {
    if actions == [] then j else Run(parse, encode, reply, Perform(parse, encode, j, actions[0]).value, actions[1..])
  }

  lemma {:induction false} RunJoined(parse: Parser, encode: Encoder, reply: C.Replies, j: Joint, actions: seq<Action>)
    requires C.AllParse(parse, reply) && Joined(parse, encode, reply, j) && BehavedRun(parse, encode, reply, j, actions)
    ensures Joined(parse, encode, reply, Run(parse, encode, reply, j, actions))
    decreases |actions|
  {
    if actions != [] {
      PerformJoined(parse, encode, reply, j, actions[0]);
      RunJoined(parse, encode, reply, Perform(parse, encode, j, actions[0]).value, actions[1..]);
    }
  }

  lemma {:induction false} FreshIsJoined(parse: Parser, encode: Encoder, reply: C.Replies, g: Greeter)
    requires Valid(g) && g.phase == Idle
    ensures Joined(parse, encode, reply, Joint(T.State(g, true, []), C.Connected()))
  {
    C.ConnectedIsHonest(parse, reply);
  }

  /** What the server has heard when a session is started: the attempt's user, then, as the attempt's
      last authentication request, that same request or some response, to which it replied Success, and
      then the session's own command and environment. */
  ghost predicate StartHeard(parse: Parser, encode: Encoder, reply: C.Replies, log: seq<T.Entry>, heard: seq<seq<Byte>>, i: nat, b: nat, k: nat)
    requires i < |log| && log[i].StartSent?
  {
    && b < k - 1 && k < i && log[b + 1] == T.AuthSent(log[i].attempt) && log[k - 1] == T.AuthSent(log[i].attempt)
    && (forall m :: k <= m < i ==> !log[m].AuthSent?)
    && Requests(log[..b + 1]) <= Requests(log[..k - 1]) < Requests(log[..i]) < |heard|
    && heard[Requests(log[..b + 1])] == encode(CreateSession(log[i].user))
    && (b + 1 < k - 1 ==> exists response :: heard[Requests(log[..k - 1])] == encode(PostAuthMessageResponse(response)))
    && parse(reply(heard[..Requests(log[..k - 1]) + 1])) == Some(C.Success)
    && heard[Requests(log[..i])] == encode(StartSession(log[i].session.command, log[i].session.environment))
  }

  lemma {:induction false} RequestsGrow(log: seq<T.Entry>, m: nat, n: nat)
    requires m <= n <= |log|
    ensures Requests(log[..m]) <= Requests(log[..n])
    ensures m < n && T.IsRequest(log[m]) ==> Requests(log[..m]) < Requests(log[..n])
    decreases n - m
  {
    if m < n {
      assert log[..n][..n - 1] == log[..n - 1];
      RequestsGrow(log, m, n - 1);
    }
  }

  /** The one Began before a request is the one the request belongs to. */
  lemma {:induction false} OpenedByBegan(log: seq<T.Entry>, m: nat, b: nat)
    requires Opened(log) && b < m < |log| && log[m].AuthSent? && log[b].Began?
    requires forall x :: b < x < m ==> !log[x].Began?
    ensures OpenedAt(log, m, b)
  {
    assert HasOpening(log, m);
    var c: nat :| OpenedAt(log, m, c);
    assert c == b;
  }

  lemma {:induction false} HeardRequest(encode: Encoder, log: seq<T.Entry>, sent: seq<seq<Byte>>, m: nat)
    requires m < |log| && T.IsRequest(log[m]) && CarriedAt(encode, log, sent, m) && WellFramed(sent)
    ensures |F.Heard(sent)| == |sent| && Requests(log[..m]) < |sent|
    ensures
      var heard := F.Heard(sent)[Requests(log[..m])];
      match log[m]
      case StartSent(_, _, session) => heard == encode(StartSession(session.command, session.environment))
      case CancelSent => heard == encode(CancelSession)
      case AuthSent(a) =>
        if m > 0 && log[m - 1].Began? then log[m - 1].attempt == a && heard == encode(CreateSession(log[m - 1].user))
        else exists response :: heard == encode(PostAuthMessageResponse(response))
  {
    var n := Requests(log[..m]);
    FramesAreHeard(sent, n);
    var heard := F.Heard(sent)[n];
    match log[m]
    case StartSent(_, _, session) => SameFrameSamePayload(heard, encode(StartSession(session.command, session.environment)), sent[n]);
    case CancelSent => SameFrameSamePayload(heard, encode(CancelSession), sent[n]);
    case AuthSent(a) =>
      if m > 0 && log[m - 1].Began? {
        SameFrameSamePayload(heard, encode(CreateSession(log[m - 1].user)), sent[n]);
      } else {
        var response :| F.EncodeRequest(encode(PostAuthMessageResponse(response))) == F.Ok(sent[n]);
        SameFrameSamePayload(heard, encode(PostAuthMessageResponse(response)), sent[n]);
      }
  }

  lemma {:induction false} RequestsInOrder(log: seq<T.Entry>, b: nat, k: nat, i: nat)
    requires b < k - 1 && k < i < |log| && T.IsRequest(log[k - 1])
    ensures Requests(log[..b + 1]) <= Requests(log[..k - 1]) < Requests(log[..i])
  {
    RequestsGrow(log, b + 1, k - 1);
    RequestsGrow(log, k - 1, i);
  }

  lemma {:induction false} MatchedStartHeard(parse: Parser, encode: Encoder, reply: C.Replies, log: seq<T.Entry>, sent: seq<seq<Byte>>, i: nat, b: nat, k: nat)
    requires Matched(parse, encode, reply, log, sent) && WellFramed(sent) && i < |log| && log[i].StartSent?
    requires k > 0 && OpenedAt(log, k - 1, b) && k < i && log[b] == T.Began(log[i].attempt, log[i].user, log[i].session)
    requires log[k] == T.AuthReply(log[i].attempt, C.Success) && (forall m :: k <= m < i ==> !log[m].AuthSent?)
    ensures StartHeard(parse, encode, reply, log, F.Heard(sent), i, b, k)
  {
    RequestsInOrder(log, b, k, i);
    assert CarriedAt(encode, log, sent, b + 1) && CarriedAt(encode, log, sent, k - 1) && CarriedAt(encode, log, sent, i);
    assert MatchedAt(parse, reply, log, sent, k);
    HeardUser(encode, log, sent, b);
    HeardResponse(encode, log, sent, b, k);
    HeardRequest(encode, log, sent, i);
    HeardReply(parse, reply, log, sent, k);
  }

  lemma {:induction false} HeardUser(encode: Encoder, log: seq<T.Entry>, sent: seq<seq<Byte>>, b: nat)
    requires b + 1 < |log| && log[b].Began? && log[b + 1].AuthSent? && CarriedAt(encode, log, sent, b + 1) && WellFramed(sent)
    ensures |F.Heard(sent)| == |sent| && Requests(log[..b + 1]) < |sent|
    ensures F.Heard(sent)[Requests(log[..b + 1])] == encode(CreateSession(log[b].user))
  {
    HeardRequest(encode, log, sent, b + 1);
  }

  lemma {:induction false} HeardResponse(encode: Encoder, log: seq<T.Entry>, sent: seq<seq<Byte>>, b: nat, k: nat)
    requires b < k - 1 && k <= |log| && log[k - 1].AuthSent? && CarriedAt(encode, log, sent, k - 1) && WellFramed(sent)
    requires forall x :: b < x < k - 1 ==> !log[x].Began?
    ensures |F.Heard(sent)| == |sent| && Requests(log[..k - 1]) < |sent|
    ensures b + 1 < k - 1 ==> exists response :: F.Heard(sent)[Requests(log[..k - 1])] == encode(PostAuthMessageResponse(response))
  {
    HeardRequest(encode, log, sent, k - 1);
  }

  lemma {:induction false} HeardReply(parse: Parser, reply: C.Replies, log: seq<T.Entry>, sent: seq<seq<Byte>>, k: nat)
    requires k < |log| && T.IsAnswer(log[k]) && MatchedAt(parse, reply, log, sent, k) && WellFramed(sent)
    ensures |F.Heard(sent)| == |sent| && Requests(log[..k - 1]) < |sent|
    ensures parse(reply(F.Heard(sent)[..Requests(log[..k - 1]) + 1])) == Some(log[k].response)
  {
    FramesAreHeard(sent, Requests(log[..k - 1]));
  }

  lemma {:induction false} StartIsOpened(s: T.State, i: nat, b: nat, k: nat)
    requires T.Paired(s) && Opened(s.log) && i < |s.log| && s.log[i].StartSent?
    requires T.Authorized(s.log, i, b, k, s.log[i].attempt, s.log[i].user, s.log[i].session)
    ensures k > 0 && OpenedAt(s.log, k - 1, b) && (forall m :: k <= m < i ==> !s.log[m].AuthSent?)
  {
    T.SuccessAnswersLastRequest(s, i, b, k);
    OpenedByBegan(s.log, k - 1, b);
  }

  /** Over every run of both layers, with any cancellations, I/O errors and splits into reads: a session
      is started only with the user and session of its own attempt, after the server, having heard that
      user and that attempt's own last authentication request, replied Success to it. */
  lemma {:induction false} SessionsAreAuthorizedByTheirOwnAnswer(parse: Parser, encode: Encoder, reply: C.Replies, g: Greeter, actions: seq<Action>, i: nat)
    requires C.AllParse(parse, reply) && Valid(g) && g.phase == Idle
    requires BehavedRun(parse, encode, reply, Joint(T.State(g, true, []), C.Connected()), actions)
    requires
      var log := Run(parse, encode, reply, Joint(T.State(g, true, []), C.Connected()), actions).state.log;
      i < |log| && log[i].StartSent?
    ensures
      var j := Run(parse, encode, reply, Joint(T.State(g, true, []), C.Connected()), actions);
      var log := j.state.log;
      exists b: nat, k: nat ::
        && T.Authorized(log, i, b, k, log[i].attempt, log[i].user, log[i].session)
        && StartHeard(parse, encode, reply, log, F.Heard(j.world.sent), i, b, k)
  {
    var start := Joint(T.State(g, true, []), C.Connected());
    FreshIsJoined(parse, encode, reply, g);
    RunJoined(parse, encode, reply, start, actions);
    var j := Run(parse, encode, reply, start, actions);
    assert T.StartAuthorized(j.state.log, i);
    var b: nat, k: nat :| T.Authorized(j.state.log, i, b, k, j.state.log[i].attempt, j.state.log[i].user, j.state.log[i].session);
    StartIsOpened(j.state, i, b, k);
    MatchedStartHeard(parse, encode, reply, j.state.log, j.world.sent, i, b, k);
  }
}
