/** The transaction layer: every model transition paired with its greetd exchange, against an
    arbitrary server and with every exchange droppable. */
module GreeterTransaction {
  import opened Basics
  import opened GreeterModel
  import GreetdClient

  /** How an exchange on a usable connection ends: answered; dropped at an await or failed after the
      frame was encoded, either of which makes the connection unusable; or not encodable. */
  datatype Exchange = Replied(response: GreetdClient.Response) | Lost | Unencodable

  datatype Step =
    | ChooseUser(index: nat)
    | ChooseSession(index: nat)
    | Begin(exchange: Exchange)
    | Respond(attempt: Attempt, hasResponse: bool, exchange: Exchange)
    | Start(attempt: Attempt, exchange: Exchange)
    | Cancel(exchange: Exchange)

  /** What happened, in order: attempts begun, requests written and the answers to them. `StartSent`
      records the user selected when the request was written. */
  datatype Entry =
    | Began(attempt: Attempt, user: string, session: Session)
    | AuthSent(attempt: Attempt)
    | AuthReply(attempt: Attempt, response: GreetdClient.Response)
    | StartSent(attempt: Attempt, user: string, session: Session)
    | StartReply(attempt: Attempt, response: GreetdClient.Response)
    | CancelSent
    | CancelReply(response: GreetdClient.Response)

  datatype State = State(model: Greeter, usable: bool, log: seq<Entry>)

  function PromptOf(kind: GreetdClient.AuthMessageType, message: string): Prompt {
    Prompt(match kind { case Visible => Visible case Secret => Secret case Info => Info case ErrorText => ErrorText }, message)
  }

  function FailureText(kind: GreetdClient.ErrorType, description: string): string {
    if kind.AuthError? then description else "greetd: " + description
  }

  function ApplyResponse(g: Greeter, attempt: Attempt, response: GreetdClient.Response): (Greeter, Result<()>) {
    match response
    case Success => AuthenticationSucceeded(g, attempt)
    case AuthMessage(kind, message) => ReceivePrompt(g, attempt, PromptOf(kind, message))
    case Error(kind, description) => AuthenticationFailed(g, attempt, FailureText(kind, description))
  }

  predicate IsRequest(e: Entry) {
    e.AuthSent? || e.StartSent? || e.CancelSent?
  }

  predicate IsAnswer(e: Entry) {
    e.AuthReply? || e.StartReply? || e.CancelReply?
  }

  function AnswerTo(request: Entry, response: GreetdClient.Response): Entry
    requires IsRequest(request)
  {
    match request
    case AuthSent(attempt) => AuthReply(attempt, response)
    case StartSent(attempt, _, _) => StartReply(attempt, response)
    case CancelSent => CancelReply(response)
  }

  /** One exchange: the request is written unless the connection is unusable or the request cannot be
      encoded, and answered unless the exchange is lost. */
  function Send(s: State, request: Entry, exchange: Exchange): (State, Option<GreetdClient.Response>)
    requires IsRequest(request)
  {
    if !s.usable || exchange.Unencodable? then (s, None)
    else if exchange.Lost? then (s.(usable := false, log := s.log + [request]), None)
    else (s.(log := s.log + [request] + [AnswerTo(request, exchange.response)]), Some(exchange.response))
  }

  function AuthExchange(s: State, attempt: Attempt, exchange: Exchange): State {
    var (s', response) := Send(s, AuthSent(attempt), exchange);
    if response.None? then s' else s'.(model := ApplyResponse(s.model, attempt, response.value).0)
  }

  function SelectedUser(g: Greeter): string
    requires Valid(g)
  {
    if g.selectedUser.Some? then g.users[g.selectedUser.value] else ""
  }

  function Take(s: State, step: Step): State
    requires Valid(s.model)
  {
    match step
    case ChooseUser(index) => s.(model := SelectUser(s.model, index).0)
    case ChooseSession(index) => s.(model := SelectSession(s.model, index).0)
    case Begin(exchange) =>
      var (g, r) := BeginAuthentication(s.model);
      if r.Err? then s else
        var entry := Began(r.value.0, r.value.1, g.sessions[g.selectedSession]);
        AuthExchange(s.(model := g, log := s.log + [entry]), r.value.0, exchange)
    case Respond(attempt, hasResponse, exchange) =>
      var (g, r) := ResponseSent(s.model, attempt, hasResponse);
      if r.Err? then s else AuthExchange(s.(model := g), attempt, exchange)
    case Start(attempt, exchange) =>
      var r := StartSession(s.model, attempt);
      if r.Err? then s else
        var (s', response) := Send(s, StartSent(attempt, SelectedUser(s.model), r.value), exchange);
        if response == Some(GreetdClient.Success) then s'.(model := MarkStarted(s.model, attempt).0) else s'
    case Cancel(exchange) =>
      var (s', response) := Send(s, CancelSent, exchange);
      if response == Some(GreetdClient.Success) then s'.(model := CancelAttempt(s.model)) else s'
  }

  lemma {:induction false} TakeKeepsValid(s: State, step: Step)
    requires Valid(s.model)
    ensures Valid(Take(s, step).model)
    ensures Take(s, step).model.users == s.model.users && Take(s, step).model.sessions == s.model.sessions
  {
  }

  function Run(s: State, steps: seq<Step>): (r: State)
    requires Valid(s.model)
    decreases |steps|
  {
    if steps == [] then s else
      TakeKeepsValid(s, steps[0]);
      Run(Take(s, steps[0]), steps[1..])
  }

  // ---------------------------------------------------------------- What may authorize a session

  /** Attempt `a` began at entry `j` for this user and session and, up to entry `n`, no other attempt
      began, no cancel was answered Success and the server reported no failure. */
  ghost predicate Current(log: seq<Entry>, n: nat, j: nat, a: Attempt, user: string, session: Session) {
    && j < n <= |log| && log[j] == Began(a, user, session)
    && forall m :: j < m < n ==>
         !log[m].Began? && log[m] != CancelReply(GreetdClient.Success) && !(log[m].AuthReply? && log[m].response.Error?)
  }

  /** Moreover the last authentication answer before entry `n` is the Success at entry `k`, given to
      `a`, and no session has been started with it yet. */
  ghost predicate Authorized(log: seq<Entry>, n: nat, j: nat, k: nat, a: Attempt, user: string, session: Session) {
    && Current(log, n, j, a, user, session)
    && j < k < n && log[k] == AuthReply(a, GreetdClient.Success)
    && forall m :: k < m < n ==> !log[m].AuthReply? && !(log[m].StartReply? && log[m].response.Success?)
  }

  ghost predicate StartAuthorized(log: seq<Entry>, i: nat)
    requires i < |log| && log[i].StartSent?
  {
    exists j, k :: Authorized(log, i, j, k, log[i].attempt, log[i].user, log[i].session)
  }

  ghost predicate HasCurrent(log: seq<Entry>, a: Attempt, user: string, session: Session) {
    exists j :: Current(log, |log|, j, a, user, session)
  }

  ghost predicate HasAuthorized(log: seq<Entry>, a: Attempt, user: string, session: Session) {
    exists j, k :: Authorized(log, |log|, j, k, a, user, session)
  }

  ghost predicate PhaseBacked(s: State)
    requires Valid(s.model)
  {
    var g := s.model;
    var user, session := SelectedUser(g), g.sessions[g.selectedSession];
    match g.phase
    case Waiting(a) => g.selectedUser.Some? && HasCurrent(s.log, a, user, session)
    case Prompting(a, _) => g.selectedUser.Some? && HasCurrent(s.log, a, user, session)
    case Authenticated(a) => g.selectedUser.Some? && HasAuthorized(s.log, a, user, session)
    case _ => true
  }

  ghost predicate Safe(s: State) {
    && Valid(s.model) && PhaseBacked(s)
    && forall i :: 0 <= i < |s.log| && s.log[i].StartSent? ==> StartAuthorized(s.log, i)
  }

  lemma {:induction false} StartsExtend(log: seq<Entry>, more: seq<Entry>, i: nat)
    requires i < |log| && log[i].StartSent? && StartAuthorized(log, i)
    ensures StartAuthorized(log + more, i)
  {
    var j, k :| Authorized(log, i, j, k, log[i].attempt, log[i].user, log[i].session);
    assert (log + more)[i] == log[i];
    assert Authorized(log + more, i, j, k, log[i].attempt, log[i].user, log[i].session);
  }

  lemma {:induction false} OldStartsStay(log: seq<Entry>, more: seq<Entry>)
    requires forall i :: 0 <= i < |log| && log[i].StartSent? ==> StartAuthorized(log, i)
    requires forall i :: 0 <= i < |more| ==> !more[i].StartSent?
    ensures forall i :: 0 <= i < |log + more| && (log + more)[i].StartSent? ==> StartAuthorized(log + more, i)
  {
    forall i | 0 <= i < |log + more| && (log + more)[i].StartSent?
      ensures StartAuthorized(log + more, i)
    {
      assert i < |log|;
      StartsExtend(log, more, i);
    }
  }

  lemma {:induction false} AuthAnswered(log: seq<Entry>, a: Attempt, user: string, session: Session, response: GreetdClient.Response)
    requires HasCurrent(log, a, user, session) && !response.Error?
    ensures var log' := log + [AuthSent(a)] + [AuthReply(a, response)];
      HasCurrent(log', a, user, session) && (response.Success? ==> HasAuthorized(log', a, user, session))
  {
    var log' := log + [AuthSent(a)] + [AuthReply(a, response)];
    var j :| Current(log, |log|, j, a, user, session);
    assert Current(log', |log'|, j, a, user, session);
    if response.Success? {
      assert Authorized(log', |log'|, j, |log| + 1, a, user, session);
    }
  }

  /** Entries that neither begin, end nor answer an attempt leave its standing. */
  lemma {:induction false} StandingKept(log: seq<Entry>, more: seq<Entry>, a: Attempt, user: string, session: Session)
    requires forall i :: 0 <= i < |more| ==>
      && !more[i].Began? && !more[i].AuthReply? && more[i] != CancelReply(GreetdClient.Success)
      && !(more[i].StartReply? && more[i].response.Success?)
    ensures HasCurrent(log, a, user, session) ==> HasCurrent(log + more, a, user, session)
    ensures HasAuthorized(log, a, user, session) ==> HasAuthorized(log + more, a, user, session)
  {
    var log' := log + more;
    if j :| Current(log, |log|, j, a, user, session) {
      assert Current(log', |log'|, j, a, user, session);
    }
    if j, k :| Authorized(log, |log|, j, k, a, user, session) {
      assert Current(log', |log'|, j, a, user, session);
      assert Authorized(log', |log'|, j, k, a, user, session);
    }
  }

  lemma {:induction false} BackedByMore(s: State, more: seq<Entry>, usable: bool)
    requires Valid(s.model) && PhaseBacked(s)
    requires forall i :: 0 <= i < |more| ==>
      && !more[i].Began? && !more[i].AuthReply? && more[i] != CancelReply(GreetdClient.Success)
      && !(more[i].StartReply? && more[i].response.Success?)
    ensures PhaseBacked(s.(log := s.log + more, usable := usable))
  {
    var g := s.model;
    if g.phase.Waiting? || g.phase.Prompting? || g.phase.Authenticated? {
      StandingKept(s.log, more, g.phase.attempt, SelectedUser(g), g.sessions[g.selectedSession]);
    }
  }

  lemma {:induction false} AuthExchangeSafe(s: State, attempt: Attempt, exchange: Exchange)
    requires Safe(s) && s.model.phase == Waiting(attempt)
    ensures Safe(AuthExchange(s, attempt, exchange))
  {
    var g := s.model;
    if s.usable && exchange.Lost? {
      OldStartsStay(s.log, [AuthSent(attempt)]);
      BackedByMore(s, [AuthSent(attempt)], false);
    } else if s.usable && exchange.Replied? {
      var s' := AuthExchange(s, attempt, exchange);
      var more := [AuthSent(attempt)] + [AuthReply(attempt, exchange.response)];
      OldStartsStay(s.log, more);
      assert s'.log == s.log + more && SelectedUser(s'.model) == SelectedUser(g);
      if !exchange.response.Error? {
        AuthAnswered(s.log, attempt, SelectedUser(g), g.sessions[g.selectedSession], exchange.response);
      }
    }
  }

  lemma {:induction false} BeginSafe(s: State, exchange: Exchange)
    requires Safe(s)
    ensures Safe(Take(s, Begin(exchange)))
  {
    var (g, r) := BeginAuthentication(s.model);
    if r.Ok? {
      var entry := Began(r.value.0, r.value.1, g.sessions[g.selectedSession]);
      var s' := s.(model := g, log := s.log + [entry]);
      OldStartsStay(s.log, [entry]);
      assert Current(s'.log, |s'.log|, |s.log|, r.value.0, r.value.1, g.sessions[g.selectedSession]);
      assert SelectedUser(g) == r.value.1;
      AuthExchangeSafe(s', r.value.0, exchange);
    }
  }

  lemma {:induction false} StartSentAuthorized(s: State, attempt: Attempt)
    requires Safe(s) && StartSession(s.model, attempt).Ok?
    ensures
      var log' := s.log + [StartSent(attempt, SelectedUser(s.model), StartSession(s.model, attempt).value)];
      forall i :: 0 <= i < |log'| && log'[i].StartSent? ==> StartAuthorized(log', i)
  {
    var g := s.model;
    var user, session := SelectedUser(g), g.sessions[g.selectedSession];
    var j, k :| Authorized(s.log, |s.log|, j, k, attempt, user, session);
    var log' := s.log + [StartSent(attempt, user, session)];
    assert Authorized(log', |s.log|, j, k, attempt, user, session);
    forall i | 0 <= i < |log'| && log'[i].StartSent?
      ensures StartAuthorized(log', i)
    {
      if i < |s.log| {
        StartsExtend(s.log, [StartSent(attempt, user, session)], i);
      }
    }
  }

  lemma {:induction false} StartSafe(s: State, attempt: Attempt, exchange: Exchange)
    requires Safe(s)
    ensures Safe(Take(s, Start(attempt, exchange)))
  {
    var r := StartSession(s.model, attempt);
    if r.Ok? && s.usable && !exchange.Unencodable? {
      var request := StartSent(attempt, SelectedUser(s.model), r.value);
      StartSentAuthorized(s, attempt);
      if exchange.Lost? {
        BackedByMore(s, [request], false);
      } else {
        var answer := StartReply(attempt, exchange.response);
        OldStartsStay(s.log + [request], [answer]);
        assert s.log + [request] + [answer] == s.log + [request, answer];
        if !exchange.response.Success? {
          BackedByMore(s, [request, answer], true);
        }
      }
    }
  }

  lemma {:induction false} CancelSafe(s: State, exchange: Exchange)
    requires Safe(s)
    ensures Safe(Take(s, Cancel(exchange)))
  {
    if s.usable && exchange.Lost? {
      OldStartsStay(s.log, [CancelSent]);
      BackedByMore(s, [CancelSent], false);
    } else if s.usable && exchange.Replied? {
      var answer := CancelReply(exchange.response);
      assert s.log + [CancelSent] + [answer] == s.log + [CancelSent, answer];
      OldStartsStay(s.log, [CancelSent, answer]);
      if !exchange.response.Success? {
        BackedByMore(s, [CancelSent, answer], true);
      }
    }
  }

  lemma {:induction false} RespondSafe(s: State, attempt: Attempt, hasResponse: bool, exchange: Exchange)
    requires Safe(s)
    ensures Safe(Take(s, Respond(attempt, hasResponse, exchange)))
  {
    var (g, r) := ResponseSent(s.model, attempt, hasResponse);
    if r.Ok? {
      assert SelectedUser(g) == SelectedUser(s.model);
      AuthExchangeSafe(s.(model := g), attempt, exchange);
    }
  }

  lemma {:induction false} TakeSafe(s: State, step: Step)
    requires Safe(s)
    ensures Safe(Take(s, step))
  {
    match step
    case Begin(exchange) => BeginSafe(s, exchange);
    case Start(attempt, exchange) => StartSafe(s, attempt, exchange);
    case Respond(attempt, hasResponse, exchange) => RespondSafe(s, attempt, hasResponse, exchange);
    case Cancel(exchange) => CancelSafe(s, exchange);
    case _ => TakeKeepsValid(s, step);
  }

  /** Over every run of transaction steps and selections, against any server: a start-session
      request for an attempt is sent only if that attempt was issued, its last authentication answer
      was Success, no failure and no cancel answered Success came in between, and the user and session
      are the ones that were selected when the attempt began. */
  lemma {:induction false} StartsOnlyAuthorizedSessions(s: State, steps: seq<Step>)
    requires Safe(s)
    ensures Safe(Run(s, steps))
    decreases |steps|
  {
    if steps != [] {
      TakeSafe(s, steps[0]);
      StartsOnlyAuthorizedSessions(Take(s, steps[0]), steps[1..]);
    }
  }

  // ---------------------------------------------------------------- Requests and their answers

  /** An answer stands right behind its request, and a request without one is the last ever written. */
  ghost predicate Paired(s: State) {
    && (forall i :: 0 <= i < |s.log| && IsAnswer(s.log[i]) ==> Answered(s.log, i))
    && (forall i :: 0 <= i < |s.log| && IsRequest(s.log[i]) ==> IsAnsweredOrLast(s, i))
  }

  ghost predicate Answered(log: seq<Entry>, i: nat)
    requires i < |log| && IsAnswer(log[i])
  {
    i > 0 && IsRequest(log[i - 1]) && log[i] == AnswerTo(log[i - 1], log[i].response)
  }

  ghost predicate IsAnsweredOrLast(s: State, i: nat)
    requires i < |s.log|
  {
    if i + 1 < |s.log| && IsAnswer(s.log[i + 1]) then true
    else !s.usable && forall m :: i < m < |s.log| ==> !IsRequest(s.log[m])
  }

  lemma {:induction false} SendPaired(s: State, request: Entry, exchange: Exchange)
    requires Paired(s) && IsRequest(request)
    ensures Paired(Send(s, request, exchange).0)
  {
    var s' := Send(s, request, exchange).0;
    if s.usable && !exchange.Unencodable? {
      assert s'.log[..|s.log|] == s.log && s'.log[|s.log|] == request;
      forall i | 0 <= i < |s'.log| && IsAnswer(s'.log[i]) ensures Answered(s'.log, i) {
        if i < |s.log| {
          assert s'.log[i] == s.log[i] && Answered(s.log, i) && s'.log[i - 1] == s.log[i - 1];
        }
      }
      forall i | 0 <= i < |s'.log| && IsRequest(s'.log[i]) ensures IsAnsweredOrLast(s', i) {
        if i < |s.log| {
          assert s'.log[i] == s.log[i] && IsAnsweredOrLast(s, i);
          assert s'.log[i + 1] == s.log[i + 1];
        }
      }
    }
  }

  lemma {:induction false} BeganPaired(s: State, g: Greeter, entry: Entry)
    requires Paired(s) && entry.Began?
    ensures Paired(s.(model := g, log := s.log + [entry]))
  {
    var s' := s.(model := g, log := s.log + [entry]);
    forall i | 0 <= i < |s'.log| && IsAnswer(s'.log[i]) ensures Answered(s'.log, i) {
      assert s'.log[i] == s.log[i] && Answered(s.log, i) && s'.log[i - 1] == s.log[i - 1];
    }
    forall i | 0 <= i < |s'.log| && IsRequest(s'.log[i]) ensures IsAnsweredOrLast(s', i) {
      assert s'.log[i] == s.log[i] && IsAnsweredOrLast(s, i);
      assert i + 1 < |s.log| ==> s'.log[i + 1] == s.log[i + 1];
    }
  }

  lemma {:induction false} ModelIsNotPaired(s: State, g: Greeter)
    requires Paired(s)
    ensures Paired(s.(model := g))
  {
    var s' := s.(model := g);
    forall i | 0 <= i < |s'.log| && IsRequest(s'.log[i]) ensures IsAnsweredOrLast(s', i) {
      assert IsAnsweredOrLast(s, i);
    }
  }

  lemma {:induction false} AuthExchangePaired(s: State, attempt: Attempt, exchange: Exchange)
    requires Paired(s)
    ensures Paired(AuthExchange(s, attempt, exchange))
  {
    var (s', response) := Send(s, AuthSent(attempt), exchange);
    SendPaired(s, AuthSent(attempt), exchange);
    if response.Some? {
      ModelIsNotPaired(s', ApplyResponse(s.model, attempt, response.value).0);
    }
  }

  lemma {:induction false} TakePaired(s: State, step: Step)
    requires Valid(s.model) && Paired(s)
    ensures Paired(Take(s, step))
  {
    match step
    case ChooseUser(index) => ModelIsNotPaired(s, SelectUser(s.model, index).0);
    case ChooseSession(index) => ModelIsNotPaired(s, SelectSession(s.model, index).0);
    case Begin(exchange) =>
      var (g, r) := BeginAuthentication(s.model);
      if r.Ok? {
        var entry := Began(r.value.0, r.value.1, g.sessions[g.selectedSession]);
        BeganPaired(s, g, entry);
        AuthExchangePaired(s.(model := g, log := s.log + [entry]), r.value.0, exchange);
      }
    case Respond(attempt, hasResponse, exchange) =>
      var (g, r) := ResponseSent(s.model, attempt, hasResponse);
      ModelIsNotPaired(s, g);
      AuthExchangePaired(s.(model := g), attempt, exchange);
    case Start(attempt, exchange) => StartPaired(s, attempt, exchange);
    case Cancel(exchange) =>
      SendPaired(s, CancelSent, exchange);
      ModelIsNotPaired(Send(s, CancelSent, exchange).0, CancelAttempt(s.model));
  }

  lemma {:induction false} StartPaired(s: State, attempt: Attempt, exchange: Exchange)
    requires Valid(s.model) && Paired(s)
    ensures Paired(Take(s, Start(attempt, exchange)))
  {
    var r := StartSession(s.model, attempt);
    if r.Ok? {
      var request := StartSent(attempt, SelectedUser(s.model), r.value);
      SendPaired(s, request, exchange);
      ModelIsNotPaired(Send(s, request, exchange).0, MarkStarted(s.model, attempt).0);
    }
  }

  lemma {:induction false} RunPaired(s: State, steps: seq<Step>)
    requires Valid(s.model) && Paired(s)
    ensures Paired(Run(s, steps))
    decreases |steps|
  {
    if steps != [] {
      TakePaired(s, steps[0]);
      TakeKeepsValid(s, steps[0]);
      RunPaired(Take(s, steps[0]), steps[1..]);
    }
  }

  // ---------------------------------------------------------------- What may lie between

  /** Entry `k` is the last answer about the attempt, be it to an authentication or a start request. */
  ghost predicate LastAnswerIs(log: seq<Entry>, i: nat, k: nat) {
    && k < i <= |log| && (log[k].AuthReply? || log[k].StartReply?)
    && forall m :: k < m < i ==> !log[m].AuthReply? && !log[m].StartReply?
  }

  /** The Success that authorizes a start is the last answer about the attempt exactly when no earlier
      start of it was answered since. */
  lemma {:induction false} LastAnswerIsTheSuccess(log: seq<Entry>, i: nat, j: nat, k: nat, a: Attempt, user: string, session: Session)
    requires Authorized(log, i, j, k, a, user, session)
    ensures LastAnswerIs(log, i, k) <==> forall m :: k < m < i ==> !log[m].StartReply?
    ensures forall m :: k < m < i && log[m].StartReply? ==> !log[m].response.Success?
  {
  }

  /** A request with a later one was answered first. */
  lemma {:induction false} RequestIsAnswered(s: State, m: nat, i: nat)
    requires Paired(s) && m < i < |s.log| && IsRequest(s.log[m]) && IsRequest(s.log[i])
    ensures m + 1 < i && IsAnswer(s.log[m + 1]) && s.log[m + 1] == AnswerTo(s.log[m], s.log[m + 1].response)
  {
    assert IsAnsweredOrLast(s, m);
    assert Answered(s.log, m + 1);
  }

  /** A cancel requested between the begin and an authorized start was answered, and not with Success;
      so there was none at all exactly when no cancel was answered. */
  lemma {:induction false} CancelsBetweenWereRefused(s: State, i: nat, j: nat, k: nat)
    requires Paired(s) && i < |s.log| && s.log[i].StartSent?
    requires Authorized(s.log, i, j, k, s.log[i].attempt, s.log[i].user, s.log[i].session)
    ensures forall m :: j < m < i && s.log[m].CancelSent? ==> m + 1 < i && s.log[m + 1].CancelReply? && !s.log[m + 1].response.Success?
    ensures (forall m :: j < m < i ==> !s.log[m].CancelSent?) <==> (forall m :: j < m < i ==> !s.log[m].CancelReply?)
  {
    forall m | j < m < i && s.log[m].CancelSent?
      ensures m + 1 < i && s.log[m + 1].CancelReply? && !s.log[m + 1].response.Success?
    {
      RequestIsAnswered(s, m, i);
    }
    forall m | j < m < i && s.log[m].CancelReply?
      ensures j < m - 1 && s.log[m - 1].CancelSent?
    {
      assert Answered(s.log, m);
    }
  }

  /** The Success that authorizes a start answers the attempt's own last authentication request. */
  lemma {:induction false} SuccessAnswersLastRequest(s: State, i: nat, j: nat, k: nat)
    requires Paired(s) && i < |s.log| && s.log[i].StartSent?
    requires Authorized(s.log, i, j, k, s.log[i].attempt, s.log[i].user, s.log[i].session)
    ensures j < k - 1 && s.log[k - 1] == AuthSent(s.log[i].attempt)
    ensures forall m :: k <= m < i ==> !s.log[m].AuthSent?
  {
    assert Answered(s.log, k);
    forall m | k <= m < i ensures !s.log[m].AuthSent? {
      if IsRequest(s.log[m]) {
        RequestIsAnswered(s, m, i);
      }
    }
  }

  /** Both happen: after a refused cancel, and after a start that was answered with an error, the same
      attempt is started again. */
  lemma {:induction false} RefusedRequestsDoNotEndAnAttempt(user: string, session: Session)
    ensures
      var s := State(Greeter([user], [session], Some(0), 0, Idle, 1, 1), true, []);
      var refused := GreetdClient.Error(GreetdClient.OtherError, "");
      var begun := [Began(1, user, session), AuthSent(1), AuthReply(1, GreetdClient.Success)];
      && Run(s, [Begin(Replied(GreetdClient.Success)), Cancel(Replied(refused)), Start(1, Lost)]).log
         == begun + [CancelSent, CancelReply(refused), StartSent(1, user, session)]
      && Run(s, [Begin(Replied(GreetdClient.Success)), Start(1, Replied(refused)), Start(1, Lost)]).log
         == begun + [StartSent(1, user, session), StartReply(1, refused), StartSent(1, user, session)]
  {
    var s := State(Greeter([user], [session], Some(0), 0, Idle, 1, 1), true, []);
    var refused := GreetdClient.Error(GreetdClient.OtherError, "");
    var begin, cancel, start, last := Begin(Replied(GreetdClient.Success)), Cancel(Replied(refused)), Start(1, Replied(refused)), Start(1, Lost);
    var s1 := Take(s, begin);
    assert s1 == State(Greeter([user], [session], Some(0), 0, Authenticated(1), 2, 1), true,
                       [Began(1, user, session), AuthSent(1), AuthReply(1, GreetdClient.Success)]);
    RunThree(s, begin, cancel, last);
    RunThree(s, begin, start, last);
  }

  lemma {:induction false} RunThree(s: State, a: Step, b: Step, c: Step)
    requires Valid(s.model)
    ensures Valid(Take(s, a).model) && Valid(Take(Take(s, a), b).model)
    ensures Run(s, [a, b, c]) == Take(Take(Take(s, a), b), c)
  {
    TakeKeepsValid(s, a);
    TakeKeepsValid(Take(s, a), b);
    TakeKeepsValid(Take(Take(s, a), b), c);
    assert [a, b, c][1..] == [b, c] && [b, c][1..] == [c] && [c][1..] == [];
    assert Run(Take(Take(s, a), b), [c]) == Take(Take(Take(s, a), b), c);
    assert Run(Take(s, a), [b, c]) == Run(Take(Take(s, a), b), [c]);
  }

  // ---------------------------------------------------------------- Attempt ids

  function BeganCount(log: seq<Entry>): nat {
    if log == [] then 0 else BeganCount(log[..|log| - 1]) + if log[|log| - 1].Began? then 1 else 0
  }

  /** Number of attempt ids in one turn of the counter: every u64 value except zero. */
  const CYCLE := U64_MAX

  /** The id of the `n`-th attempt ever begun. */
  ghost function IdOf(n: nat): Attempt {
    if n == 0 then 1 else Successor(IdOf(n - 1))
  }

  lemma {:induction false} IdIsRemainder(n: nat)
    ensures IdOf(n) == n % CYCLE + 1
  {
    if n > 0 {
      IdIsRemainder(n - 1);
      RemainderSteps(n - 1);
      var previous := (n - 1) % CYCLE;
      assert IdOf(n) == if previous == CYCLE - 1 then 1 else previous + 2;
    }
  }

  lemma {:induction false} RemainderSteps(n: nat)
    ensures (n + 1) % CYCLE == if n % CYCLE == CYCLE - 1 then 0 else n % CYCLE + 1
  {
  }

  /** Attempts carry the ids in the order they were begun. */
  ghost predicate Numbered(s: State) {
    && s.model.nextAttempt == IdOf(BeganCount(s.log))
    && forall i :: 0 <= i < |s.log| && s.log[i].Began? ==> s.log[i].attempt == IdOf(BeganCount(s.log[..i]))
  }

  lemma {:induction false} NumberedExtends(s: State, entry: Entry, model: Greeter)
    requires Numbered(s)
    requires entry.Began? ==> entry.attempt == s.model.nextAttempt && model.nextAttempt == Successor(s.model.nextAttempt)
    requires !entry.Began? ==> model.nextAttempt == s.model.nextAttempt
    ensures Numbered(s.(model := model, log := s.log + [entry]))
  {
    var log' := s.log + [entry];
    assert log'[..|s.log|] == s.log;
    forall i | 0 <= i < |log'| && log'[i].Began?
      ensures log'[i].attempt == IdOf(BeganCount(log'[..i]))
    {
      assert i < |s.log| ==> log'[..i] == s.log[..i];
    }
  }

  lemma {:induction false} SendNumbered(s: State, request: Entry, exchange: Exchange, model: Greeter)
    requires Numbered(s) && IsRequest(request) && model.nextAttempt == s.model.nextAttempt
    ensures Numbered(Send(s, request, exchange).0.(model := model))
  {
    if s.usable && !exchange.Unencodable? {
      NumberedExtends(s, request, model);
      if exchange.Replied? {
        NumberedExtends(s.(model := model, log := s.log + [request]), AnswerTo(request, exchange.response), model);
      }
    }
  }

  lemma {:induction false} AuthExchangeNumbered(s: State, attempt: Attempt, exchange: Exchange)
    requires Numbered(s)
    ensures Numbered(AuthExchange(s, attempt, exchange))
  {
    SendNumbered(s, AuthSent(attempt), exchange, AuthExchange(s, attempt, exchange).model);
  }

  lemma {:induction false} StartNumbered(s: State, attempt: Attempt, exchange: Exchange)
    requires Valid(s.model) && Numbered(s)
    ensures Numbered(Take(s, Start(attempt, exchange)))
  {
    var r := StartSession(s.model, attempt);
    if r.Ok? {
      SendNumbered(s, StartSent(attempt, SelectedUser(s.model), r.value), exchange, Take(s, Start(attempt, exchange)).model);
    }
  }

  lemma {:induction false} BeginNumbered(s: State, exchange: Exchange)
    requires Valid(s.model) && Numbered(s)
    ensures Numbered(Take(s, Begin(exchange)))
  {
    var (g, r) := BeginAuthentication(s.model);
    if r.Ok? {
      var entry := Began(r.value.0, r.value.1, g.sessions[g.selectedSession]);
      assert g.nextAttempt == Successor(s.model.nextAttempt) && r.value.0 == s.model.nextAttempt;
      NumberedExtends(s, entry, g);
      AuthExchangeNumbered(s.(model := g, log := s.log + [entry]), r.value.0, exchange);
      assert Take(s, Begin(exchange)) == AuthExchange(s.(model := g, log := s.log + [entry]), r.value.0, exchange);
    }
  }

  lemma {:induction false} RespondNumbered(s: State, attempt: Attempt, hasResponse: bool, exchange: Exchange)
    requires Valid(s.model) && Numbered(s)
    ensures Numbered(Take(s, Respond(attempt, hasResponse, exchange)))
  {
    var (g, r) := ResponseSent(s.model, attempt, hasResponse);
    if r.Ok? {
      AuthExchangeNumbered(s.(model := g), attempt, exchange);
    }
  }

  lemma {:induction false} CancelNumbered(s: State, exchange: Exchange)
    requires Valid(s.model) && Numbered(s)
    ensures Numbered(Take(s, Cancel(exchange)))
  {
    SendNumbered(s, CancelSent, exchange, Take(s, Cancel(exchange)).model);
  }

  lemma {:induction false} SelectionNumbered(s: State, model: Greeter)
    requires Numbered(s) && model.nextAttempt == s.model.nextAttempt
    ensures Numbered(s.(model := model))
  {
  }

  lemma {:induction false} TakeNumbered(s: State, step: Step)
    requires Valid(s.model) && Numbered(s)
    ensures Numbered(Take(s, step))
  {
    match step
    case Begin(exchange) => BeginNumbered(s, exchange);
    case Respond(attempt, hasResponse, exchange) => RespondNumbered(s, attempt, hasResponse, exchange);
    case Start(attempt, exchange) => StartNumbered(s, attempt, exchange);
    case Cancel(exchange) => CancelNumbered(s, exchange);
    case ChooseUser(index) => SelectionNumbered(s, SelectUser(s.model, index).0);
    case ChooseSession(index) => SelectionNumbered(s, SelectSession(s.model, index).0);
  }

  lemma {:induction false} RunNumbered(s: State, steps: seq<Step>)
    requires Valid(s.model) && Numbered(s)
    ensures Numbered(Run(s, steps))
    decreases |steps|
  {
    if steps != [] {
      TakeNumbered(s, steps[0]);
      TakeKeepsValid(s, steps[0]);
      RunNumbered(Take(s, steps[0]), steps[1..]);
    }
  }

  lemma {:induction false} BeganCountGrows(log: seq<Entry>, i: nat, j: nat)
    requires i < j <= |log| && log[i].Began?
    ensures BeganCount(log[..i]) < BeganCount(log[..j])
    decreases j - i
  {
    assert log[..j][..j - 1] == log[..j - 1];
    if i < j - 1 {
      BeganCountGrows(log, i, j - 1);
    }
  }

  /** In every run, attempt ids are never zero, and two attempts share an id exactly when a whole
      number of turns of the 64-bit counter lies between them. */
  lemma {:induction false} AttemptIdsAreDistinct(s: State, i: nat, j: nat)
    requires Numbered(s) && i < j < |s.log| && s.log[i].Began? && s.log[j].Began?
    ensures 0 < s.log[i].attempt
    ensures BeganCount(s.log[..i]) < BeganCount(s.log[..j])
    ensures s.log[i].attempt == s.log[j].attempt <==> (BeganCount(s.log[..j]) - BeganCount(s.log[..i])) % CYCLE == 0
    ensures BeganCount(s.log) <= CYCLE ==> s.log[i].attempt != s.log[j].attempt
  {
    BeganCountGrows(s.log, i, j);
    BeganCountGrows(s.log, j, |s.log|);
    assert s.log[..|s.log|] == s.log;
    IdIsRemainder(BeganCount(s.log[..i]));
    IdIsRemainder(BeganCount(s.log[..j]));
    SameRemainder(BeganCount(s.log[..i]), BeganCount(s.log[..j]));
  }

  lemma {:induction false} SameRemainder(m: nat, n: nat)
    requires m < n
    ensures m % CYCLE == n % CYCLE <==> (n - m) % CYCLE == 0
    ensures n < CYCLE ==> m % CYCLE != n % CYCLE
  {
  }

  // ---------------------------------------------------------------- The retained object

  class Transaction {
    const model: GreeterState
    var usable: bool
    ghost var log: seq<Entry>

    ghost function View(): State
      reads this, model
    {
      State(model.View(), usable, log)
    }

    constructor (model: GreeterState)
      requires Valid(model.View()) && model.phase == Idle && model.nextAttempt == 1
      ensures this.model == model && View() == State(model.View(), true, [])
      ensures Safe(View()) && Numbered(View()) && Paired(View())
    {
      this.model, usable, log := model, true, [];
    }

    /** One request through the client: the answer, if the exchange yields one. */
    method Request(request: Entry, exchange: Exchange) returns (answer: Option<GreetdClient.Response>)
      requires IsRequest(request)
      modifies this
      ensures (View(), answer) == Send(old(View()), request, exchange)
    {
      if !usable || exchange.Unencodable? {
        return None;
      }
      log := log + [request];
      if exchange.Lost? {
        usable := false;
        return None;
      }
      log := log + [AnswerTo(request, exchange.response)];
      return Some(exchange.response);
    }

    method Apply(attempt: Attempt, response: GreetdClient.Response) returns (r: Result<()>)
      requires Valid(model.View())
      modifies model
      ensures (model.View(), r) == ApplyResponse(old(model.View()), attempt, response) && Valid(model.View())
    {
      match response
      case Success => r := model.Succeeded(attempt);
      case AuthMessage(kind, message) => r := model.AcceptPrompt(attempt, PromptOf(kind, message));
      case Error(kind, description) => r := model.Rejected(attempt, FailureText(kind, description));
    }

    method BeginAttempt(exchange: Exchange)
      requires Valid(model.View())
      modifies this, model
      ensures View() == Take(old(View()), Begin(exchange))
    {
      var r := model.Begin();
      if r.Err? {
        return;
      }
      log := log + [Began(r.value.0, r.value.1, model.sessions[model.selectedSession])];
      var answer := Request(AuthSent(r.value.0), exchange);
      if answer.Some? {
        var _ := Apply(r.value.0, answer.value);
      }
    }

    method Reply(attempt: Attempt, hasResponse: bool, exchange: Exchange)
      requires Valid(model.View())
      modifies this, model
      ensures View() == Take(old(View()), Respond(attempt, hasResponse, exchange))
    {
      var r := model.SentResponse(attempt, hasResponse);
      if r.Err? {
        return;
      }
      var answer := Request(AuthSent(attempt), exchange);
      if answer.Some? {
        var _ := Apply(attempt, answer.value);
      }
    }

    method Launch(attempt: Attempt, exchange: Exchange)
      requires Valid(model.View())
      modifies this, model
      ensures View() == Take(old(View()), Start(attempt, exchange))
    {
      var r := model.SessionToStart(attempt);
      if r.Err? {
        return;
      }
      var user := if model.selectedUser.Some? then model.users[model.selectedUser.value] else "";
      var answer := Request(StartSent(attempt, user, r.value), exchange);
      if answer == Some(GreetdClient.Success) {
        var _ := model.Started(attempt);
      }
    }

    method Abandon(exchange: Exchange)
      requires Valid(model.View())
      modifies this, model
      ensures View() == Take(old(View()), Cancel(exchange))
    {
      var answer := Request(CancelSent, exchange);
      if answer == Some(GreetdClient.Success) {
        model.Cancel();
      }
    }
  }

  /** Every run of the object, from a fresh model, starts only authorized sessions and numbers its
      attempts without repetition. */
  method Drive(t: Transaction, steps: seq<Step>)
    requires Valid(t.model.View()) && Safe(t.View()) && Numbered(t.View()) && Paired(t.View())
    modifies t, t.model
    ensures t.View() == Run(old(t.View()), steps) && Safe(t.View()) && Numbered(t.View()) && Paired(t.View())
  {
    ghost var start := t.View();
    for i := 0 to |steps|
      invariant Valid(t.model.View()) && Run(t.View(), steps[i..]) == Run(start, steps)
    {
      assert steps[i..][0] == steps[i] && steps[i..][1..] == steps[i + 1..];
      TakeKeepsValid(t.View(), steps[i]);
      match steps[i]
      case ChooseUser(index) => var _ := t.model.SetUser(index);
      case ChooseSession(index) => var _ := t.model.SetSession(index);
      case Begin(exchange) => t.BeginAttempt(exchange);
      case Respond(attempt, hasResponse, exchange) => t.Reply(attempt, hasResponse, exchange);
      case Start(attempt, exchange) => t.Launch(attempt, exchange);
      case Cancel(exchange) => t.Abandon(exchange);
    }
    assert steps[|steps|..] == [];
    StartsOnlyAuthorizedSessions(start, steps);
    RunNumbered(start, steps);
    RunPaired(start, steps);
  }
}
