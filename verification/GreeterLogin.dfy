/** What the greeter gets done: which prompts it answers and how, and the logins that go through. */
module GreeterLogin {
  import opened Basics
  import opened GreeterModel
  import opened GreeterTransaction
  import C = GreetdClient

  // ---------------------------------------------------------------- What an answer leads to

  /** The prompt shown has the kind the server named. */
  ghost predicate SameKind(kind: C.AuthMessageType, shown: PromptKind) {
    && (kind == C.Visible <==> shown == Visible)
    && (kind == C.Secret <==> shown == Secret)
    && (kind == C.Info <==> shown == Info)
    && (kind == C.ErrorText <==> shown == ErrorText)
  }

  /** The phase of attempt `a` shows this answer of the server. */
  ghost predicate Shows(g: Greeter, a: Attempt, r: C.Response) {
    match r
    case Success => g.phase == Authenticated(a)
    case Error(kind, description) => g.phase == Failed(if kind == C.AuthError then description else "greetd: " + description)
    case AuthMessage(kind, message) =>
      if Utf8Length(message) <= g.maxMessageBytes
      then g.phase.Prompting? && g.phase.attempt == a && SameKind(kind, g.phase.prompt.kind) && g.phase.prompt.message == message
      else g.phase == Waiting(a)
  }

  /** The server asked something that is to be answered with text. */
  predicate WantsText(r: C.Response) {
    r.AuthMessage? && (r.messageType == C.Visible || r.messageType == C.Secret)
  }

  predicate Asks(g: Greeter, r: C.Response) {
    r.AuthMessage? && Utf8Length(r.message) <= g.maxMessageBytes
  }

  lemma {:induction false} AnswerShows(s: State, a: Attempt, r: C.Response)
    requires s.usable && s.model.phase == Waiting(a)
    ensures
      var s' := AuthExchange(s, a, Replied(r));
      && Shows(s'.model, a, r) && s'.model == s.model.(phase := s'.model.phase)
      && s'.log == s.log + [AuthSent(a), AuthReply(a, r)] && s'.usable
  {
    assert s.log + [AuthSent(a)] + [AuthReply(a, r)] == s.log + [AuthSent(a), AuthReply(a, r)];
  }

  // ---------------------------------------------------------------- Which response a prompt takes

  /** The last answer about an attempt, at entry `k`, is the question its phase shows. */
  ghost predicate AskedAt(s: State, k: nat) {
    && s.model.phase.Prompting? && k < |s.log| && s.log[k].AuthReply? && s.log[k].attempt == s.model.phase.attempt
    && s.log[k].response.AuthMessage? && Shows(s.model, s.model.phase.attempt, s.log[k].response)
    && forall m :: k < m < |s.log| ==> !s.log[m].AuthReply?
  }

  ghost predicate Asked(s: State) {
    s.model.phase.Prompting? ==> exists k: nat :: AskedAt(s, k)
  }

  lemma {:induction false} AskedStays(s: State, s': State, more: seq<Entry>)
    requires Asked(s) && s'.model == s.model && s'.log == s.log + more
    requires forall i :: 0 <= i < |more| ==> !more[i].AuthReply?
    ensures Asked(s')
  {
    if s.model.phase.Prompting? {
      var k: nat :| AskedAt(s, k);
      assert AskedAt(s', k);
    }
  }

  lemma {:induction false} ExchangeAsked(s: State, a: Attempt, exchange: Exchange)
    requires s.model.phase == Waiting(a)
    ensures Asked(AuthExchange(s, a, exchange))
  {
    if s.usable && exchange.Replied? {
      AnswerShows(s, a, exchange.response);
      var s' := AuthExchange(s, a, exchange);
      if s'.model.phase.Prompting? {
        assert AskedAt(s', |s.log| + 1);
      }
    }
  }

  lemma {:induction false} TakeAsked(s: State, step: Step)
    requires Valid(s.model) && Asked(s)
    ensures Asked(Take(s, step))
  {
    var s' := Take(s, step);
    match step
    case Begin(exchange) =>
      var (g, r) := BeginAuthentication(s.model);
      if r.Ok? {
        ExchangeAsked(s.(model := g, log := s.log + [Began(r.value.0, r.value.1, g.sessions[g.selectedSession])]), r.value.0, exchange);
      }
    case Respond(attempt, hasResponse, exchange) =>
      var (g, r) := ResponseSent(s.model, attempt, hasResponse);
      if r.Ok? {
        ExchangeAsked(s.(model := g), attempt, exchange);
      }
    case Cancel(exchange) =>
      if s'.model == s.model && s'.log != s.log {
        AskedStays(s, s', s'.log[|s.log|..]);
      }
    case _ =>
  }

  lemma {:induction false} RunAsked(s: State, steps: seq<Step>)
    requires Valid(s.model) && Asked(s)
    ensures Valid(Run(s, steps).model) && Asked(Run(s, steps))
    decreases |steps|
  {
    if steps != [] {
      TakeAsked(s, steps[0]);
      TakeKeepsValid(s, steps[0]);
      RunAsked(Take(s, steps[0]), steps[1..]);
    }
  }

  /** What a step of the run wrote: the request it logged, if any. */
  ghost predicate Writes(s: State, step: Step, request: Entry)
    requires Valid(s.model)
  {
    s.log + [request] <= Take(s, step).log
  }

  /** In every run, on a usable connection and for an encodable request: while the server's last
      authentication answer is a question of attempt `a`, a response to it is written exactly if it
      names `a` and carries text exactly when the question is a visible or a secret one. Any other
      response leaves everything as it was. */
  lemma {:induction false} QuestionsTakeTheirResponse(g: Greeter, steps: seq<Step>, a: Attempt, hasResponse: bool, exchange: Exchange) returns (k: nat)
    requires Valid(g) && g.phase == Idle
    requires
      var s := Run(State(g, true, []), steps);
      s.model.phase.Prompting? && s.usable && !exchange.Unencodable?
    ensures Valid(Run(State(g, true, []), steps).model)
    ensures
      var s := Run(State(g, true, []), steps);
      var step := Respond(a, hasResponse, exchange);
      && AskedAt(s, k)
      && (Writes(s, step, AuthSent(a)) <==> a == s.log[k].attempt && hasResponse == WantsText(s.log[k].response))
      && (!Writes(s, step, AuthSent(a)) ==> Take(s, step) == s)
  {
    RunAsked(State(g, true, []), steps);
    var s := Run(State(g, true, []), steps);
    k :| AskedAt(s, k);
    var step := Respond(a, hasResponse, exchange);
    var s' := Take(s, step);
    if a == s.log[k].attempt && hasResponse == WantsText(s.log[k].response) {
      assert s'.log[..|s.log| + 1] == s.log + [AuthSent(a)];
    } else {
      assert s' == s;
    }
  }

  /** Outside a prompt no response is ever written. */
  lemma {:induction false} NoResponseUnasked(s: State, a: Attempt, hasResponse: bool, exchange: Exchange)
    requires Valid(s.model) && !s.model.phase.Prompting?
    ensures Take(s, Respond(a, hasResponse, exchange)) == s
  {
  }

  // ---------------------------------------------------------------- Conversations

  /** Requests and answers of an attempt, in order. */
  function Exchanges(a: Attempt, answers: seq<C.Response>): seq<Entry> {
    if answers == [] then [] else [AuthSent(a), AuthReply(a, answers[0])] + Exchanges(a, answers[1..])
  }

  /** Every question answered with text exactly when it wants text, each response leading to the
      server's next answer. */
  function Conversation(a: Attempt, answers: seq<C.Response>): seq<Step> {
    if |answers| < 2 then []
    else [Respond(a, WantsText(answers[0]), Replied(answers[1]))] + Conversation(a, answers[1..])
  }

  /** Questions the greeter can show, and then one last answer of any kind. */
  ghost predicate Dialogue(g: Greeter, answers: seq<C.Response>) {
    answers != [] && forall i :: 0 <= i < |answers| - 1 ==> Asks(g, answers[i])
  }

  lemma {:induction false} DialogueStays(g: Greeter, g': Greeter, answers: seq<C.Response>)
    requires Dialogue(g, answers) && g'.maxMessageBytes == g.maxMessageBytes
    ensures Dialogue(g', answers)
  {
    forall i | 0 <= i < |answers| - 1 ensures Asks(g', answers[i]) {
      assert Asks(g, answers[i]);
    }
  }

  lemma {:induction false} DialogueLater(g: Greeter, g': Greeter, answers: seq<C.Response>)
    requires Dialogue(g, answers) && |answers| > 1 && g'.maxMessageBytes == g.maxMessageBytes
    ensures Dialogue(g', answers[1..])
  {
    forall i | 0 <= i < |answers[1..]| - 1 ensures Asks(g', answers[1..][i]) {
      assert Asks(g, answers[i + 1]);
    }
  }

  lemma {:induction false} ExchangesStep(log: seq<Entry>, a: Attempt, answers: seq<C.Response>)
    requires answers != []
    ensures log + Exchanges(a, answers) == log + [AuthSent(a), AuthReply(a, answers[0])] + Exchanges(a, answers[1..])
  {
  }

  lemma {:induction false} RunSplits(s: State, front: seq<Step>, back: seq<Step>)
    requires Valid(s.model)
    ensures Valid(Run(s, front).model) && Run(s, front + back) == Run(Run(s, front), back)
    decreases |front|
  {
    if front == [] {
      assert front + back == back;
    } else {
      TakeKeepsValid(s, front[0]);
      assert (front + back)[1..] == front[1..] + back;
      RunSplits(Take(s, front[0]), front[1..], back);
    }
  }

  lemma {:induction false} RunOne(s: State, step: Step, rest: seq<Step>)
    requires Valid(s.model)
    ensures Valid(Take(s, step).model) && Run(s, [step] + rest) == Run(Take(s, step), rest)
  {
    TakeKeepsValid(s, step);
    assert ([step] + rest)[1..] == rest;
  }

  /** One question, answered as it wants to be, leads to the server's next answer. */
  lemma {:induction false} QuestionRuns(s: State, a: Attempt, question: C.Response, next: C.Response)
    requires s.usable && Valid(s.model) && Asks(s.model, question) && Shows(s.model, a, question)
    ensures
      var s' := Take(s, Respond(a, WantsText(question), Replied(next)));
      && Shows(s'.model, a, next) && s'.model == s.model.(phase := s'.model.phase)
      && s'.log == s.log + [AuthSent(a), AuthReply(a, next)] && s'.usable
  {
    var asked := s.(model := s.model.(phase := Waiting(a)));
    AnswerShows(asked, a, next);
    assert Take(s, Respond(a, WantsText(question), Replied(next))) == AuthExchange(asked, a, Replied(next));
  }

  /** Any sequence of questions is answered through to the last answer. */
  lemma {:induction false} ConversationRuns(s: State, a: Attempt, answers: seq<C.Response>)
    requires Valid(s.model) && s.usable && Dialogue(s.model, answers) && Shows(s.model, a, answers[0])
    ensures
      var s' := Run(s, Conversation(a, answers));
      && Shows(s'.model, a, answers[|answers| - 1]) && s'.model == s.model.(phase := s'.model.phase)
      && s'.log == s.log + Exchanges(a, answers[1..]) && s'.usable
    decreases |answers|
  {
    if |answers| == 1 {
      assert s.log + Exchanges(a, answers[1..]) == s.log;
    } else {
      var step, later := Respond(a, WantsText(answers[0]), Replied(answers[1])), answers[1..];
      assert Asks(s.model, answers[0]) && later[0] == answers[1];
      QuestionRuns(s, a, answers[0], answers[1]);
      RunOne(s, step, Conversation(a, later));
      var s1 := Take(s, step);
      DialogueLater(s.model, s1.model, answers);
      ConversationRuns(s1, a, later);
      ExchangesStep(s.log, a, later);
    }
  }

  // ---------------------------------------------------------------- Logging in

  function Chosen(g: Greeter, user: nat, session: nat, phase: Phase): Greeter {
    g.(selectedUser := Some(user), selectedSession := session, phase := phase)
  }

  /** Begin after choosing, with the server's first answer. */
  lemma {:induction false} BeginsChosen(s: State, user: nat, session: nat, answer: C.Response)
    requires Valid(s.model) && s.usable && (s.model.phase.Idle? || s.model.phase.Failed?)
    requires user < |s.model.users| && session < |s.model.sessions|
    ensures
      var a := s.model.nextAttempt;
      var s' := Run(s, [ChooseUser(user), ChooseSession(session), Begin(Replied(answer))]);
      && Valid(s'.model) && Shows(s'.model, a, answer) && s'.usable
      && s'.model == Chosen(s.model, user, session, s'.model.phase).(nextAttempt := Successor(a))
      && s'.log == s.log + [Began(a, s.model.users[user], s.model.sessions[session])] + [AuthSent(a), AuthReply(a, answer)]
  {
    var a := s.model.nextAttempt;
    var entry := Began(a, s.model.users[user], s.model.sessions[session]);
    RunThree(s, ChooseUser(user), ChooseSession(session), Begin(Replied(answer)));
    var chosen := s.(model := Chosen(s.model, user, session, s.model.phase));
    assert Take(Take(s, ChooseUser(user)), ChooseSession(session)) == chosen;
    var begun := chosen.(model := chosen.model.(nextAttempt := Successor(a), phase := Waiting(a)), log := s.log + [entry]);
    assert Take(chosen, Begin(Replied(answer))) == AuthExchange(begun, a, Replied(answer));
    AnswerShows(begun, a, answer);
  }

  /** All steps of a login before the session starts. */
  function Authenticating(a: Attempt, user: nat, session: nat, answers: seq<C.Response>): seq<Step>
    requires answers != []
  {
    [ChooseUser(user), ChooseSession(session), Begin(Replied(answers[0]))] + Conversation(a, answers)
  }

  /** From every state in which selections may change, for every user and session and whatever the
      server asks: the attempt carries that user and session, every question is answered, and the phase
      ends up showing the server's last answer. */
  lemma {:induction false} AttemptRuns(s: State, user: nat, session: nat, answers: seq<C.Response>)
    requires Valid(s.model) && s.usable && (s.model.phase.Idle? || s.model.phase.Failed?)
    requires user < |s.model.users| && session < |s.model.sessions| && Dialogue(s.model, answers)
    ensures
      var a := s.model.nextAttempt;
      var s' := Run(s, Authenticating(a, user, session, answers));
      && Valid(s'.model) && Shows(s'.model, a, answers[|answers| - 1]) && s'.usable
      && s'.model == Chosen(s.model, user, session, s'.model.phase).(nextAttempt := Successor(a))
      && s'.log == s.log + [Began(a, s.model.users[user], s.model.sessions[session])] + Exchanges(a, answers)
  {
    var a := s.model.nextAttempt;
    var first := [ChooseUser(user), ChooseSession(session), Begin(Replied(answers[0]))];
    BeginsChosen(s, user, session, answers[0]);
    var s1 := Run(s, first);
    RunSplits(s, first, Conversation(a, answers));
    DialogueStays(s.model, s1.model, answers);
    ConversationRuns(s1, a, answers);
    RunSplits(s1, Conversation(a, answers), []);
    var began := s.log + [Began(a, s.model.users[user], s.model.sessions[session])];
    ExchangesStep(began, a, answers);
  }

  /** A login goes through: questions of any number and kind, Success, and the session is started, all
      of it on the wire in this order. */
  lemma {:induction false} LoginRuns(s: State, user: nat, session: nat, answers: seq<C.Response>)
    requires Valid(s.model) && s.usable && (s.model.phase.Idle? || s.model.phase.Failed?)
    requires user < |s.model.users| && session < |s.model.sessions|
    requires Dialogue(s.model, answers) && answers[|answers| - 1] == C.Success
    ensures
      var a := s.model.nextAttempt;
      var name, chosen := s.model.users[user], s.model.sessions[session];
      var s' := Run(s, Authenticating(a, user, session, answers) + [Start(a, Replied(C.Success))]);
      && s'.model.phase == SessionStarted(a)
      && s'.log == s.log + [Began(a, name, chosen)] + Exchanges(a, answers) + [StartSent(a, name, chosen), StartReply(a, C.Success)]
  {
    var a := s.model.nextAttempt;
    var name, chosen := s.model.users[user], s.model.sessions[session];
    var start := Start(a, Replied(C.Success));
    AttemptRuns(s, user, session, answers);
    var s1 := Run(s, Authenticating(a, user, session, answers));
    RunSplits(s, Authenticating(a, user, session, answers), [start]);
    RunOne(s1, start, []);
    assert [start] + [] == [start];
    assert s1.log + [StartSent(a, name, chosen)] + [StartReply(a, C.Success)]
        == s1.log + [StartSent(a, name, chosen), StartReply(a, C.Success)];
  }

  /** The same from every state at all, once a cancel has been answered with Success. */
  lemma {:induction false} LoginRunsAfterCancel(s: State, user: nat, session: nat, answers: seq<C.Response>)
    requires Valid(s.model) && s.usable
    requires user < |s.model.users| && session < |s.model.sessions|
    requires Dialogue(s.model, answers) && answers[|answers| - 1] == C.Success
    ensures
      var a := s.model.nextAttempt;
      var name, chosen := s.model.users[user], s.model.sessions[session];
      var steps := [Cancel(Replied(C.Success))] + (Authenticating(a, user, session, answers) + [Start(a, Replied(C.Success))]);
      var s' := Run(s, steps);
      && s'.model.phase == SessionStarted(a)
      && s'.log == s.log + [CancelSent, CancelReply(C.Success)] + [Began(a, name, chosen)] + Exchanges(a, answers)
                   + [StartSent(a, name, chosen), StartReply(a, C.Success)]
  {
    var a := s.model.nextAttempt;
    var cancel := Cancel(Replied(C.Success));
    var s1 := Take(s, cancel);
    assert s1 == State(s.model.(phase := Idle), true, s.log + [CancelSent, CancelReply(C.Success)]) by {
      assert s.log + [CancelSent] + [CancelReply(C.Success)] == s.log + [CancelSent, CancelReply(C.Success)];
    }
    RunOne(s, cancel, Authenticating(a, user, session, answers) + [Start(a, Replied(C.Success))]);
    DialogueStays(s.model, s1.model, answers);
    LoginRuns(s1, user, session, answers);
  }

  /** A rejected attempt shows the server's words, and no session is started with it. */
  lemma {:induction false} RejectionRuns(s: State, user: nat, session: nat, answers: seq<C.Response>, exchange: Exchange)
    requires Valid(s.model) && s.usable && (s.model.phase.Idle? || s.model.phase.Failed?)
    requires user < |s.model.users| && session < |s.model.sessions|
    requires Dialogue(s.model, answers) && answers[|answers| - 1].Error?
    ensures
      var a := s.model.nextAttempt;
      var last := answers[|answers| - 1];
      var s' := Run(s, Authenticating(a, user, session, answers));
      && s'.model.phase == Failed(if last.errorType == C.AuthError then last.description else "greetd: " + last.description)
      && Valid(s'.model) && Take(s', Start(a, exchange)) == s'
  {
    AttemptRuns(s, user, session, answers);
  }

  /** The usual login: one password prompt, answered with text. */
  lemma {:induction false} PasswordLogin(s: State, user: nat, session: nat, message: string)
    requires Valid(s.model) && s.usable && (s.model.phase.Idle? || s.model.phase.Failed?)
    requires user < |s.model.users| && session < |s.model.sessions| && Utf8Length(message) <= s.model.maxMessageBytes
    ensures
      var a, name, chosen := s.model.nextAttempt, s.model.users[user], s.model.sessions[session];
      var password := C.AuthMessage(C.Secret, message);
      var steps := [ChooseUser(user), ChooseSession(session), Begin(Replied(password)),
                    Respond(a, true, Replied(C.Success)), Start(a, Replied(C.Success))];
      && Run(s, steps).model.phase == SessionStarted(a)
      && Run(s, steps).log == s.log + [Began(a, name, chosen), AuthSent(a), AuthReply(a, password), AuthSent(a), AuthReply(a, C.Success),
                                       StartSent(a, name, chosen), StartReply(a, C.Success)]
  {
    var a, name, chosen := s.model.nextAttempt, s.model.users[user], s.model.sessions[session];
    var password := C.AuthMessage(C.Secret, message);
    var answers := [password, C.Success];
    LoginRuns(s, user, session, answers);
    OneQuestion(a, user, session, password);
    var exchanges := [AuthSent(a), AuthReply(a, password), AuthSent(a), AuthReply(a, C.Success)];
    assert s.log + [Began(a, name, chosen)] + exchanges + [StartSent(a, name, chosen), StartReply(a, C.Success)]
        == s.log + [Began(a, name, chosen), AuthSent(a), AuthReply(a, password), AuthSent(a), AuthReply(a, C.Success),
                    StartSent(a, name, chosen), StartReply(a, C.Success)];
  }

  lemma {:induction false} OneQuestion(a: Attempt, user: nat, session: nat, question: C.Response)
    ensures Authenticating(a, user, session, [question, C.Success]) + [Start(a, Replied(C.Success))]
         == [ChooseUser(user), ChooseSession(session), Begin(Replied(question)),
             Respond(a, WantsText(question), Replied(C.Success)), Start(a, Replied(C.Success))]
    ensures Exchanges(a, [question, C.Success]) == [AuthSent(a), AuthReply(a, question), AuthSent(a), AuthReply(a, C.Success)]
  {
    var last := [question, C.Success][1..];
    assert last == [C.Success] && last[1..] == [];
    assert Conversation(a, last) == [] && Exchanges(a, last[1..]) == [];
    assert Exchanges(a, last) == [AuthSent(a), AuthReply(a, C.Success)];
  }

}
