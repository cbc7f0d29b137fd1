/** The phase machine of the greeter's model, over every sequence of its operations. */
module GreeterPhases {
  import opened Basics
  import opened GreeterModel

  datatype Op =
    | UseUser(index: nat)
    | UseSession(index: nat)
    | BeginAttempt
    | ShowPrompt(attempt: Attempt, prompt: Prompt)
    | SendResponse(attempt: Attempt, hadResponse: bool)
    | Succeed(attempt: Attempt)
    | Fail(attempt: Attempt, message: string)
    | Launch(attempt: Attempt)
    | CancelAll

  function ErrorOf<T>(r: Result<T>): Option<ModelError> {
    if r.Err? then Some(r.error) else None
  }

  function Do(g: Greeter, op: Op): (Greeter, Option<ModelError>)
    requires Valid(g)
  {
    match op
    case UseUser(index) => var (g', r) := SelectUser(g, index); (g', ErrorOf(r))
    case UseSession(index) => var (g', r) := SelectSession(g, index); (g', ErrorOf(r))
    case BeginAttempt => var (g', r) := BeginAuthentication(g); (g', ErrorOf(r))
    case ShowPrompt(attempt, prompt) => var (g', r) := ReceivePrompt(g, attempt, prompt); (g', ErrorOf(r))
    case SendResponse(attempt, hadResponse) => var (g', r) := ResponseSent(g, attempt, hadResponse); (g', ErrorOf(r))
    case Succeed(attempt) => var (g', r) := AuthenticationSucceeded(g, attempt); (g', ErrorOf(r))
    case Fail(attempt, message) => var (g', r) := AuthenticationFailed(g, attempt, message); (g', ErrorOf(r))
    case Launch(attempt) => var (g', r) := MarkStarted(g, attempt); (g', ErrorOf(r))
    case CancelAll => (CancelAttempt(g), None)
  }

  lemma {:induction false} DoKeepsValid(g: Greeter, op: Op)
    requires Valid(g)
    ensures Valid(Do(g, op).0) && Do(g, op).0.users == g.users && Do(g, op).0.sessions == g.sessions
  {
  }

  function RunOps(g: Greeter, ops: seq<Op>): (r: Greeter)
    requires Valid(g)
    ensures Valid(r)
  {
    if ops == [] then g
    else
      var before := RunOps(g, ops[..|ops| - 1]);
      DoKeepsValid(before, ops[|ops| - 1]);
      Do(before, ops[|ops| - 1]).0
  }

  /** The attempt under way, if any. */
  function CurrentAttempt(phase: Phase): Option<Attempt> {
    match phase
    case Waiting(a) => Some(a)
    case Prompting(a, _) => Some(a)
    case Authenticated(a) => Some(a)
    case SessionStarted(a) => Some(a)
    case _ => None
  }

  function NamedAttempt(op: Op): Option<Attempt> {
    match op
    case ShowPrompt(a, _) => Some(a)
    case SendResponse(a, _) => Some(a)
    case Succeed(a) => Some(a)
    case Fail(a, _) => Some(a)
    case Launch(a) => Some(a)
    case _ => None
  }

  /** An operation that names an attempt other than the one under way changes nothing and errs. */
  lemma {:induction false} StaleOperationChangesNothing(g: Greeter, op: Op)
    requires Valid(g) && NamedAttempt(op).Some? && NamedAttempt(op) != CurrentAttempt(g.phase)
    ensures Do(g, op).0 == g && Do(g, op).1.Some?
  {
  }

  /** Attempt `a` awaits an answer of the server, shows a question or has been authenticated. */
  predicate Underway(phase: Phase, a: Attempt) {
    phase == Waiting(a) || phase == Authenticated(a) || (phase.Prompting? && phase.attempt == a)
  }

  /** Which operations each phase takes, without reference to the operations themselves. */
  predicate Takes(g: Greeter, op: Op) {
    match op
    case UseUser(index) => (g.phase.Idle? || g.phase.Failed?) && index < |g.users|
    case UseSession(index) => (g.phase.Idle? || g.phase.Failed?) && index < |g.sessions|
    case BeginAttempt => (g.phase.Idle? || g.phase.Failed?) && g.selectedUser.Some?
    case ShowPrompt(a, prompt) => Underway(g.phase, a) && Utf8Length(prompt.message) <= g.maxMessageBytes
    case SendResponse(a, hadResponse) =>
      && g.phase.Prompting? && g.phase.attempt == a
      && (if hadResponse then g.phase.prompt.kind in {Visible, Secret} else g.phase.prompt.kind in {Info, ErrorText})
    case Succeed(a) => Underway(g.phase, a)
    case Fail(a, _) => Underway(g.phase, a)
    case Launch(a) => g.phase == Authenticated(a)
    case CancelAll => true
  }

  /** The phase an operation that is taken leads to. */
  function Leads(g: Greeter, op: Op): Phase {
    match op
    case UseUser(_) => g.phase
    case UseSession(_) => g.phase
    case BeginAttempt => Waiting(g.nextAttempt)
    case ShowPrompt(a, prompt) => Prompting(a, prompt)
    case SendResponse(a, _) => Waiting(a)
    case Succeed(a) => Authenticated(a)
    case Fail(_, message) => Failed(message)
    case Launch(a) => SessionStarted(a)
    case CancelAll => Idle
  }

  /** Every operation is taken exactly when its phase takes it, then leads to its phase, changes no more
      than its selection or the attempt counter, and otherwise changes nothing. */
  lemma {:induction false} OperationsExactly(g: Greeter, op: Op)
    requires Valid(g)
    ensures Do(g, op).1.None? <==> Takes(g, op)
    ensures !Takes(g, op) ==> Do(g, op).0 == g
    ensures Takes(g, op) ==> Do(g, op).0 == g.(
      phase := Leads(g, op),
      selectedUser := if op.UseUser? then Some(op.index) else g.selectedUser,
      selectedSession := if op.UseSession? then op.index else g.selectedSession,
      nextAttempt := if op.BeginAttempt? then (if g.nextAttempt == 0xffff_ffff_ffff_ffff then 1 else g.nextAttempt + 1) else g.nextAttempt)
  {
  }

  /** Why an operation is refused. */
  lemma {:induction false} RefusalsExactly(g: Greeter, op: Op)
    requires Valid(g) && !Takes(g, op)
    ensures Do(g, op).1.Some?
    ensures Do(g, op).1.value == SelectionLocked <==> (op.UseUser? || op.UseSession? || op.BeginAttempt?) && !g.phase.Idle? && !g.phase.Failed?
    ensures Do(g, op).1.value == StaleAttempt <==>
      && NamedAttempt(op).Some? && CurrentAttempt(g.phase).Some? && NamedAttempt(op) != CurrentAttempt(g.phase)
      && (if op.SendResponse? then g.phase.Prompting? else if op.Launch? then g.phase.Authenticated? else !g.phase.SessionStarted?)
    ensures Do(g, op).1.value == UnexpectedPromptResponse <==> op.SendResponse? && g.phase.Prompting? && g.phase.attempt == op.attempt
    ensures Do(g, op).1.value == AuthMessageTooLarge <==> op.ShowPrompt? && Underway(g.phase, op.attempt)
    ensures Do(g, op).1.value == UnknownUser <==> op.UseUser? && (g.phase.Idle? || g.phase.Failed?)
    ensures Do(g, op).1.value == UnknownSession <==> op.UseSession? && (g.phase.Idle? || g.phase.Failed?)
    ensures Do(g, op).1.value == NoSelectedUser <==> op.BeginAttempt? && (g.phase.Idle? || g.phase.Failed?)
  {
  }

  /** Neither a cancel nor a reported failure of the attempt. */
  predicate Keeps(op: Op, a: Attempt) {
    op != CancelAll && !(op.Fail? && op.attempt == a)
  }

  lemma {:induction false} StepKeepsAttempt(g: Greeter, op: Op, a: Attempt)
    requires Valid(g) && CurrentAttempt(g.phase) == Some(a) && Keeps(op, a)
    ensures var g' := Do(g, op).0;
      && CurrentAttempt(g'.phase) == Some(a) && g'.nextAttempt == g.nextAttempt
      && g'.selectedUser == g.selectedUser && g'.selectedSession == g.selectedSession
      && (g.phase.SessionStarted? ==> g' == g)
  {
  }

  /** Through any operations without a cancel and without a failure of the attempt under way, that
      attempt stays under way and user and session stay frozen. */
  lemma {:induction false} SelectionsAreFrozen(g: Greeter, ops: seq<Op>, a: Attempt)
    requires Valid(g) && CurrentAttempt(g.phase) == Some(a) && forall i :: 0 <= i < |ops| ==> Keeps(ops[i], a)
    ensures var g' := RunOps(g, ops);
      && CurrentAttempt(g'.phase) == Some(a) && g'.nextAttempt == g.nextAttempt
      && g'.selectedUser == g.selectedUser && g'.selectedSession == g.selectedSession
      && (g.phase.SessionStarted? ==> g' == g)
  {
    if ops != [] {
      SelectionsAreFrozen(g, ops[..|ops| - 1], a);
      StepKeepsAttempt(RunOps(g, ops[..|ops| - 1]), ops[|ops| - 1], a);
    }
  }

  /** A started session is left only by a cancel. */
  lemma {:induction false} StartedUntilCancelled(g: Greeter, ops: seq<Op>)
    requires Valid(g) && g.phase.SessionStarted? && forall i :: 0 <= i < |ops| ==> ops[i] != CancelAll
    ensures RunOps(g, ops) == g
  {
    if ops != [] {
      StartedUntilCancelled(g, ops[..|ops| - 1]);
    }
  }

  ghost predicate PromptFits(g: Greeter) {
    g.phase.Prompting? ==> Utf8Length(g.phase.prompt.message) <= g.maxMessageBytes
  }

  /** No retained prompt ever exceeds the byte limit. */
  lemma {:induction false} PromptsAreBounded(g: Greeter, ops: seq<Op>)
    requires Valid(g) && PromptFits(g)
    ensures PromptFits(RunOps(g, ops)) && RunOps(g, ops).maxMessageBytes == g.maxMessageBytes
  {
    if ops != [] {
      PromptsAreBounded(g, ops[..|ops| - 1]);
    }
  }

  ghost predicate IssuedBy(before: Greeter, a: Attempt, g': Greeter) {
    && SelectionMutable(before.phase) && before.nextAttempt == a
    && before.selectedUser.Some? && before.selectedUser == g'.selectedUser && before.selectedSession == g'.selectedSession
  }

  /** Operation `b` began attempt `a` with the selections of `g'`, and nothing since has ended it. */
  ghost predicate BegunAt(g: Greeter, ops: seq<Op>, b: nat, a: Attempt, g': Greeter)
    requires Valid(g)
  {
    && b < |ops| && ops[b] == BeginAttempt
    && IssuedBy(RunOps(g, ops[..b]), a, g')
    && forall m :: b < m < |ops| ==> Keeps(ops[m], a) || RefusedAt(g, ops, m)
  }

  /** The operation was refused and changed nothing: a failure reported after the session started. */
  ghost predicate RefusedAt(g: Greeter, ops: seq<Op>, m: nat)
    requires Valid(g) && m < |ops|
  {
    ops[m] != CancelAll && Do(RunOps(g, ops[..m]), ops[m]).1.Some?
  }

  lemma {:induction false} NewAttempt(g: Greeter, op: Op, a: Attempt)
    requires Valid(g) && CurrentAttempt(Do(g, op).0.phase) == Some(a) && CurrentAttempt(g.phase) != Some(a)
    ensures op == BeginAttempt && IssuedBy(g, a, Do(g, op).0)
  {
  }

  lemma {:induction false} SameAttempt(g: Greeter, op: Op, a: Attempt)
    requires Valid(g) && CurrentAttempt(g.phase) == Some(a) && CurrentAttempt(Do(g, op).0.phase) == Some(a)
    ensures Keeps(op, a) || (op != CancelAll && Do(g, op).1.Some?)
    ensures Do(g, op).0.selectedUser == g.selectedUser && Do(g, op).0.selectedSession == g.selectedSession
    ensures Do(g, op).0.phase.Authenticated? ==> g.phase.Authenticated? || op == Succeed(a)
    ensures Do(g, op).0.phase.SessionStarted? ==> g.phase.SessionStarted? || (g.phase.Authenticated? && op == Launch(a))
  {
  }

  ghost predicate Happened(ops: seq<Op>, after: nat, op: Op) {
    exists c :: after < c < |ops| && ops[c] == op
  }

  /** The phase was reached by the attempt's own success, and by its own launch after that. */
  ghost predicate ReachedBy(ops: seq<Op>, b: nat, a: Attempt, phase: Phase) {
    && (phase.Authenticated? ==> Happened(ops, b, Succeed(a)))
    && (phase.SessionStarted? ==> exists c: nat :: b < c < |ops| && ops[c] == Succeed(a) && Happened(ops, c, Launch(a)))
  }

  lemma {:induction false} HappenedSnoc(ops: seq<Op>, op: Op, after: nat, what: Op)
    requires after < |ops|
    ensures Happened(ops + [op], after, what) <==> Happened(ops, after, what) || op == what
  {
    var more := ops + [op];
    assert more[|ops|] == op && forall m :: 0 <= m < |ops| ==> more[m] == ops[m];
  }

  lemma {:induction false} ReachedStays(ops: seq<Op>, op: Op, b: nat, a: Attempt, phase: Phase, phase': Phase)
    requires b < |ops| && ReachedBy(ops, b, a, phase)
    requires phase'.Authenticated? ==> phase.Authenticated? || op == Succeed(a)
    requires phase'.SessionStarted? ==> phase.SessionStarted? || (phase.Authenticated? && op == Launch(a))
    ensures ReachedBy(ops + [op], b, a, phase')
  {
    HappenedSnoc(ops, op, b, Succeed(a));
    if phase'.SessionStarted? {
      var c: nat :| b < c < |ops| && ops[c] == Succeed(a) && (phase.SessionStarted? ==> Happened(ops, c, Launch(a)));
      HappenedSnoc(ops, op, c, Launch(a));
      assert (ops + [op])[c] == Succeed(a);
    }
  }

  /** Where a phase comes from: whenever an attempt is under way, some Begin issued it with the present
      selections and nothing since cancelled or failed it; authenticated only by its own success, and
      started only by its own launch after that. */
  lemma {:induction false} OriginOfAttempt(g: Greeter, ops: seq<Op>, a: Attempt) returns (b: nat)
    requires Valid(g) && CurrentAttempt(g.phase).None? && CurrentAttempt(RunOps(g, ops).phase) == Some(a)
    ensures BegunAt(g, ops, b, a, RunOps(g, ops)) && ReachedBy(ops, b, a, RunOps(g, ops).phase)
  {
    var n := |ops| - 1;
    var front, op := ops[..n], ops[n];
    var before := RunOps(g, front);
    assert ops == front + [op];
    if CurrentAttempt(before.phase) == Some(a) {
      b := OriginOfAttempt(g, front, a);
      SameAttempt(before, op, a);
      BegunStays(g, front, op, b, a);
      ReachedStays(front, op, b, a, before.phase, RunOps(g, ops).phase);
    } else {
      b := n;
      NewAttempt(before, op, a);
    }
  }

  lemma {:induction false} BegunStays(g: Greeter, front: seq<Op>, op: Op, b: nat, a: Attempt)
    requires Valid(g) && BegunAt(g, front, b, a, RunOps(g, front))
    requires Keeps(op, a) || (op != CancelAll && Do(RunOps(g, front), op).1.Some?)
    requires var before, after := RunOps(g, front), Do(RunOps(g, front), op).0;
      after.selectedUser == before.selectedUser && after.selectedSession == before.selectedSession
    ensures BegunAt(g, front + [op], b, a, RunOps(g, front + [op]))
  {
    var ops := front + [op];
    assert ops[..|front|] == front && ops[..b] == front[..b];
    forall m | b < m < |ops| ensures Keeps(ops[m], a) || RefusedAt(g, ops, m) {
      if m < |front| {
        assert ops[m] == front[m] && ops[..m] == front[..m];
      }
    }
  }
}
