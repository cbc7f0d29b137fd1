/** The greeter's authentication state: selections, the current attempt and its phase. */
module GreeterModel {
  import opened Basics

  const MAX_USERS := 256
  const MAX_SESSIONS := 64
  const MAX_AUTH_MESSAGE_BYTES := 16384
  const U64_MAX := 0xffff_ffff_ffff_ffff

  type Attempt = a: nat | a <= U64_MAX

  datatype PromptKind = Visible | Secret | Info | ErrorText
  datatype Prompt = Prompt(kind: PromptKind, message: string)
  datatype Session = Session(id: string, command: seq<string>, environment: seq<string>)

  datatype Phase =
    | Idle
    | Waiting(attempt: Attempt)
    | Prompting(attempt: Attempt, prompt: Prompt)
    | Authenticated(attempt: Attempt)
    | SessionStarted(attempt: Attempt)
    | Failed(message: string)

  datatype ModelError =
    | TooManyUsers | InvalidSessionCount | InvalidMessageLimit
    | UnknownUser | UnknownSession | NoSelectedUser | SelectionLocked
    | StaleAttempt | InvalidTransition | UnexpectedPromptResponse | AuthMessageTooLarge

  datatype Result<+T> = Ok(value: T) | Err(error: ModelError)

  datatype Greeter = Greeter(
    users: seq<string>,
    sessions: seq<Session>,
    selectedUser: Option<nat>,
    selectedSession: nat,
    phase: Phase,
    nextAttempt: Attempt,
    maxMessageBytes: nat)

  function RequiresResponse(kind: PromptKind): bool {
    kind == Visible || kind == Secret
  }

  /** Length of a string in UTF-8 bytes. */
  function Utf8Length(s: string): nat {
    if s == [] then 0 else
      var c := s[0] as int;
      (if c < 0x80 then 1 else if c < 0x800 then 2 else if c < 0x10000 then 3 else 4) + Utf8Length(s[1..])
  }

  lemma {:induction false} Utf8LengthAdds(s: string, t: string)
    ensures Utf8Length(s + t) == Utf8Length(s) + Utf8Length(t)
  {
    if s == [] {
      assert s + t == t;
    } else {
      assert (s + t)[1..] == s[1..] + t;
      Utf8LengthAdds(s[1..], t);
    }
  }

  /** Characters up to U+007F take one byte, up to U+07FF two, up to U+FFFF three, and the others four. */
  lemma {:induction false} Utf8LengthOfRun(s: string, width: nat)
    requires 1 <= width <= 4
    requires forall i :: 0 <= i < |s| ==>
      match width
      case 1 => s[i] as int <= 0x7f
      case 2 => 0x80 <= s[i] as int <= 0x7ff
      case 3 => 0x800 <= s[i] as int <= 0xffff
      case _ => 0x10000 <= s[i] as int
    ensures Utf8Length(s) == width * |s|
  {
    if s != [] {
      Utf8LengthOfRun(s[1..], width);
    }
  }

  predicate Valid(g: Greeter) {
    && (g.selectedUser.Some? ==> g.selectedUser.value < |g.users|)
    && g.selectedSession < |g.sessions|
    && g.nextAttempt >= 1
  }

  // ---------------------------------------------------------------- Transitions

  predicate SelectionMutable(phase: Phase) {
    phase.Idle? || phase.Failed?
  }

  function CheckAttempt(phase: Phase, attempt: Attempt): Option<ModelError> {
    match phase
    case Waiting(a) => if a == attempt then None else Some(StaleAttempt)
    case Prompting(a, _) => if a == attempt then None else Some(StaleAttempt)
    case Authenticated(a) => if a == attempt then None else Some(StaleAttempt)
    case _ => Some(InvalidTransition)
  }

  /** `next_attempt.wrapping_add(1).max(1)`. */
  function Successor(attempt: Attempt): Attempt {
    if attempt == U64_MAX then 1 else attempt + 1
  }

  function SelectUser(g: Greeter, index: nat): (Greeter, Result<()>) {
    if !SelectionMutable(g.phase) then (g, Err(SelectionLocked))
    else if index >= |g.users| then (g, Err(UnknownUser))
    else (g.(selectedUser := Some(index)), Ok(()))
  }

  function SelectSession(g: Greeter, index: nat): (Greeter, Result<()>) {
    if !SelectionMutable(g.phase) then (g, Err(SelectionLocked))
    else if index >= |g.sessions| then (g, Err(UnknownSession))
    else (g.(selectedSession := index), Ok(()))
  }

  function BeginAuthentication(g: Greeter): (Greeter, Result<(Attempt, string)>)
    requires Valid(g)
  {
    if !SelectionMutable(g.phase) then (g, Err(SelectionLocked))
    else if g.selectedUser.None? then (g, Err(NoSelectedUser))
    else (g.(nextAttempt := Successor(g.nextAttempt), phase := Waiting(g.nextAttempt)),
          Ok((g.nextAttempt, g.users[g.selectedUser.value])))
  }

  function ReceivePrompt(g: Greeter, attempt: Attempt, prompt: Prompt): (Greeter, Result<()>) {
    match CheckAttempt(g.phase, attempt)
    case Some(e) => (g, Err(e))
    case None =>
      if Utf8Length(prompt.message) > g.maxMessageBytes then (g, Err(AuthMessageTooLarge))
      else (g.(phase := Prompting(attempt, prompt)), Ok(()))
  }

  function ResponseSent(g: Greeter, attempt: Attempt, hadResponse: bool): (Greeter, Result<()>) {
    if !g.phase.Prompting? then (g, Err(InvalidTransition))
    else if g.phase.attempt != attempt then (g, Err(StaleAttempt))
    else if RequiresResponse(g.phase.prompt.kind) != hadResponse then (g, Err(UnexpectedPromptResponse))
    else (g.(phase := Waiting(attempt)), Ok(()))
  }

  function AuthenticationSucceeded(g: Greeter, attempt: Attempt): (Greeter, Result<()>) {
    match CheckAttempt(g.phase, attempt)
    case Some(e) => (g, Err(e))
    case None => (g.(phase := Authenticated(attempt)), Ok(()))
  }

  function AuthenticationFailed(g: Greeter, attempt: Attempt, message: string): (Greeter, Result<()>) {
    match CheckAttempt(g.phase, attempt)
    case Some(e) => (g, Err(e))
    case None => (g.(phase := Failed(message)), Ok(()))
  }

  function StartSession(g: Greeter, attempt: Attempt): Result<Session>
    requires Valid(g)
  {
    if !g.phase.Authenticated? then Err(InvalidTransition)
    else if g.phase.attempt != attempt then Err(StaleAttempt)
    else Ok(g.sessions[g.selectedSession])
  }

  function MarkStarted(g: Greeter, attempt: Attempt): (Greeter, Result<()>) {
    if !g.phase.Authenticated? then (g, Err(InvalidTransition))
    else if g.phase.attempt != attempt then (g, Err(StaleAttempt))
    else (g.(phase := SessionStarted(attempt)), Ok(()))
  }

  function CancelAttempt(g: Greeter): Greeter {
    g.(phase := Idle)
  }

  // ---------------------------------------------------------------- The retained object

  class GreeterState {
    const users: seq<string>
    const sessions: seq<Session>
    const maxMessageBytes: nat
    var selectedUser: Option<nat>
    var selectedSession: nat
    var phase: Phase
    var nextAttempt: Attempt

    ghost function View(): Greeter
      reads this
    {
      Greeter(users, sessions, selectedUser, selectedSession, phase, nextAttempt, maxMessageBytes)
    }

    constructor (users: seq<string>, sessions: seq<Session>, maxMessageBytes: nat)
      requires 0 < |sessions|
      ensures View() == Greeter(users, sessions, if users == [] then None else Some(0), 0, Idle, 1, maxMessageBytes)
      ensures Valid(View())
    {
      this.users, this.sessions, this.maxMessageBytes := users, sessions, maxMessageBytes;
      selectedUser := if users == [] then None else Some(0);
      selectedSession, phase, nextAttempt := 0, Idle, 1;
    }

    /** `GreeterModel::new`: the bounds on users, sessions and message size. */
    static method Create(users: seq<string>, sessions: seq<Session>, maxMessageBytes: nat) returns (state: GreeterState?, error: Option<ModelError>)
      ensures error == if |users| > 256 then Some(TooManyUsers)
                       else if sessions == [] || |sessions| > 64 then Some(InvalidSessionCount)
                       else if maxMessageBytes == 0 || maxMessageBytes > 16384 then Some(InvalidMessageLimit)
                       else None
      ensures state != null <==> error.None?
      ensures state != null ==>
        && fresh(state) && Valid(state.View())
        && state.View() == Greeter(users, sessions, if users == [] then None else Some(0), 0, Idle, 1, maxMessageBytes)
    {
      if |users| > MAX_USERS {
        return null, Some(TooManyUsers);
      }
      if sessions == [] || |sessions| > MAX_SESSIONS {
        return null, Some(InvalidSessionCount);
      }
      if maxMessageBytes == 0 || maxMessageBytes > MAX_AUTH_MESSAGE_BYTES {
        return null, Some(InvalidMessageLimit);
      }
      error := None;
      state := new GreeterState(users, sessions, maxMessageBytes);
    }

    method SetUser(index: nat) returns (r: Result<()>)
      requires Valid(View())
      modifies this
      ensures (View(), r) == SelectUser(old(View()), index) && Valid(View())
    {
      if !SelectionMutable(phase) {
        return Err(SelectionLocked);
      }
      if index >= |users| {
        return Err(UnknownUser);
      }
      selectedUser := Some(index);
      return Ok(());
    }

    method SetSession(index: nat) returns (r: Result<()>)
      requires Valid(View())
      modifies this
      ensures (View(), r) == SelectSession(old(View()), index) && Valid(View())
    {
      if !SelectionMutable(phase) {
        return Err(SelectionLocked);
      }
      if index >= |sessions| {
        return Err(UnknownSession);
      }
      selectedSession := index;
      return Ok(());
    }

    method Begin() returns (r: Result<(Attempt, string)>)
      requires Valid(View())
      modifies this
      ensures (View(), r) == BeginAuthentication(old(View())) && Valid(View())
    {
      if !SelectionMutable(phase) {
        return Err(SelectionLocked);
      }
      if selectedUser.None? {
        return Err(NoSelectedUser);
      }
      var attempt := nextAttempt;
      nextAttempt := Successor(nextAttempt);
      phase := Waiting(attempt);
      return Ok((attempt, users[selectedUser.value]));
    }

    method AcceptPrompt(attempt: Attempt, prompt: Prompt) returns (r: Result<()>)
      requires Valid(View())
      modifies this
      ensures (View(), r) == ReceivePrompt(old(View()), attempt, prompt) && Valid(View())
    {
      var stale := CheckAttempt(phase, attempt);
      if stale.Some? {
        return Err(stale.value);
      }
      if Utf8Length(prompt.message) > maxMessageBytes {
        return Err(AuthMessageTooLarge);
      }
      phase := Prompting(attempt, prompt);
      return Ok(());
    }

    method SentResponse(attempt: Attempt, hadResponse: bool) returns (r: Result<()>)
      requires Valid(View())
      modifies this
      ensures (View(), r) == ResponseSent(old(View()), attempt, hadResponse) && Valid(View())
    {
      if !phase.Prompting? {
        return Err(InvalidTransition);
      }
      if phase.attempt != attempt {
        return Err(StaleAttempt);
      }
      if RequiresResponse(phase.prompt.kind) != hadResponse {
        return Err(UnexpectedPromptResponse);
      }
      phase := Waiting(attempt);
      return Ok(());
    }

    method Succeeded(attempt: Attempt) returns (r: Result<()>)
      requires Valid(View())
      modifies this
      ensures (View(), r) == AuthenticationSucceeded(old(View()), attempt) && Valid(View())
    {
      var stale := CheckAttempt(phase, attempt);
      if stale.Some? {
        return Err(stale.value);
      }
      phase := Authenticated(attempt);
      return Ok(());
    }

    method Rejected(attempt: Attempt, message: string) returns (r: Result<()>)
      requires Valid(View())
      modifies this
      ensures (View(), r) == AuthenticationFailed(old(View()), attempt, message) && Valid(View())
    {
      var stale := CheckAttempt(phase, attempt);
      if stale.Some? {
        return Err(stale.value);
      }
      phase := Failed(message);
      return Ok(());
    }

    method SessionToStart(attempt: Attempt) returns (r: Result<Session>)
      requires Valid(View())
      ensures r == StartSession(View(), attempt)
    {
      if !phase.Authenticated? {
        return Err(InvalidTransition);
      }
      if phase.attempt != attempt {
        return Err(StaleAttempt);
      }
      return Ok(sessions[selectedSession]);
    }

    method Started(attempt: Attempt) returns (r: Result<()>)
      requires Valid(View())
      modifies this
      ensures (View(), r) == MarkStarted(old(View()), attempt) && Valid(View())
    {
      if !phase.Authenticated? {
        return Err(InvalidTransition);
      }
      if phase.attempt != attempt {
        return Err(StaleAttempt);
      }
      phase := SessionStarted(attempt);
      return Ok(());
    }

    method Cancel()
      requires Valid(View())
      modifies this
      ensures View() == CancelAttempt(old(View())) && Valid(View())
    {
      phase := Idle;
    }
  }
}
