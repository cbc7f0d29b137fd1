/** Registration, replacement and removal of idle notifications on values, over whole runs in which
    creation, output-power registration and flushes may fail at any point. */
module IdleWorld {
  import opened Basics
  import opened Sorting
  import opened IdleEvents

  datatype NotifyKind = WithInhibitors | InputOnly
  datatype RegisterError = MissingProtocol | CreateFailed(stage: Stage) | OutputPowerFailed | FlushFailed
  datatype Result<+T> = Ok(value: T) | Err(error: RegisterError)

  datatype Plan = Plan(enabled: bool, respectInhibitors: bool, stages: seq<Stage>, postLockAfterMs: Option<U32>)

  /** The answer to the n-th creation request: an id, or a failure. */
  type Outcomes = nat -> Option<nat>

  /** The compositor never issues an id twice. */
  ghost predicate FreshIds(env: Outcomes) {
    forall i, j :: 0 <= i < j && env(i).Some? && env(j).Some? ==> env(i) != env(j)
  }

  /** What a notification was created with, and when. */
  datatype Handle = Handle(timeoutMs: nat, kind: NotifyKind, at: nat)

  /** The compositor side: the number of creation requests so far, every handle ever created, the live
      and the destroyed ones, and whether a handle that was not live was ever destroyed. */
  datatype Compositor = Compositor(
    hasNotify: bool, hasNotifyInput: bool, calls: nat, created: map<nat, Handle>, live: set<nat>, destroyed: set<nat>, misused: bool)

  function Start(hasNotify: bool, hasNotifyInput: bool): Compositor {
    Compositor(hasNotify, hasNotifyInput, 0, map[], {}, {}, false)
  }

  function CreateOne(env: Outcomes, c: Compositor, h: Handle): (Compositor, Option<nat>) {
    var c' := c.(calls := c.calls + 1);
    match env(c.calls)
    case None => (c', None)
    case Some(id) => (c'.(live := c.live + {id}, created := c.created[id := h]), Some(id))
  }

  function DestroyAll(c: Compositor, ids: set<nat>): Compositor {
    c.(live := c.live - ids, destroyed := c.destroyed + ids, misused := c.misused || !(ids <= c.live))
  }

  // ---------------------------------------------------------------- Registration

  /** Creates a notification for each stage; a failure destroys those already created. */
  function RegisterAll(env: Outcomes, c: Compositor, stages: seq<(Stage, nat)>, kind: NotifyKind, at: nat): (Compositor, Result<Bindings>) {
    if stages == [] then (c, Ok(map[]))
    else
      var (before, r) := RegisterAll(env, c, stages[..|stages| - 1], kind, at);
      var (stage, timeoutMs) := stages[|stages| - 1];
      if r.Err? then (before, r)
      else
        var (after, id) := CreateOne(env, before, Handle(timeoutMs, kind, at));
        if id.None? then (DestroyAll(after, r.value.Keys), Err(CreateFailed(stage)))
        else (after, Ok(r.value[id.value := Binding(stage, false)]))
  }

  function Kind(plan: Plan): NotifyKind {
    if plan.respectInhibitors then WithInhibitors else InputOnly
  }

  function Supported(c: Compositor, plan: Plan): bool {
    if plan.respectInhibitors then c.hasNotify else c.hasNotifyInput
  }

  function Register(env: Outcomes, c: Compositor, plan: Plan, stages: seq<(Stage, nat)>, at: nat): (Compositor, Result<Bindings>) {
    if !plan.enabled || stages == [] then (c, Ok(map[]))
    else if !Supported(c, plan) then (c, Err(MissingProtocol))
    else RegisterAll(env, c, stages, Kind(plan), at)
  }

  function MainStages(plan: Plan): seq<(Stage, nat)> {
    seq(|plan.stages|, i requires 0 <= i < |plan.stages| => (plan.stages[i], plan.stages[i].afterMs))
  }

  /** The stage and timeout the post-lock monitor registers, if a lock is under way. */
  function PostLockStages(plan: Plan, startedAt: Option<nat>, now: nat): seq<(Stage, nat)> {
    if startedAt.None? || plan.postLockAfterMs.None? then [] else
      var after := plan.postLockAfterMs.value;
      [(Stage(after, MonitorOff), RemainingMs(startedAt.value, now, after))]
  }

  // ---------------------------------------------------------------- The runtime on values

  datatype World = World(compositor: Compositor, monitors: Bindings, postLock: Bindings, startedAt: Option<nat>)

  datatype Command =
    | Reconfigure(plan: Plan, now: nat, powerOk: bool, flushOk: bool)
    | Rebase(plan: Plan, now: nat, flushOk: bool)
    | Batch(events: seq<Event>)

  function Flushed(flushOk: bool): Result<()> {
    if flushOk then Ok(()) else Err(FlushFailed)
  }

  function Connected(env: Outcomes, c: Compositor, plan: Plan, now: nat, powerOk: bool, flushOk: bool): (Compositor, Result<World>) {
    var (c', r) := Register(env, c, plan, MainStages(plan), now);
    if r.Err? then (c', Err(r.error))
    else if !powerOk || !flushOk then (DestroyAll(c', r.value.Keys), Err(if powerOk then FlushFailed else OutputPowerFailed))
    else (c', Ok(World(c', r.value, map[], None)))
  }

  function Reconfigured(env: Outcomes, w: World, plan: Plan, now: nat, powerOk: bool, flushOk: bool): (World, Result<()>) {
    var (c, main) := Register(env, w.compositor, plan, MainStages(plan), now);
    if main.Err? then (w.(compositor := c), Err(main.error))
    else
      var (c', post) := Register(env, c, plan, PostLockStages(plan, w.startedAt, now), now);
      if post.Err? then (w.(compositor := DestroyAll(c', main.value.Keys)), Err(post.error))
      else Swapped(w, c', main.value, post.value, powerOk, flushOk)
  }

  function Swapped(w: World, c: Compositor, main: Bindings, post: Bindings, powerOk: bool, flushOk: bool): (World, Result<()>) {
    if !powerOk then (w.(compositor := DestroyAll(DestroyAll(c, post.Keys), main.Keys)), Err(OutputPowerFailed))
    else (World(DestroyAll(DestroyAll(c, w.monitors.Keys), w.postLock.Keys), main, post, w.startedAt), Flushed(flushOk))
  }

  function Rebased(env: Outcomes, w: World, plan: Plan, now: nat, flushOk: bool): (World, Result<()>) {
    var (c, post) := Register(env, w.compositor, plan, PostLockStages(plan, Some(now), now), now);
    if post.Err? then (w.(compositor := c), Err(post.error))
    else (World(DestroyAll(c, w.postLock.Keys), w.monitors, post.value, Some(now)), Flushed(flushOk))
  }

  /** A resume of the Lock stage is among the transitions. */
  ghost predicate ResumesFromLock(transitions: seq<Transition>) {
    exists i :: 0 <= i < |transitions| && transitions[i].action == Lock && !transitions[i].idle
  }

  /** One batch of events: the emitted transitions, and the end of the lock on a Lock resume. */
  ghost function Emitted(w: World, events: seq<Event>): (World, seq<Transition>) {
    var main := Edges(w.monitors, events);
    var monitors := After(w.monitors, events);
    if ResumesFromLock(main)
    then (World(DestroyAll(w.compositor, w.postLock.Keys), monitors, map[], None), Sort(Leq, main))
    else (w.(monitors := monitors, postLock := After(w.postLock, events)), Sort(Leq, main + Edges(w.postLock, events)))
  }

  ghost function Take(env: Outcomes, w: World, command: Command): (World, seq<Transition>) {
    match command
    case Reconfigure(plan, now, powerOk, flushOk) => (Reconfigured(env, w, plan, now, powerOk, flushOk).0, [])
    case Rebase(plan, now, flushOk) => (Rebased(env, w, plan, now, flushOk).0, [])
    case Batch(events) => Emitted(w, events)
  }

  ghost function Run(env: Outcomes, w: World, commands: seq<Command>): (World, seq<Transition>) {
    if commands == [] then (w, [])
    else
      var (before, transitions) := Run(env, w, commands[..|commands| - 1]);
      var (after, more) := Take(env, before, commands[|commands| - 1]);
      (after, transitions + more)
  }

  function Dropped(w: World): Compositor {
    DestroyAll(DestroyAll(w.compositor, w.postLock.Keys), w.monitors.Keys)
  }

  // ---------------------------------------------------------------- No handle leaks or dies twice

  /** Every handle ever created is either live or was destroyed, exactly once; nothing else was. */
  ghost predicate Accounted(env: Outcomes, c: Compositor) {
    && !c.misused && c.live + c.destroyed == c.created.Keys && c.live !! c.destroyed
    && (forall id :: id in c.created ==> Issued(env, c.calls, id))
  }

  ghost predicate Issued(env: Outcomes, calls: nat, id: nat) {
    exists n :: 0 <= n < calls && env(n) == Some(id)
  }

  /** Creating keeps what was created before. */
  ghost predicate Extends(c: Compositor, c': Compositor) {
    forall id :: id in c.created ==> id in c'.created && c'.created[id] == c.created[id]
  }

  lemma {:induction false} IssuedIsFresh(env: Outcomes, calls: nat)
    requires FreshIds(env) && env(calls).Some?
    ensures !Issued(env, calls, env(calls).value)
  {
  }

  lemma {:induction false} IssuedGrows(env: Outcomes, calls: nat, id: nat)
    ensures Issued(env, calls, id) || env(calls) == Some(id) ==> Issued(env, calls + 1, id)
  {
  }

  lemma {:induction false} CreateAccounted(env: Outcomes, c: Compositor, h: Handle)
    requires FreshIds(env) && Accounted(env, c)
    ensures
      var (c', id) := CreateOne(env, c, h);
      && Accounted(env, c') && Extends(c, c')
      && (if id.Some? then id.value !in c.created && c'.live == c.live + {id.value} && c'.created == c.created[id.value := h]
          else c'.live == c.live && c'.created == c.created)
  {
    var (c', id) := CreateOne(env, c, h);
    if id.Some? {
      IssuedIsFresh(env, c.calls);
    }
    forall i | i in c'.created ensures Issued(env, c'.calls, i) {
      IssuedGrows(env, c.calls, i);
    }
  }

  lemma {:induction false} DestroyAccounted(env: Outcomes, c: Compositor, ids: set<nat>)
    requires Accounted(env, c) && ids <= c.live
    ensures Accounted(env, DestroyAll(c, ids)) && Extends(c, DestroyAll(c, ids))
  {
  }

  /** `bindings` has exactly one handle for each stage, created at `at` with the stage's timeout. */
  ghost predicate Follows(c: Compositor, bindings: Bindings, ids: seq<nat>, stages: seq<(Stage, nat)>, kind: NotifyKind, at: nat) {
    && |ids| == |stages|
    && (forall i, j :: 0 <= i < j < |ids| ==> ids[i] != ids[j])
    && (forall i :: 0 <= i < |ids| ==>
         && ids[i] in bindings && bindings[ids[i]] == Binding(stages[i].0, false)
         && ids[i] in c.created && c.created[ids[i]] == Handle(stages[i].1, kind, at))
    && (forall id :: id in bindings ==> id in ids)
  }

  /** From `c` to `c'` exactly the handles `added` were created and kept. */
  ghost predicate Grows(env: Outcomes, c: Compositor, c': Compositor, added: set<nat>) {
    Accounted(env, c') && Extends(c, c') && c'.live == c.live + added && added !! c.created.Keys
  }

  /** Registration creates fresh handles, or leaves none. */
  lemma {:induction false} RegisterAllGrows(env: Outcomes, c: Compositor, stages: seq<(Stage, nat)>, kind: NotifyKind, at: nat)
    requires FreshIds(env) && Accounted(env, c)
    ensures
      var (c', r) := RegisterAll(env, c, stages, kind, at);
      && Grows(env, c, c', if r.Ok? then r.value.Keys else {})
      && (r.Err? ==> r.error.CreateFailed?)
  {
    if stages != [] {
      var n := |stages| - 1;
      RegisterAllGrows(env, c, stages[..n], kind, at);
      var (before, r) := RegisterAll(env, c, stages[..n], kind, at);
      if r.Ok? {
        var h := Handle(stages[n].1, kind, at);
        var (after, id) := CreateOne(env, before, h);
        CreateAccounted(env, before, h);
        if id.None? {
          UndoneByDestroying(env, c, before, after, r.value.Keys);
        } else {
          GrowsByOne(env, c, before, after, r.value.Keys, id.value);
          assert r.value[id.value := Binding(stages[n].0, false)].Keys == r.value.Keys + {id.value};
        }
      }
    }
  }

  /** There is one handle for every stage, in order. */
  lemma {:induction false} RegisterAllFollows(env: Outcomes, c: Compositor, stages: seq<(Stage, nat)>, kind: NotifyKind, at: nat) returns (ids: seq<nat>)
    requires FreshIds(env) && Accounted(env, c) && RegisterAll(env, c, stages, kind, at).1.Ok?
    ensures var (c', r) := RegisterAll(env, c, stages, kind, at);
      Follows(c', r.value, ids, stages, kind, at)
  {
    ids := [];
    if stages != [] {
      var n := |stages| - 1;
      var (before, r) := RegisterAll(env, c, stages[..n], kind, at);
      ids := RegisterAllFollows(env, c, stages[..n], kind, at);
      RegisterAllGrows(env, c, stages[..n], kind, at);
      var h := Handle(stages[n].1, kind, at);
      CreateAccounted(env, before, h);
      var (after, id) := CreateOne(env, before, h);
      FollowsSnoc(before, r.value, ids, stages, kind, at, after, id.value);
      ids := ids + [id.value];
    }
  }

  lemma {:induction false} UndoneByDestroying(env: Outcomes, c: Compositor, before: Compositor, after: Compositor, added: set<nat>)
    requires Accounted(env, c) && Grows(env, c, before, added) && Accounted(env, after) && Extends(before, after) && after.live == before.live
    ensures Grows(env, c, DestroyAll(after, added), {})
  {
    DestroyAccounted(env, after, added);
  }

  lemma {:induction false} GrowsByOne(env: Outcomes, c: Compositor, before: Compositor, after: Compositor, added: set<nat>, id: nat)
    requires Grows(env, c, before, added) && Accounted(env, after) && Extends(before, after)
    requires id !in before.created && after.live == before.live + {id}
    ensures Grows(env, c, after, added + {id})
  {
  }

  lemma {:induction false} FollowsSnoc(c: Compositor, bindings: Bindings, ids: seq<nat>, stages: seq<(Stage, nat)>, kind: NotifyKind, at: nat, c': Compositor, id: nat)
    requires stages != [] && Follows(c, bindings, ids, stages[..|stages| - 1], kind, at)
    requires id !in c.created && c'.created == c.created[id := Handle(stages[|stages| - 1].1, kind, at)]
    ensures Follows(c', bindings[id := Binding(stages[|stages| - 1].0, false)], ids + [id], stages, kind, at)
  {
    var n := |stages| - 1;
    forall i | 0 <= i < n ensures stages[..n][i] == stages[i] && ids[i] != id {
    }
  }

  ghost predicate Registered(c: Compositor, bindings: Bindings, plan: Plan, stages: seq<(Stage, nat)>, at: nat) {
    if !plan.enabled || stages == [] then bindings == map[]
    else exists ids: seq<nat> :: Follows(c, bindings, ids, stages, Kind(plan), at)
  }

  lemma {:induction false} RegisterFollows(env: Outcomes, c: Compositor, plan: Plan, stages: seq<(Stage, nat)>, at: nat)
    requires FreshIds(env) && Accounted(env, c)
    ensures
      var (c', r) := Register(env, c, plan, stages, at);
      && Grows(env, c, c', if r.Ok? then r.value.Keys else {})
      && (if r.Ok? then Registered(c', r.value, plan, stages, at) else !r.error.FlushFailed? && !r.error.OutputPowerFailed?)
  {
    if plan.enabled && stages != [] && Supported(c, plan) {
      RegisterAllGrows(env, c, stages, Kind(plan), at);
      if RegisterAll(env, c, stages, Kind(plan), at).1.Ok? {
        var ids := RegisterAllFollows(env, c, stages, Kind(plan), at);
      }
    }
  }

  // ---------------------------------------------------------------- What every run keeps

  /** The live handles are exactly the disjoint union of the main and post-lock bindings. */
  ghost predicate Owned(w: World) {
    w.compositor.live == w.monitors.Keys + w.postLock.Keys && w.monitors.Keys !! w.postLock.Keys
  }

  /** Every main handle was set for its stage; every post-lock handle was set, during the present lock,
      so as to fire at the deadline fixed when the lock completed. */
  ghost predicate MainTimed(c: Compositor, monitors: Bindings) {
    forall id :: id in monitors ==> id in c.created && c.created[id].timeoutMs == monitors[id].stage.afterMs
  }

  ghost predicate LockTimed(c: Compositor, postLock: Bindings, startedAt: Option<nat>) {
    forall id :: id in postLock ==>
      && startedAt.Some? && id in c.created && startedAt.value <= c.created[id].at
      && WithinDeadline(startedAt.value, postLock[id].stage.afterMs, c.created[id].at, c.created[id].timeoutMs)
  }

  ghost predicate Sound(env: Outcomes, w: World) {
    && Accounted(env, w.compositor) && Owned(w)
    && MainTimed(w.compositor, w.monitors) && LockTimed(w.compositor, w.postLock, w.startedAt)
  }

  lemma {:induction false} TimedStays(c: Compositor, c': Compositor, monitors: Bindings, postLock: Bindings, startedAt: Option<nat>)
    requires Extends(c, c') && MainTimed(c, monitors) && LockTimed(c, postLock, startedAt)
    ensures MainTimed(c', monitors) && LockTimed(c', postLock, startedAt)
  {
  }

  lemma {:induction false} RegisteredMain(c: Compositor, bindings: Bindings, plan: Plan, at: nat)
    requires Registered(c, bindings, plan, MainStages(plan), at)
    ensures MainTimed(c, bindings)
  {
    forall id | id in bindings ensures id in c.created && c.created[id].timeoutMs == bindings[id].stage.afterMs {
      var ids: seq<nat> :| Follows(c, bindings, ids, MainStages(plan), Kind(plan), at);
      var i :| 0 <= i < |ids| && ids[i] == id;
      assert MainStages(plan)[i] == (plan.stages[i], plan.stages[i].afterMs);
    }
  }

  /** A post-lock registration has exactly one handle if the plan asks for it, and that one is on time. */
  lemma {:induction false} RegisteredPostLock(c: Compositor, bindings: Bindings, plan: Plan, startedAt: Option<nat>, now: nat)
    requires Registered(c, bindings, plan, PostLockStages(plan, startedAt, now), now)
    requires startedAt.Some? ==> startedAt.value <= now
    ensures LockTimed(c, bindings, startedAt)
    ensures startedAt.Some? && plan.enabled && plan.postLockAfterMs.Some? ==> OneHandle(bindings, plan.postLockAfterMs.value)
  {
    if startedAt.Some? && plan.enabled && plan.postLockAfterMs.Some? {
      var after := plan.postLockAfterMs.value;
      var ids: seq<nat> :| Follows(c, bindings, ids, PostLockStages(plan, startedAt, now), Kind(plan), now);
      RemainingIsWithinDeadline(startedAt.value, now, after);
      OneFollows(c, bindings, ids, Stage(after, MonitorOff), RemainingMs(startedAt.value, now, after), Kind(plan), now);
    }
  }

  lemma {:induction false} OneFollows(c: Compositor, bindings: Bindings, ids: seq<nat>, stage: Stage, timeoutMs: nat, kind: NotifyKind, at: nat)
    requires Follows(c, bindings, ids, [(stage, timeoutMs)], kind, at)
    ensures |ids| == 1 && bindings.Keys == {ids[0]} && bindings[ids[0]].stage == stage
    ensures ids[0] in c.created && c.created[ids[0]] == Handle(timeoutMs, kind, at)
  {
    assert ids[0] in bindings;
    forall id | id in bindings ensures id == ids[0] {
      assert id in ids;
    }
  }

  ghost predicate OneHandle(postLock: Bindings, afterMs: nat) {
    exists id :: postLock.Keys == {id} && postLock[id].stage == Stage(afterMs, MonitorOff)
  }

  lemma {:induction false} DestroyInTurn(c: Compositor, a: set<nat>, b: set<nat>)
    requires a !! b
    ensures DestroyAll(DestroyAll(c, a), b) == DestroyAll(c, a + b)
  {
    assert c.live - a - b == c.live - (a + b) && c.destroyed + a + b == c.destroyed + (a + b);
  }

  /** Destroying everything added since takes a world back. */
  lemma {:induction false} RolledBack(env: Outcomes, w: World, c: Compositor, added: set<nat>)
    requires Sound(env, w) && Grows(env, w.compositor, c, added)
    ensures Sound(env, w.(compositor := DestroyAll(c, added)))
    ensures DestroyAll(c, added).live == w.compositor.live && Extends(w.compositor, DestroyAll(c, added))
  {
    DestroyAccounted(env, c, added);
    TimedStays(w.compositor, DestroyAll(c, added), w.monitors, w.postLock, w.startedAt);
  }

  lemma {:induction false} NothingAdded(env: Outcomes, w: World, c: Compositor)
    requires Sound(env, w) && Grows(env, w.compositor, c, {})
    ensures Sound(env, w.(compositor := c)) && c.live == w.compositor.live
  {
    TimedStays(w.compositor, c, w.monitors, w.postLock, w.startedAt);
  }

  /** The live handles are the old ones and the new bindings, all apart. */
  ghost predicate Swapping(c: Compositor, old': set<nat>, monitors: Bindings, postLock: Bindings) {
    && c.live == old' + monitors.Keys + postLock.Keys
    && old' !! monitors.Keys && old' !! postLock.Keys && monitors.Keys !! postLock.Keys
  }

  /** Destroying everything but the new bindings completes a replacement. */
  lemma {:induction false} Replaced(env: Outcomes, c: Compositor, old': set<nat>, monitors: Bindings, postLock: Bindings, startedAt: Option<nat>)
    requires Accounted(env, c) && Swapping(c, old', monitors, postLock)
    requires MainTimed(c, monitors) && LockTimed(c, postLock, startedAt)
    ensures Sound(env, World(DestroyAll(c, old'), monitors, postLock, startedAt)) && Extends(c, DestroyAll(c, old'))
  {
    DestroyAccounted(env, c, old');
    TimedStays(c, DestroyAll(c, old'), monitors, postLock, startedAt);
  }

  lemma {:induction false} GrowsTwice(env: Outcomes, c: Compositor, c': Compositor, c'': Compositor, a: set<nat>, b: set<nat>)
    requires Accounted(env, c) && Grows(env, c, c', a) && Grows(env, c', c'', b)
    ensures Grows(env, c, c'', a + b) && a !! b
  {
  }

  // ---------------------------------------------------------------- Each command

  /** A failure before the final flush leaves bindings, lock time and live handles as they were;
      otherwise every old handle is gone and the plan is registered. */
  ghost predicate ReconfiguredAs(w: World, w': World, r: Result<()>, plan: Plan, now: nat) {
    && w'.startedAt == w.startedAt
    && if r.Err? && !r.error.FlushFailed?
       then w'.monitors == w.monitors && w'.postLock == w.postLock && w'.compositor.live == w.compositor.live
       else
         && w'.compositor.live !! w.compositor.live
         && Registered(w'.compositor, w'.monitors, plan, MainStages(plan), now)
         && Registered(w'.compositor, w'.postLock, plan, PostLockStages(plan, w.startedAt, now), now)
  }

  lemma {:induction false} ReconfiguredSound(env: Outcomes, w: World, plan: Plan, now: nat, powerOk: bool, flushOk: bool)
    requires FreshIds(env) && Sound(env, w) && (w.startedAt.Some? ==> w.startedAt.value <= now)
    ensures
      var (w', r) := Reconfigured(env, w, plan, now, powerOk, flushOk);
      Sound(env, w') && ReconfiguredAs(w, w', r, plan, now)
  {
    var (c, main) := Register(env, w.compositor, plan, MainStages(plan), now);
    RegisterFollows(env, w.compositor, plan, MainStages(plan), now);
    if main.Err? {
      NothingAdded(env, w, c);
    } else {
      SecondRegistration(env, w, plan, now, powerOk, flushOk, c, main.value);
    }
  }

  lemma {:induction false} SecondRegistration(env: Outcomes, w: World, plan: Plan, now: nat, powerOk: bool, flushOk: bool, c: Compositor, main: Bindings)
    requires FreshIds(env) && Sound(env, w) && (w.startedAt.Some? ==> w.startedAt.value <= now)
    requires Register(env, w.compositor, plan, MainStages(plan), now) == (c, Ok(main))
    requires Grows(env, w.compositor, c, main.Keys) && Registered(c, main, plan, MainStages(plan), now)
    ensures
      var (w', r) := Reconfigured(env, w, plan, now, powerOk, flushOk);
      Sound(env, w') && ReconfiguredAs(w, w', r, plan, now)
  {
    var stages := PostLockStages(plan, w.startedAt, now);
    var (c', post) := Register(env, c, plan, stages, now);
    RegisterFollows(env, c, plan, stages, now);
    if post.Err? {
      SecondFailed(env, w, plan, now, c, c', main, post.error);
    } else {
      GrowsTwice(env, w.compositor, c, c', main.Keys, post.value.Keys);
      RegisteredStays(c, c', main, plan, MainStages(plan), now);
      SwappedSound(env, w, plan, now, powerOk, flushOk, c', main, post.value);
    }
  }

  lemma {:induction false} SecondFailed(env: Outcomes, w: World, plan: Plan, now: nat, c: Compositor, c': Compositor, main: Bindings, e: RegisterError)
    requires Sound(env, w) && Grows(env, w.compositor, c, main.Keys) && Grows(env, c, c', {}) && !e.FlushFailed?
    ensures
      var w' := w.(compositor := DestroyAll(c', main.Keys));
      Sound(env, w') && ReconfiguredAs(w, w', Err(e), plan, now)
  {
    GrowsTwice(env, w.compositor, c, c', main.Keys, {});
    assert main.Keys + {} == main.Keys;
    RolledBack(env, w, c', main.Keys);
  }

  lemma {:induction false} SwappedSound(env: Outcomes, w: World, plan: Plan, now: nat, powerOk: bool, flushOk: bool, c: Compositor, main: Bindings, post: Bindings)
    requires Sound(env, w) && (w.startedAt.Some? ==> w.startedAt.value <= now)
    requires Grows(env, w.compositor, c, main.Keys + post.Keys) && main.Keys !! post.Keys
    requires Registered(c, main, plan, MainStages(plan), now)
    requires Registered(c, post, plan, PostLockStages(plan, w.startedAt, now), now)
    ensures
      var (w', r) := Swapped(w, c, main, post, powerOk, flushOk);
      Sound(env, w') && ReconfiguredAs(w, w', r, plan, now)
  {
    if !powerOk {
      PowerFailed(env, w, plan, now, c, main, post);
    } else {
      DestroyInTurn(c, w.monitors.Keys, w.postLock.Keys);
      ReplacementSound(env, w, plan, now, c, main, post);
      ReplacementRegistered(env, w, plan, now, c, main, post, Flushed(flushOk));
    }
  }

  lemma {:induction false} PowerFailed(env: Outcomes, w: World, plan: Plan, now: nat, c: Compositor, main: Bindings, post: Bindings)
    requires Sound(env, w) && Grows(env, w.compositor, c, main.Keys + post.Keys) && main.Keys !! post.Keys
    ensures
      var w' := w.(compositor := DestroyAll(DestroyAll(c, post.Keys), main.Keys));
      Sound(env, w') && ReconfiguredAs(w, w', Err(OutputPowerFailed), plan, now)
  {
    DestroyInTurn(c, post.Keys, main.Keys);
    assert post.Keys + main.Keys == main.Keys + post.Keys;
    RolledBack(env, w, c, main.Keys + post.Keys);
  }

  lemma {:induction false} ReplacementSound(env: Outcomes, w: World, plan: Plan, now: nat, c: Compositor, main: Bindings, post: Bindings)
    requires Sound(env, w) && (w.startedAt.Some? ==> w.startedAt.value <= now)
    requires Grows(env, w.compositor, c, main.Keys + post.Keys) && main.Keys !! post.Keys
    requires Registered(c, main, plan, MainStages(plan), now)
    requires Registered(c, post, plan, PostLockStages(plan, w.startedAt, now), now)
    ensures Sound(env, World(DestroyAll(c, w.monitors.Keys + w.postLock.Keys), main, post, w.startedAt))
  {
    RegisteredMain(c, main, plan, now);
    RegisteredPostLock(c, post, plan, w.startedAt, now);
    OldAndNewApart(env, w, c, main, post);
    Replaced(env, c, w.monitors.Keys + w.postLock.Keys, main, post, w.startedAt);
  }

  lemma {:induction false} ReplacementRegistered(env: Outcomes, w: World, plan: Plan, now: nat, c: Compositor, main: Bindings, post: Bindings, r: Result<()>)
    requires Accounted(env, w.compositor) && Owned(w) && (r.Ok? || r.error.FlushFailed?)
    requires Grows(env, w.compositor, c, main.Keys + post.Keys) && main.Keys !! post.Keys
    requires Registered(c, main, plan, MainStages(plan), now)
    requires Registered(c, post, plan, PostLockStages(plan, w.startedAt, now), now)
    ensures ReconfiguredAs(w, World(DestroyAll(c, w.monitors.Keys + w.postLock.Keys), main, post, w.startedAt), r, plan, now)
  {
    var c' := DestroyAll(c, w.monitors.Keys + w.postLock.Keys);
    OldAndNewApart(env, w, c, main, post);
    RegisteredStays(c, c', main, plan, MainStages(plan), now);
    RegisteredStays(c, c', post, plan, PostLockStages(plan, w.startedAt, now), now);
  }

  lemma {:induction false} OldAndNewApart(env: Outcomes, w: World, c: Compositor, main: Bindings, post: Bindings)
    requires Accounted(env, w.compositor) && Owned(w) && main.Keys !! post.Keys
    requires Grows(env, w.compositor, c, main.Keys + post.Keys)
    ensures Swapping(c, w.monitors.Keys + w.postLock.Keys, main, post)
    ensures DestroyAll(c, w.monitors.Keys + w.postLock.Keys).live !! w.compositor.live
  {
  }

  lemma {:induction false} RegisteredStays(c: Compositor, c': Compositor, bindings: Bindings, plan: Plan, stages: seq<(Stage, nat)>, at: nat)
    requires Registered(c, bindings, plan, stages, at) && Extends(c, c')
    ensures Registered(c', bindings, plan, stages, at)
  {
    if plan.enabled && stages != [] {
      var ids: seq<nat> :| Follows(c, bindings, ids, stages, Kind(plan), at);
      assert Follows(c', bindings, ids, stages, Kind(plan), at);
    }
  }

  /** A failed registration leaves the present lock intact; otherwise the lock starts now with the
      plan's deadline, and the main bindings stay. */
  ghost predicate RebasedAs(w: World, w': World, r: Result<()>, plan: Plan, now: nat) {
    && w'.monitors == w.monitors
    && if r.Err? && !r.error.FlushFailed?
       then w'.postLock == w.postLock && w'.startedAt == w.startedAt && w'.compositor.live == w.compositor.live
       else
         && w'.startedAt == Some(now) && w'.postLock.Keys !! w.compositor.live
         && Registered(w'.compositor, w'.postLock, plan, PostLockStages(plan, Some(now), now), now)
  }

  lemma {:induction false} RebasedSound(env: Outcomes, w: World, plan: Plan, now: nat, flushOk: bool)
    requires FreshIds(env) && Sound(env, w)
    ensures
      var (w', r) := Rebased(env, w, plan, now, flushOk);
      Sound(env, w') && RebasedAs(w, w', r, plan, now)
  {
    var stages := PostLockStages(plan, Some(now), now);
    var (c, post) := Register(env, w.compositor, plan, stages, now);
    RegisterFollows(env, w.compositor, plan, stages, now);
    if post.Err? {
      NothingAdded(env, w, c);
    } else {
      RebaseReplaces(env, w, plan, now, c, post.value, flushOk);
    }
  }

  lemma {:induction false} RebaseReplaces(env: Outcomes, w: World, plan: Plan, now: nat, c: Compositor, post: Bindings, flushOk: bool)
    requires Sound(env, w) && Grows(env, w.compositor, c, post.Keys)
    requires Registered(c, post, plan, PostLockStages(plan, Some(now), now), now)
    ensures
      var w' := World(DestroyAll(c, w.postLock.Keys), w.monitors, post, Some(now));
      Sound(env, w') && RebasedAs(w, w', Flushed(flushOk), plan, now)
  {
    TimedStays(w.compositor, c, w.monitors, w.postLock, w.startedAt);
    RegisteredPostLock(c, post, plan, Some(now), now);
    RebaseApart(env, w, c, post);
    Replaced(env, c, w.postLock.Keys, w.monitors, post, Some(now));
    RegisteredStays(c, DestroyAll(c, w.postLock.Keys), post, plan, PostLockStages(plan, Some(now), now), now);
  }

  lemma {:induction false} RebaseApart(env: Outcomes, w: World, c: Compositor, post: Bindings)
    requires Accounted(env, w.compositor) && Owned(w) && Grows(env, w.compositor, c, post.Keys)
    ensures Swapping(c, w.postLock.Keys, w.monitors, post) && post.Keys !! w.compositor.live
  {
  }

  /** A batch moves bindings only; a Lock resume ends the lock and destroys its handles. */
  ghost predicate EmittedAs(w: World, w': World, events: seq<Event>) {
    && w'.monitors == After(w.monitors, events)
    && if ResumesFromLock(Edges(w.monitors, events))
       then w'.startedAt == None && w'.postLock == map[] && w'.compositor.live == w'.monitors.Keys
       else w'.startedAt == w.startedAt && w'.postLock == After(w.postLock, events) && w'.compositor == w.compositor
  }

  lemma {:induction false} EmittedSound(env: Outcomes, w: World, events: seq<Event>)
    requires Sound(env, w)
    ensures Sound(env, Emitted(w, events).0) && EmittedAs(w, Emitted(w, events).0, events)
  {
    AfterTimed(w.compositor, w.monitors, w.postLock, w.startedAt, events);
    if ResumesFromLock(Edges(w.monitors, events)) {
      Replaced(env, w.compositor, w.postLock.Keys, After(w.monitors, events), map[], None);
    }
  }

  lemma {:induction false} AfterTimed(c: Compositor, monitors: Bindings, postLock: Bindings, startedAt: Option<nat>, events: seq<Event>)
    requires MainTimed(c, monitors) && LockTimed(c, postLock, startedAt)
    ensures MainTimed(c, After(monitors, events)) && LockTimed(c, After(postLock, events), startedAt)
    ensures After(monitors, events).Keys == monitors.Keys && After(postLock, events).Keys == postLock.Keys
  {
    BindingsEndAtLastEvent(monitors, events);
    BindingsEndAtLastEvent(postLock, events);
  }

  // ---------------------------------------------------------------- Whole runs

  function TimeOf(command: Command): Option<nat> {
    match command
    case Reconfigure(_, now, _, _) => Some(now)
    case Rebase(_, now, _) => Some(now)
    case Batch(_) => None
  }

  /** The clock read by the commands is monotone and not before the lock under way. */
  ghost predicate Clocked(startedAt: Option<nat>, commands: seq<Command>) {
    && (forall i, j :: 0 <= i < j < |commands| && TimeOf(commands[i]).Some? && TimeOf(commands[j]).Some? ==>
          TimeOf(commands[i]).value <= TimeOf(commands[j]).value)
    && (startedAt.Some? ==> forall i :: 0 <= i < |commands| && TimeOf(commands[i]).Some? ==> startedAt.value <= TimeOf(commands[i]).value)
  }

  lemma {:induction false} LockIsPast(env: Outcomes, w: World, commands: seq<Command>, now: nat)
    requires w.startedAt.Some? ==> w.startedAt.value <= now
    requires forall i :: 0 <= i < |commands| && TimeOf(commands[i]).Some? ==> TimeOf(commands[i]).value <= now
    ensures var w' := Run(env, w, commands).0; w'.startedAt.Some? ==> w'.startedAt.value <= now
  {
    if commands != [] {
      var n := |commands| - 1;
      LockIsPast(env, w, commands[..n], now);
      LockStarts(env, Run(env, w, commands[..n]).0, commands[n]);
    }
  }

  /** A lock starts at the time of its command. */
  lemma {:induction false} LockStarts(env: Outcomes, w: World, command: Command)
    ensures
      var w' := Take(env, w, command).0;
      w'.startedAt.Some? ==> w'.startedAt == w.startedAt || w'.startedAt == TimeOf(command)
  {
  }

  lemma {:induction false} TakeSound(env: Outcomes, w: World, command: Command)
    requires FreshIds(env) && Sound(env, w)
    requires w.startedAt.Some? && TimeOf(command).Some? ==> w.startedAt.value <= TimeOf(command).value
    ensures Sound(env, Take(env, w, command).0)
  {
    match command
    case Reconfigure(plan, now, powerOk, flushOk) => ReconfiguredSound(env, w, plan, now, powerOk, flushOk);
    case Rebase(plan, now, flushOk) => RebasedSound(env, w, plan, now, flushOk);
    case Batch(events) => EmittedSound(env, w, events);
  }

  /** Over every run, with every pattern of failures: no handle is leaked or destroyed twice, the live
      handles are exactly the bindings of both sets, and every post-lock handle is set for the deadline
      fixed when the lock completed. */
  lemma {:induction false} RunSound(env: Outcomes, w: World, commands: seq<Command>)
    requires FreshIds(env) && Sound(env, w) && Clocked(w.startedAt, commands)
    ensures Sound(env, Run(env, w, commands).0)
  {
    if commands != [] {
      var n := |commands| - 1;
      var front := commands[..n];
      RunSound(env, w, front);
      if TimeOf(commands[n]).Some? {
        LockIsPast(env, w, front, TimeOf(commands[n]).value);
      }
      TakeSound(env, Run(env, w, front).0, commands[n]);
    }
  }

  /** Reconfigurations that keep the post-lock delay, and batches, in any order. */
  ghost predicate KeepsDelay(commands: seq<Command>, after: U32) {
    forall i :: 0 <= i < |commands| ==>
      commands[i].Batch? || (commands[i].Reconfigure? && commands[i].plan.enabled && commands[i].plan.postLockAfterMs == Some(after))
  }

  /** The lock has ended, or exactly one handle stands for its deadline. */
  ghost predicate DeadlineStands(w: World, startedAt: nat, after: nat) {
    if w.startedAt.None? then w.postLock == map[]
    else w.startedAt == Some(startedAt) && OneHandle(w.postLock, after)
  }

  lemma {:induction false} TakeKeepsDeadline(env: Outcomes, w: World, command: Command, startedAt: nat, after: U32)
    requires FreshIds(env) && Sound(env, w) && DeadlineStands(w, startedAt, after) && KeepsDelay([command], after)
    requires TimeOf(command).Some? ==> startedAt <= TimeOf(command).value
    ensures DeadlineStands(Take(env, w, command).0, startedAt, after)
  {
    assert [command][0] == command;
    match command
    case Reconfigure(plan, now, powerOk, flushOk) =>
      var (w', r) := Reconfigured(env, w, plan, now, powerOk, flushOk);
      ReconfiguredSound(env, w, plan, now, powerOk, flushOk);
      if r.Ok? || r.error.FlushFailed? {
        RegisteredPostLock(w'.compositor, w'.postLock, plan, w.startedAt, now);
      }
    case Batch(events) =>
      EmittedSound(env, w, events);
      BindingsEndAtLastEvent(w.postLock, events);
      if w.startedAt.Some? {
        var id :| w.postLock.Keys == {id} && w.postLock[id].stage == Stage(after, MonitorOff);
        assert After(w.postLock, events).Keys == {id} && After(w.postLock, events)[id].stage == Stage(after, MonitorOff);
      }
  }

  /** Through any chain of reconfigurations after a lock, succeeding or failing, the deadline does not
      drift: until a Lock resume, exactly one handle stands, and it fires at lock time plus delay,
      rounded up by less than a millisecond, or at once if that had passed when it was set. */
  lemma {:induction false} DeadlineDoesNotDrift(env: Outcomes, w: World, commands: seq<Command>, startedAt: nat, after: U32)
    requires FreshIds(env) && Sound(env, w) && DeadlineStands(w, startedAt, after)
    requires KeepsDelay(commands, after) && Clocked(Some(startedAt), commands)
    ensures
      var w' := Run(env, w, commands).0;
      && Sound(env, w') && DeadlineStands(w', startedAt, after)
      && (w'.startedAt.Some? ==> forall id :: id in w'.postLock ==>
           && id in w'.compositor.created
           && WithinDeadline(startedAt, after, w'.compositor.created[id].at, w'.compositor.created[id].timeoutMs))
  {
    RunSound(env, w, commands);
    if commands != [] {
      var n := |commands| - 1;
      DeadlineDoesNotDrift(env, w, commands[..n], startedAt, after);
      assert KeepsDelay([commands[n]], after) by {
        assert commands[n].Batch? || commands[n].Reconfigure?;
      }
      TakeKeepsDeadline(env, Run(env, w, commands[..n]).0, commands[n], startedAt, after);
    }
    var w' := Run(env, w, commands).0;
    if w'.startedAt.Some? {
      var one :| w'.postLock.Keys == {one} && w'.postLock[one].stage == Stage(after, MonitorOff);
    }
  }

  /** A completed lock sets the handle that the chain then carries. */
  lemma {:induction false} LockSetsDeadline(env: Outcomes, w: World, plan: Plan, now: nat, flushOk: bool)
    requires FreshIds(env) && Sound(env, w) && plan.enabled && plan.postLockAfterMs.Some?
    ensures
      var (w', r) := Rebased(env, w, plan, now, flushOk);
      r.Ok? || r.error.FlushFailed? ==> w'.startedAt == Some(now) && DeadlineStands(w', now, plan.postLockAfterMs.value)
  {
    var (w', r) := Rebased(env, w, plan, now, flushOk);
    RebasedSound(env, w, plan, now, flushOk);
    if r.Ok? || r.error.FlushFailed? {
      RegisteredPostLock(w'.compositor, w'.postLock, plan, Some(now), now);
    }
  }

  lemma {:induction false} ConnectedSound(env: Outcomes, c: Compositor, plan: Plan, now: nat, powerOk: bool, flushOk: bool)
    requires FreshIds(env) && Accounted(env, c) && c.live == {}
    ensures
      var (c', r) := Connected(env, c, plan, now, powerOk, flushOk);
      && Accounted(env, c')
      && (if r.Err? then c'.live == {}
          else r.value.compositor == c' && r.value.startedAt.None? && Sound(env, r.value)
               && Registered(c', r.value.monitors, plan, MainStages(plan), now))
  {
    var (c', r) := Register(env, c, plan, MainStages(plan), now);
    RegisterFollows(env, c, plan, MainStages(plan), now);
    if r.Ok? {
      RegisteredMain(c', r.value, plan, now);
      DestroyAccounted(env, c', r.value.Keys);
      if powerOk && flushOk {
        assert Owned(World(c', r.value, map[], None));
      }
    }
  }

  /** From connecting to dropping: the compositor's state at the end. */
  ghost function SessionEnd(env: Outcomes, c: Compositor, plan: Plan, now: nat, powerOk: bool, flushOk: bool, commands: seq<Command>): Compositor {
    var (c', r) := Connected(env, c, plan, now, powerOk, flushOk);
    if r.Err? then c' else Dropped(Run(env, r.value, commands).0)
  }

  /** Whatever fails on the way, in the end every handle ever created has been destroyed exactly once. */
  lemma {:induction false} NoHandleOutlivesTheSession(env: Outcomes, hasNotify: bool, hasNotifyInput: bool, plan: Plan, now: nat, powerOk: bool, flushOk: bool, commands: seq<Command>)
    requires FreshIds(env) && Clocked(None, commands)
    ensures
      var c := SessionEnd(env, Start(hasNotify, hasNotifyInput), plan, now, powerOk, flushOk, commands);
      c.live == {} && c.destroyed == c.created.Keys && !c.misused
  {
    var c0 := Start(hasNotify, hasNotifyInput);
    var (c', r) := Connected(env, c0, plan, now, powerOk, flushOk);
    ConnectedSound(env, c0, plan, now, powerOk, flushOk);
    if r.Ok? {
      var w := Run(env, r.value, commands).0;
      RunSound(env, r.value, commands);
      DestroyAccounted(env, w.compositor, w.postLock.Keys);
      DestroyAccounted(env, DestroyAll(w.compositor, w.postLock.Keys), w.monitors.Keys);
    }
  }

  // ---------------------------------------------------------------- What a plan registers, and when it fails

  /** These are distinct handles, one for every stage of the plan, created now with the stage's own timeout
      and with the inhibitor semantics the plan asks for. */
  ghost predicate PlanHandles(c: Compositor, monitors: Bindings, ids: seq<nat>, plan: Plan, now: nat) {
    && |ids| == |plan.stages| && (forall i, j :: 0 <= i < j < |ids| ==> ids[i] != ids[j])
    && (forall id :: id in monitors <==> id in ids)
    && forall i :: 0 <= i < |ids| ==>
         && ids[i] in monitors && monitors[ids[i]] == Binding(plan.stages[i], false)
         && ids[i] in c.created
         && c.created[ids[i]] == Handle(plan.stages[i].afterMs, if plan.respectInhibitors then WithInhibitors else InputOnly, now)
  }

  /** The handles of an enabled plan, and none for a disabled one. */
  ghost predicate RegistersPlan(c: Compositor, monitors: Bindings, plan: Plan, now: nat) {
    if !plan.enabled then monitors == map[] else exists ids: seq<nat> :: PlanHandles(c, monitors, ids, plan, now)
  }

  /** One handle for the delay after a lock that is under way, created now with the same semantics. */
  ghost predicate RegistersLock(c: Compositor, postLock: Bindings, plan: Plan, startedAt: Option<nat>, now: nat) {
    if !plan.enabled || startedAt.None? || plan.postLockAfterMs.None? then postLock == map[]
    else exists id ::
      && postLock.Keys == {id} && postLock[id] == Binding(Stage(plan.postLockAfterMs.value, MonitorOff), false)
      && id in c.created && c.created[id].at == now
      && c.created[id].kind == (if plan.respectInhibitors then WithInhibitors else InputOnly)
      && WithinDeadline(startedAt.value, plan.postLockAfterMs.value, now, c.created[id].timeoutMs)
  }

  lemma {:induction false} RegisteredIsPlan(c: Compositor, monitors: Bindings, plan: Plan, now: nat)
    requires Registered(c, monitors, plan, MainStages(plan), now)
    ensures RegistersPlan(c, monitors, plan, now)
  {
    if plan.enabled {
      if plan.stages == [] {
        assert PlanHandles(c, monitors, [], plan, now);
      } else {
        var ids: seq<nat> :| Follows(c, monitors, ids, MainStages(plan), Kind(plan), now);
        FollowsPlan(c, monitors, ids, plan, now);
      }
    }
  }

  lemma {:induction false} FollowsPlan(c: Compositor, monitors: Bindings, ids: seq<nat>, plan: Plan, now: nat)
    requires Follows(c, monitors, ids, MainStages(plan), Kind(plan), now)
    ensures PlanHandles(c, monitors, ids, plan, now)
  {
    forall i | 0 <= i < |ids| ensures ids[i] in monitors && MainStages(plan)[i] == (plan.stages[i], plan.stages[i].afterMs) {
    }
    forall id ensures id in monitors <==> id in ids {
    }
  }

  lemma {:induction false} RegisteredIsLock(c: Compositor, postLock: Bindings, plan: Plan, startedAt: Option<nat>, now: nat)
    requires Registered(c, postLock, plan, PostLockStages(plan, startedAt, now), now) && (startedAt.Some? ==> startedAt.value <= now)
    ensures RegistersLock(c, postLock, plan, startedAt, now)
  {
    if plan.enabled && startedAt.Some? && plan.postLockAfterMs.Some? {
      var after := plan.postLockAfterMs.value;
      var ids: seq<nat> :| Follows(c, postLock, ids, PostLockStages(plan, startedAt, now), Kind(plan), now);
      RemainingIsWithinDeadline(startedAt.value, now, after);
      OneFollows(c, postLock, ids, Stage(after, MonitorOff), RemainingMs(startedAt.value, now, after), Kind(plan), now);
      assert ids[0] in postLock && postLock[ids[0]] == Binding(Stage(after, MonitorOff), false);
    }
  }

  /** The next `n` creation requests all succeed. */
  ghost predicate AllCreated(env: Outcomes, calls: nat, n: nat) {
    forall i :: calls <= i < calls + n ==> env(i).Some?
  }

  lemma {:induction false} RegisterAllExactly(env: Outcomes, c: Compositor, stages: seq<(Stage, nat)>, kind: NotifyKind, at: nat)
    ensures var (c', r) := RegisterAll(env, c, stages, kind, at);
      && (r.Ok? <==> AllCreated(env, c.calls, |stages|)) && (r.Ok? ==> c'.calls == c.calls + |stages|)
      && (r.Err? ==> exists i :: 0 <= i < |stages| && r.error == CreateFailed(stages[i].0) && env(c.calls + i).None? && AllCreated(env, c.calls, i))
      && c'.hasNotify == c.hasNotify && c'.hasNotifyInput == c.hasNotifyInput
  {
    if stages != [] {
      var n := |stages| - 1;
      RegisterAllExactly(env, c, stages[..n], kind, at);
      var (before, r) := RegisterAll(env, c, stages[..n], kind, at);
      if r.Ok? {
        assert before.calls == c.calls + n;
        assert AllCreated(env, c.calls, n + 1) <==> env(c.calls + n).Some?;
      } else {
        var i :| 0 <= i < n && r.error == CreateFailed(stages[..n][i].0) && env(c.calls + i).None? && AllCreated(env, c.calls, i);
        assert stages[..n][i] == stages[i];
      }
    }
  }

  /** How many notifications the plan asks for, now and for a lock under way. */
  function Asked(plan: Plan, main: bool, startedAt: Option<nat>): nat {
    if !plan.enabled then 0
    else (if main then |plan.stages| else 0) + if startedAt.Some? && plan.postLockAfterMs.Some? then 1 else 0
  }

  /** Notifications are asked for whose kind the compositor does not offer. */
  predicate Missing(c: Compositor, plan: Plan, asked: nat) {
    asked > 0 && !(if plan.respectInhibitors then c.hasNotify else c.hasNotifyInput)
  }

  lemma {:induction false} RegisterExactly(env: Outcomes, c: Compositor, plan: Plan, stages: seq<(Stage, nat)>, at: nat)
    ensures
      var (c', r) := Register(env, c, plan, stages, at);
      var n := if plan.enabled then |stages| else 0;
      && (r == Err(MissingProtocol) <==> Missing(c, plan, n))
      && (r.Ok? <==> !Missing(c, plan, n) && AllCreated(env, c.calls, n)) && (r.Ok? ==> c'.calls == c.calls + n)
      && (r.Err? ==> r.error.MissingProtocol? || r.error.CreateFailed?)
      && c'.hasNotify == c.hasNotify && c'.hasNotifyInput == c.hasNotifyInput
  {
    RegisterAllExactly(env, c, stages, Kind(plan), at);
  }

  /** The outcome of connecting or reconfiguring, read off the plan and the compositor. */
  ghost predicate OutcomeIs<T>(env: Outcomes, c: Compositor, plan: Plan, asked: nat, powerOk: bool, flushOk: bool, r: Result<T>) {
    var created := !Missing(c, plan, asked) && AllCreated(env, c.calls, asked);
    && (r == Err(MissingProtocol) <==> Missing(c, plan, asked))
    && (r == Err(OutputPowerFailed) <==> created && !powerOk)
    && (r == Err(FlushFailed) <==> created && powerOk && !flushOk)
    && (r.Ok? <==> created && powerOk && flushOk)
  }

  /** Connecting registers exactly the plan, and fails exactly for its four reasons. */
  lemma {:induction false} ConnectedExactly(env: Outcomes, c: Compositor, plan: Plan, now: nat, powerOk: bool, flushOk: bool)
    requires FreshIds(env) && Accounted(env, c) && c.live == {}
    ensures
      var (c', r) := Connected(env, c, plan, now, powerOk, flushOk);
      && OutcomeIs(env, c, plan, Asked(plan, true, None), powerOk, flushOk, r)
      && (r.Ok? ==> RegistersPlan(c', r.value.monitors, plan, now) && r.value.postLock == map[])
  {
    ConnectedSound(env, c, plan, now, powerOk, flushOk);
    RegisterExactly(env, c, plan, MainStages(plan), now);
    var (c', r) := Connected(env, c, plan, now, powerOk, flushOk);
    if r.Ok? {
      RegisteredIsPlan(c', r.value.monitors, plan, now);
    }
  }

  lemma {:induction false} CreatedInTwoGoes(env: Outcomes, calls: nat, m: nat, n: nat)
    ensures AllCreated(env, calls, m + n) <==> AllCreated(env, calls, m) && AllCreated(env, calls + m, n)
  {
  }

  /** A reconfiguration replaces both sets by exactly what the plan asks for, or keeps both; and fails
      exactly for its reasons. */
  lemma {:induction false} ReconfiguredExactly(env: Outcomes, w: World, plan: Plan, now: nat, powerOk: bool, flushOk: bool)
    requires FreshIds(env) && Sound(env, w) && (w.startedAt.Some? ==> w.startedAt.value <= now)
    ensures
      var (w', r) := Reconfigured(env, w, plan, now, powerOk, flushOk);
      && OutcomeIs(env, w.compositor, plan, Asked(plan, true, w.startedAt), powerOk, flushOk, r)
      && (if r.Ok? || r.error.FlushFailed?
          then RegistersPlan(w'.compositor, w'.monitors, plan, now) && RegistersLock(w'.compositor, w'.postLock, plan, w.startedAt, now)
          else w'.monitors == w.monitors && w'.postLock == w.postLock)
  {
    ReconfigurationOutcome(env, w, plan, now, powerOk, flushOk);
    ReconfiguredSound(env, w, plan, now, powerOk, flushOk);
    var (w', r) := Reconfigured(env, w, plan, now, powerOk, flushOk);
    if r.Ok? || r.error.FlushFailed? {
      RegisteredIsPlan(w'.compositor, w'.monitors, plan, now);
      RegisteredIsLock(w'.compositor, w'.postLock, plan, w.startedAt, now);
    }
  }

  lemma {:induction false} ReconfigurationOutcome(env: Outcomes, w: World, plan: Plan, now: nat, powerOk: bool, flushOk: bool)
    ensures OutcomeIs(env, w.compositor, plan, Asked(plan, true, w.startedAt), powerOk, flushOk, Reconfigured(env, w, plan, now, powerOk, flushOk).1)
  {
    var (c, main) := Register(env, w.compositor, plan, MainStages(plan), now);
    var stages := PostLockStages(plan, w.startedAt, now);
    RegisterExactly(env, w.compositor, plan, MainStages(plan), now);
    RegisterExactly(env, c, plan, stages, now);
    if plan.enabled {
      CreatedInTwoGoes(env, w.compositor.calls, |plan.stages|, |stages|);
    }
  }

  /** A completed lock registers exactly its delay from now, or keeps what was; and fails exactly for its
      reasons. */
  lemma {:induction false} RebasedExactly(env: Outcomes, w: World, plan: Plan, now: nat, flushOk: bool)
    requires FreshIds(env) && Sound(env, w)
    ensures
      var (w', r) := Rebased(env, w, plan, now, flushOk);
      && OutcomeIs(env, w.compositor, plan, Asked(plan, false, Some(now)), true, flushOk, r)
      && w'.monitors == w.monitors
      && (if r.Ok? || r.error.FlushFailed?
          then w'.startedAt == Some(now) && RegistersLock(w'.compositor, w'.postLock, plan, Some(now), now)
          else w'.startedAt == w.startedAt && w'.postLock == w.postLock)
  {
    RebasedSound(env, w, plan, now, flushOk);
    RegisterExactly(env, w.compositor, plan, PostLockStages(plan, Some(now), now), now);
    var (w', r) := Rebased(env, w, plan, now, flushOk);
    if r.Ok? || r.error.FlushFailed? {
      RegisteredIsLock(w'.compositor, w'.postLock, plan, Some(now), now);
    }
  }
}
