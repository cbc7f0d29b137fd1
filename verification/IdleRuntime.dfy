/** The idle notification runtime as it changes state: batches, registration loops and the objects. */
module IdleRuntime {
  import opened Basics
  import opened Sorting
  import opened IdleEvents
  import opened IdleWorld

  // ---------------------------------------------------------------- Event batches

  /** Appends the sorted edges of the batch and brings every binding to its last event. */
  method ApplyBatch(bindings: Bindings, events: seq<Event>, transitions: seq<Transition>)
    returns (bindings': Bindings, transitions': seq<Transition>)
    ensures bindings' == After(bindings, events)
    ensures transitions' == transitions + Sort(Leq, Edges(bindings, events))
  {
    bindings' := bindings;
    var edges: seq<Transition> := [];
    for k := 0 to |events|
      invariant bindings' == After(bindings, events[..k]) && edges == Edges(bindings, events[..k])
    {
      assert events[..k + 1][..k] == events[..k];
      var e := events[k];
      if e.id in bindings' && bindings'[e.id].idle != e.idle {
        edges := edges + [Emit(bindings'[e.id], e.idle)];
        bindings' := bindings'[e.id := bindings'[e.id].(idle := e.idle)];
      } else {
        assert Apply(bindings', e) == bindings';
      }
    }
    assert events[..|events|] == events;
    transitions' := transitions + Sort(Leq, edges);
  }

  /** Sorting two sorted parts again sorts the whole. */
  lemma {:induction false} SortOfSortedParts(left: seq<Transition>, right: seq<Transition>)
    ensures Sort(Leq, Sort(Leq, left) + Sort(Leq, right)) == Sort(Leq, left + right)
  {
    LeqIsTotalOrder();
    var parts := Sort(Leq, left) + Sort(Leq, right);
    SortSorts(Leq, left);
    SortSorts(Leq, right);
    SortSorts(Leq, parts);
    SortSorts(Leq, left + right);
    SortedUnique(Leq, Sort(Leq, parts), Sort(Leq, left + right));
  }

  lemma {:induction false} SortKeepsLockResume(transitions: seq<Transition>)
    ensures ResumesFromLock(Sort(Leq, transitions)) <==> ResumesFromLock(transitions)
  {
    LeqIsTotalOrder();
    SortSorts(Leq, transitions);
    var sorted := Sort(Leq, transitions);
    forall t
      ensures t in sorted <==> t in transitions
    {
      assert t in sorted <==> t in multiset(sorted);
      assert t in transitions <==> t in multiset(transitions);
    }
    if i :| 0 <= i < |sorted| && sorted[i].action == Lock && !sorted[i].idle {
      assert sorted[i] in transitions;
    }
    if i :| 0 <= i < |transitions| && transitions[i].action == Lock && !transitions[i].idle {
      assert transitions[i] in sorted;
    }
  }

  method HasLockResume(transitions: seq<Transition>) returns (found: bool)
    ensures found <==> ResumesFromLock(transitions)
  {
    for i := 0 to |transitions|
      invariant forall j :: 0 <= j < i ==> !(transitions[j].action == Lock && !transitions[j].idle)
    {
      if transitions[i].action == Lock && !transitions[i].idle {
        return true;
      }
    }
    return false;
  }

  /** Both monitor sets over one batch; a lock resume keeps the post-lock set out of it. */
  method EmitBatch(monitors: Bindings, postLock: Bindings, events: seq<Event>, transitions: seq<Transition>)
    returns (monitors': Bindings, postLock': Bindings, transitions': seq<Transition>, cancelled: bool)
    ensures monitors' == After(monitors, events)
    ensures cancelled <==> ResumesFromLock(Edges(monitors, events))
    ensures postLock' == if cancelled then map[] else After(postLock, events)
    ensures transitions' == transitions + Sort(Leq, Edges(monitors, events) + if cancelled then [] else Edges(postLock, events))
    ensures InPolicyOrder(transitions'[|transitions|..])
    ensures multiset(transitions'[|transitions|..]) == multiset(Edges(monitors, events) + if cancelled then [] else Edges(postLock, events))
  {
    ghost var main := Edges(monitors, events);
    var emitted: seq<Transition>;
    monitors', emitted := ApplyBatch(monitors, events, []);
    SortKeepsLockResume(main);
    assert emitted == Sort(Leq, main);
    cancelled := HasLockResume(emitted);
    if cancelled {
      postLock' := map[];
      SortOfSortedParts(main, []);
      assert Sort(Leq, main) + Sort(Leq, []) == emitted;
    } else {
      SortOfSortedParts(main, Edges(postLock, events));
      postLock', emitted := ApplyBatch(postLock, events, emitted);
    }
    transitions' := transitions + Sort(Leq, emitted);
    assert transitions'[|transitions|..] == Sort(Leq, emitted);
    SortingIsPolicyOrder(main + if cancelled then [] else Edges(postLock, events));
  }

  // ---------------------------------------------------------------- The retained objects

  /** The compositor as the runtime calls it. */
  class Wayland {
    const env: Outcomes
    var state: Compositor

    constructor (env: Outcomes, hasNotify: bool, hasNotifyInput: bool)
      ensures this.env == env && state == Start(hasNotify, hasNotifyInput)
    {
      this.env, state := env, Start(hasNotify, hasNotifyInput);
    }

    method Create(h: Handle) returns (id: Option<nat>)
      modifies this
      ensures (state, id) == CreateOne(env, old(state), h)
    {
      var r := CreateOne(env, state, h);
      state := r.0;
      return r.1;
    }

    method Destroy(id: nat)
      modifies this
      ensures state == DestroyAll(old(state), {id})
    {
      state := DestroyAll(state, {id});
    }
  }

  method Unregister(w: Wayland, bindings: Bindings)
    modifies w
    ensures w.state == DestroyAll(old(w.state), bindings.Keys)
  {
    var remaining := bindings.Keys;
    ghost var done: set<nat> := {};
    DestroyNone(w.state);
    while remaining != {}
      invariant done + remaining == bindings.Keys && done !! remaining
      invariant w.state == DestroyAll(old(w.state), done)
      decreases remaining
    {
      var id :| id in remaining;
      DestroyInTurn(old(w.state), done, {id});
      w.Destroy(id);
      remaining, done := remaining - {id}, done + {id};
    }
    assert done == bindings.Keys;
  }

  lemma {:induction false} DestroyNone(c: Compositor)
    ensures DestroyAll(c, {}) == c
  {
    assert c.live - {} == c.live && c.destroyed + {} == c.destroyed;
  }

  lemma {:induction false} FailureEndsRegistration(env: Outcomes, c: Compositor, stages: seq<(Stage, nat)>, kind: NotifyKind, at: nat, i: nat)
    requires i <= |stages| && RegisterAll(env, c, stages[..i], kind, at).1.Err?
    ensures RegisterAll(env, c, stages, kind, at) == RegisterAll(env, c, stages[..i], kind, at)
  {
    if i < |stages| {
      assert stages[..|stages| - 1][..i] == stages[..i];
      FailureEndsRegistration(env, c, stages[..|stages| - 1], kind, at, i);
    } else {
      assert stages[..i] == stages;
    }
  }

  method RegisterStages(w: Wayland, plan: Plan, stages: seq<(Stage, nat)>, at: nat) returns (r: Result<Bindings>)
    modifies w
    ensures (w.state, r) == Register(w.env, old(w.state), plan, stages, at)
  {
    if !plan.enabled || stages == [] {
      return Ok(map[]);
    }
    if !(if plan.respectInhibitors then w.state.hasNotify else w.state.hasNotifyInput) {
      return Err(MissingProtocol);
    }
    var kind := Kind(plan);
    var bindings: Bindings := map[];
    for i := 0 to |stages|
      invariant RegisterAll(w.env, old(w.state), stages[..i], kind, at) == (w.state, Ok(bindings))
    {
      assert stages[..i + 1][..i] == stages[..i] && stages[..i + 1][i] == stages[i];
      var created := w.Create(Handle(stages[i].1, kind, at));
      if created.None? {
        Unregister(w, bindings);
        FailureEndsRegistration(w.env, old(w.state), stages, kind, at, i + 1);
        return Err(CreateFailed(stages[i].0));
      }
      bindings := bindings[created.value := Binding(stages[i].0, false)];
    }
    assert stages[..|stages|] == stages;
    return Ok(bindings);
  }

  class Runtime {
    const wayland: Wayland
    var monitors: Bindings
    var postLock: Bindings
    var startedAt: Option<nat>

    ghost function View(): World
      reads this, wayland
    {
      World(wayland.state, monitors, postLock, startedAt)
    }

    constructor (wayland: Wayland, monitors: Bindings)
      ensures this.wayland == wayland && View() == World(wayland.state, monitors, map[], None)
    {
      this.wayland, this.monitors, postLock, startedAt := wayland, monitors, map[], None;
    }

    static method Connect(w: Wayland, plan: Plan, now: nat, powerOk: bool, flushOk: bool) returns (runtime: Runtime?, error: Option<RegisterError>)
      modifies w
      ensures runtime == null <==> error.Some?
      ensures runtime != null ==> fresh(runtime) && runtime.wayland == w
      ensures Connected(w.env, old(w.state), plan, now, powerOk, flushOk) ==
              (w.state, if runtime == null then Err(error.value) else Ok(runtime.View()))
    {
      runtime, error := null, None;
      var registered := RegisterStages(w, plan, MainStages(plan), now);
      if registered.Err? {
        return null, Some(registered.error);
      }
      if !powerOk || !flushOk {
        Unregister(w, registered.value);
        return null, Some(if powerOk then FlushFailed else OutputPowerFailed);
      }
      runtime := new Runtime(w, registered.value);
    }

    method Reconfigure(plan: Plan, now: nat, powerOk: bool, flushOk: bool) returns (r: Result<()>)
      modifies this, wayland
      ensures (View(), r) == Reconfigured(wayland.env, old(View()), plan, now, powerOk, flushOk)
    {
      var replacement := RegisterStages(wayland, plan, MainStages(plan), now);
      if replacement.Err? {
        return Err(replacement.error);
      }
      var post := RegisterStages(wayland, plan, PostLockStages(plan, startedAt, now), now);
      if post.Err? {
        Unregister(wayland, replacement.value);
        return Err(post.error);
      }
      if !powerOk {
        Unregister(wayland, post.value);
        Unregister(wayland, replacement.value);
        return Err(OutputPowerFailed);
      }
      Unregister(wayland, monitors);
      Unregister(wayland, postLock);
      monitors := replacement.value;
      postLock := post.value;
      return Flushed(flushOk);
    }

    method Rebase(plan: Plan, now: nat, flushOk: bool) returns (r: Result<()>)
      modifies this, wayland
      ensures (View(), r) == Rebased(wayland.env, old(View()), plan, now, flushOk)
    {
      var post := RegisterStages(wayland, plan, PostLockStages(plan, Some(now), now), now);
      if post.Err? {
        return Err(post.error);
      }
      Unregister(wayland, postLock);
      postLock, startedAt := post.value, Some(now);
      return Flushed(flushOk);
    }

    method ApplyEvents(events: seq<Event>, transitions: seq<Transition>) returns (transitions': seq<Transition>, cancelled: bool)
      modifies this, wayland
      ensures View() == Emitted(old(View()), events).0 && transitions' == transitions + Emitted(old(View()), events).1
      ensures cancelled <==> ResumesFromLock(Edges(old(monitors), events))
      ensures InPolicyOrder(transitions'[|transitions|..])
    {
      var post: Bindings;
      assert Edges(monitors, events) + [] == Edges(monitors, events);
      monitors, post, transitions', cancelled := EmitBatch(monitors, postLock, events, transitions);
      if cancelled {
        Unregister(wayland, postLock);
        startedAt := None;
      }
      postLock := post;
    }

    method Drop()
      modifies this, wayland
      ensures wayland.state == Dropped(old(View()))
    {
      Unregister(wayland, postLock);
      Unregister(wayland, monitors);
      monitors, postLock, startedAt := map[], map[], None;
    }
  }

  method Perform(runtime: Runtime, command: Command, transitions: seq<Transition>) returns (transitions': seq<Transition>)
    modifies runtime, runtime.wayland
    ensures runtime.View() == Take(runtime.wayland.env, old(runtime.View()), command).0
    ensures transitions' == transitions + Take(runtime.wayland.env, old(runtime.View()), command).1
  {
    transitions' := transitions;
    match command
    case Reconfigure(plan, now, powerOk, flushOk) =>
      var _ := runtime.Reconfigure(plan, now, powerOk, flushOk);
    case Rebase(plan, now, flushOk) =>
      var _ := runtime.Rebase(plan, now, flushOk);
    case Batch(events) =>
      var cancelled;
      transitions', cancelled := runtime.ApplyEvents(events, transitions');
  }

  /** The object follows the run on values, command by command. */
  method Drive(runtime: Runtime, commands: seq<Command>, transitions: seq<Transition>) returns (transitions': seq<Transition>)
    modifies runtime, runtime.wayland
    ensures runtime.View() == Run(runtime.wayland.env, old(runtime.View()), commands).0
    ensures transitions' == transitions + Run(runtime.wayland.env, old(runtime.View()), commands).1
  {
    ghost var env, start := runtime.wayland.env, runtime.View();
    transitions' := transitions;
    for n := 0 to |commands|
      invariant runtime.View() == Run(env, start, commands[..n]).0
      invariant transitions' == transitions + Run(env, start, commands[..n]).1
    {
      assert commands[..n + 1][..n] == commands[..n];
      transitions' := Perform(runtime, commands[n], transitions');
    }
    assert commands[..|commands|] == commands;
  }

  method Session(w: Wayland, plan: Plan, now: nat, powerOk: bool, flushOk: bool, commands: seq<Command>)
    modifies w
    ensures w.state == SessionEnd(w.env, old(w.state), plan, now, powerOk, flushOk, commands)
  {
    var runtime, _ := Runtime.Connect(w, plan, now, powerOk, flushOk);
    if runtime == null {
      return;
    }
    var _ := Drive(runtime, commands, []);
    runtime.Drop();
  }
}
