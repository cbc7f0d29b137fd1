/** Idle stages, event batches and the transitions they emit. */
module IdleEvents {
  import opened Sorting

  datatype Action = MonitorOff | Lock | Suspend
  datatype Stage = Stage(afterMs: nat, action: Action)
  datatype Binding = Binding(stage: Stage, idle: bool)
  datatype Event = Event(id: nat, idle: bool)
  datatype Transition = Transition(afterMs: nat, action: Action, idle: bool)

  type Bindings = map<nat, Binding>

  function Rank(a: Action): nat {
    match a case MonitorOff => 0 case Lock => 1 case Suspend => 2
  }

  /** The sort key (idle, after_ms, action), which mentions every field. */
  predicate Leq(a: Transition, b: Transition) {
    if a.idle != b.idle then b.idle
    else if a.afterMs != b.afterMs then a.afterMs < b.afterMs
    else Rank(a.action) <= Rank(b.action)
  }

  lemma {:induction false} LeqIsTotalOrder()
    ensures IsTotalOrder(Leq)
  {
  }

  /** Resumes before idles, then the shorter deadline, then monitor off before lock before suspend. */
  ghost predicate InPolicyOrder(transitions: seq<Transition>) {
    forall i, j :: 0 <= i < j < |transitions| ==>
      var a, b := transitions[i], transitions[j];
      || (!a.idle && b.idle)
      || (a.idle == b.idle && (|| a.afterMs < b.afterMs
                               || (a.afterMs == b.afterMs && (a.action == b.action || a.action == MonitorOff || b.action == Suspend))))
  }

  lemma {:induction false} SortingIsPolicyOrder(transitions: seq<Transition>)
    ensures InPolicyOrder(Sort(Leq, transitions)) && multiset(Sort(Leq, transitions)) == multiset(transitions)
  {
    LeqIsTotalOrder();
    SortSorts(Leq, transitions);
    var sorted := Sort(Leq, transitions);
    forall i, j | 0 <= i < j < |sorted| ensures Leq(sorted[i], sorted[j]) {
    }
  }

  function Emit(binding: Binding, idle: bool): Transition {
    Transition(binding.stage.afterMs, binding.stage.action, idle)
  }

  // ---------------------------------------------------------------- One pass over a batch

  function Apply(bindings: Bindings, e: Event): Bindings {
    if e.id in bindings then bindings[e.id := bindings[e.id].(idle := e.idle)] else bindings
  }

  predicate Flips(bindings: Bindings, e: Event) {
    e.id in bindings && bindings[e.id].idle != e.idle
  }

  function After(bindings: Bindings, events: seq<Event>): Bindings {
    if events == [] then bindings else Apply(After(bindings, events[..|events| - 1]), events[|events| - 1])
  }

  /** The transitions of a pass, in wire order. */
  function Edges(bindings: Bindings, events: seq<Event>): seq<Transition> {
    if events == [] then [] else
      var n := |events| - 1;
      var state, e := After(bindings, events[..n]), events[n];
      Edges(bindings, events[..n]) + if Flips(state, e) then [Emit(state[e.id], e.idle)] else []
  }

  // ---------------------------------------------------------------- What the pass means

  /** The flag last reported for `id`, or its flag before the batch. */
  ghost function LastFlag(events: seq<Event>, id: nat, before: bool): bool {
    if events == [] then before
    else if events[|events| - 1].id == id then events[|events| - 1].idle
    else LastFlag(events[..|events| - 1], id, before)
  }

  /** Every known notification ends at its last event; stages and the set of notifications stay. */
  lemma {:induction false} BindingsEndAtLastEvent(bindings: Bindings, events: seq<Event>)
    ensures After(bindings, events).Keys == bindings.Keys
    ensures forall id :: id in bindings ==>
      After(bindings, events)[id] == Binding(bindings[id].stage, LastFlag(events, id, bindings[id].idle))
  {
    if events != [] {
      BindingsEndAtLastEvent(bindings, events[..|events| - 1]);
    }
  }

  /** Event `k` is an edge: its notification is known and was last reported with the other flag. */
  ghost predicate IsEdge(bindings: Bindings, events: seq<Event>, k: nat)
    requires k < |events|
  {
    var e := events[k];
    e.id in bindings && LastFlag(events[..k], e.id, bindings[e.id].idle) != e.idle
  }

  ghost function EdgeIndices(bindings: Bindings, events: seq<Event>, n: nat): seq<nat>
    requires n <= |events|
  {
    if n == 0 then [] else
      EdgeIndices(bindings, events, n - 1) + if IsEdge(bindings, events, n - 1) then [n - 1] else []
  }

  ghost function EmittedAt(bindings: Bindings, events: seq<Event>, k: nat): Transition
    requires k < |events| && events[k].id in bindings
  {
    var stage := bindings[events[k].id].stage;
    Transition(stage.afterMs, stage.action, events[k].idle)
  }

  lemma {:induction false} EdgesAreTheFlips(bindings: Bindings, events: seq<Event>, n: nat)
    requires n <= |events|
    ensures
      var indices, edges := EdgeIndices(bindings, events, n), Edges(bindings, events[..n]);
      && |edges| == |indices|
      && (forall i :: 0 <= i < |indices| ==>
           && indices[i] < n && IsEdge(bindings, events, indices[i])
           && edges[i] == EmittedAt(bindings, events, indices[i]))
      && (forall i, j :: 0 <= i < j < |indices| ==> indices[i] < indices[j])
      && (forall k :: 0 <= k < n && IsEdge(bindings, events, k) ==> k in indices)
  {
    if n > 0 {
      EdgesAreTheFlips(bindings, events, n - 1);
      BindingsEndAtLastEvent(bindings, events[..n - 1]);
      assert events[..n][..n - 1] == events[..n - 1];
    }
  }

  /** Each notification's edges alternate: an edge differs from the flag left by the previous edge of
      the same notification, however many events lie between them. */
  lemma {:induction false} EdgesAlternate(bindings: Bindings, events: seq<Event>, j: nat, k: nat)
    requires j < k < |events| && IsEdge(bindings, events, j) && IsEdge(bindings, events, k)
    requires events[j].id == events[k].id
    requires forall m :: j < m < k && events[m].id == events[k].id ==> !IsEdge(bindings, events, m)
    ensures events[j].idle != events[k].idle
  {
    FlagHolds(bindings, events, j, k);
  }

  lemma {:induction false} FlagHolds(bindings: Bindings, events: seq<Event>, j: nat, k: nat)
    requires j < k <= |events| && events[j].id in bindings
    requires forall m :: j < m < k && events[m].id == events[j].id ==> !IsEdge(bindings, events, m)
    ensures LastFlag(events[..k], events[j].id, bindings[events[j].id].idle) == events[j].idle
    decreases k - j
  {
    assert events[..k][..k - 1] == events[..k - 1];
    if k > j + 1 {
      FlagHolds(bindings, events, j, k - 1);
    }
  }

  /** Batches compose: two batches have the bindings and edges of their concatenation, so alternation
      holds across batches. */
  lemma {:induction false} BatchesCompose(bindings: Bindings, first: seq<Event>, second: seq<Event>)
    ensures After(bindings, first + second) == After(After(bindings, first), second)
    ensures Edges(bindings, first + second) == Edges(bindings, first) + Edges(After(bindings, first), second)
    decreases |second|
  {
    if second == [] {
      assert first + second == first;
    } else {
      var n := |second| - 1;
      assert (first + second)[..|first| + n] == first + second[..n];
      BatchesCompose(bindings, first, second[..n]);
    }
  }

  // ---------------------------------------------------------------- Emission order

  predicate HasStage(t: Transition, stage: Stage) {
    t.afterMs == stage.afterMs && t.action == stage.action
  }

  /** The transitions of one stage, in the order they appear. */
  ghost function OfStage(transitions: seq<Transition>, stage: Stage): seq<Transition> {
    if transitions == [] then []
    else
      var n := |transitions| - 1;
      OfStage(transitions[..n], stage) + if HasStage(transitions[n], stage) then [transitions[n]] else []
  }

  lemma {:induction false} StageCount(s: seq<Transition>, stage: Stage, t: Transition)
    ensures multiset(OfStage(s, stage))[t] == if HasStage(t, stage) then multiset(s)[t] else 0
  {
    if s != [] {
      var n := |s| - 1;
      StageCount(s[..n], stage, t);
      assert s == s[..n] + [s[n]];
    }
  }

  lemma {:induction false} StageOfSorted(s: seq<Transition>, stage: Stage)
    requires Sorted(Leq, s)
    ensures Sorted(Leq, OfStage(s, stage))
  {
    if s != [] {
      var n := |s| - 1;
      var front := OfStage(s[..n], stage);
      StageOfSorted(s[..n], stage);
      forall i | 0 <= i < |front| ensures Leq(front[i], s[n]) {
        StageCount(s[..n], stage, front[i]);
        assert front[i] in multiset(front);
        assert front[i] in s[..n];
      }
    }
  }

  /** Sorting the batch sorts the transitions of every stage: a permutation of them, every resume
      before every idle. */
  lemma {:induction false} ResumesComeFirst(edges: seq<Transition>, stage: Stage)
    ensures
      var own, emitted := OfStage(edges, stage), OfStage(Sort(Leq, edges), stage);
      && Sorted(Leq, emitted) && multiset(emitted) == multiset(own)
      && forall i, j :: 0 <= i < j < |emitted| && emitted[i].idle ==> emitted[j].idle
  {
    LeqIsTotalOrder();
    SortSorts(Leq, edges);
    StageOfSorted(Sort(Leq, edges), stage);
    forall t
      ensures multiset(OfStage(Sort(Leq, edges), stage))[t] == multiset(OfStage(edges, stage))[t]
    {
      StageCount(edges, stage, t);
      StageCount(Sort(Leq, edges), stage, t);
    }
  }

  /** No other notification has the stage of `id`. */
  ghost predicate OwnStage(bindings: Bindings, id: nat) {
    id in bindings && forall other :: other in bindings && other != id ==> bindings[other].stage != bindings[id].stage
  }

  /** `own` alternates from the opposite of the binding's flag. */
  ghost predicate Alternates(own: seq<Transition>, binding: Binding) {
    forall k :: 0 <= k < |own| ==> own[k] == Emit(binding, if k % 2 == 0 then !binding.idle else binding.idle)
  }

  /** The edges of such a notification alternate in wire order, and the last one is where it ends. */
  lemma {:induction false} OwnEdgesAlternate(bindings: Bindings, events: seq<Event>, id: nat)
    requires OwnStage(bindings, id)
    ensures
      var own := OfStage(Edges(bindings, events), bindings[id].stage);
      && Alternates(own, bindings[id]) && id in After(bindings, events)
      && After(bindings, events)[id].idle == (if own == [] then bindings[id].idle else own[|own| - 1].idle)
  {
    if events != [] {
      var n := |events| - 1;
      var front, state, e := Edges(bindings, events[..n]), After(bindings, events[..n]), events[n];
      OwnEdgesAlternate(bindings, events[..n], id);
      BindingsEndAtLastEvent(bindings, events[..n]);
      var own := OfStage(front, bindings[id].stage);
      if Flips(state, e) {
        assert Edges(bindings, events)[..|front|] == front;
        assert e.id == id ==> OfStage(Edges(bindings, events), bindings[id].stage) == own + [Emit(bindings[id], e.idle)];
        assert e.id != id ==> OfStage(Edges(bindings, events), bindings[id].stage) == own;
      } else {
        assert Edges(bindings, events) == front;
      }
    }
  }

  lemma {:induction false} AlternatingIsSorted(own: seq<Transition>, binding: Binding)
    requires Alternates(own, binding)
    ensures Sorted(Leq, own) <==> |own| <= 1 || (|own| == 2 && binding.idle)
  {
    if |own| >= 2 {
      assert own[0] == Emit(binding, !binding.idle) && own[1] == Emit(binding, binding.idle);
      if |own| > 2 {
        assert own[2] == Emit(binding, !binding.idle);
        assert !Leq(own[0], own[1]) || !Leq(own[1], own[2]);
      }
    }
  }

  lemma {:induction false} SortedOrderKept(own: seq<Transition>, emitted: seq<Transition>, binding: Binding)
    requires Alternates(own, binding) && Sorted(Leq, emitted) && multiset(emitted) == multiset(own)
    ensures emitted == own <==> |own| <= 1 || (|own| == 2 && binding.idle)
  {
    AlternatingIsSorted(own, binding);
    if Sorted(Leq, own) {
      LeqIsTotalOrder();
      SortedUnique(Leq, emitted, own);
    }
  }

  lemma {:induction false} SortedLast(own: seq<Transition>, emitted: seq<Transition>, binding: Binding)
    requires own != [] && Alternates(own, binding) && Sorted(Leq, emitted) && multiset(emitted) == multiset(own)
    ensures emitted != []
    ensures emitted[|emitted| - 1].idle == own[|own| - 1].idle <==> |own| == 1 || own[|own| - 1].idle
  {
    SortedOrderKept(own, emitted, binding);
    if |own| > 1 {
      assert own[0].idle || own[1].idle;
      IdleStaysLast(own, emitted, if own[0].idle then 0 else 1);
    }
  }

  lemma {:induction false} IdleStaysLast(own: seq<Transition>, emitted: seq<Transition>, k: nat)
    requires Sorted(Leq, emitted) && multiset(emitted) == multiset(own) && k < |own| && own[k].idle
    ensures emitted != [] && emitted[|emitted| - 1].idle
  {
    assert own[k] in multiset(emitted);
    var i :| 0 <= i < |emitted| && emitted[i] == own[k];
    assert i < |emitted| - 1 ==> Leq(emitted[i], emitted[|emitted| - 1]);
  }

  lemma {:induction false} StageOfConcat(left: seq<Transition>, right: seq<Transition>, stage: Stage)
    ensures OfStage(left + right, stage) == OfStage(left, stage) + OfStage(right, stage)
  {
    if right == [] {
      assert left + right == left;
    } else {
      var n := |right| - 1;
      StageOfConcat(left, right[..n], stage);
      assert (left + right)[..|left| + n] == left + right[..n];
    }
  }

  lemma {:induction false} NoEdgesOfStage(bindings: Bindings, events: seq<Event>, stage: Stage)
    requires forall id :: id in bindings ==> bindings[id].stage != stage
    ensures OfStage(Edges(bindings, events), stage) == []
  {
    if events != [] {
      var n := |events| - 1;
      NoEdgesOfStage(bindings, events[..n], stage);
      BindingsEndAtLastEvent(bindings, events[..n]);
      var front, state, e := Edges(bindings, events[..n]), After(bindings, events[..n]), events[n];
      if Flips(state, e) {
        assert Edges(bindings, events)[..|front|] == front;
      } else {
        assert Edges(bindings, events) == front;
      }
    }
  }

  /** What is emitted for a notification of the first set, when both sets are sorted together. */
  lemma {:induction false} EmittedOf(bindings: Bindings, others: Bindings, events: seq<Event>, id: nat)
    requires OwnStage(bindings, id) && forall other :: other in others ==> others[other].stage != bindings[id].stage
    ensures
      var own := OfStage(Edges(bindings, events), bindings[id].stage);
      var emitted := OfStage(Sort(Leq, Edges(bindings, events) + Edges(others, events)), bindings[id].stage);
      Alternates(own, bindings[id]) && Sorted(Leq, emitted) && multiset(emitted) == multiset(own)
  {
    var stage, edges := bindings[id].stage, Edges(bindings, events) + Edges(others, events);
    OwnEdgesAlternate(bindings, events, id);
    NoEdgesOfStage(others, events, stage);
    StageOfConcat(Edges(bindings, events), Edges(others, events), stage);
    assert OfStage(edges, stage) == OfStage(Edges(bindings, events), stage);
    ResumesComeFirst(edges, stage);
  }

  /** Exactly when the emitted order is the order of events for a notification whose stage no other
      notification has, the edges of both monitor sets being sorted together: it flipped at most once in
      the batch, or twice starting from idle. */
  lemma {:induction false} EmittedOrderIsEventOrder(bindings: Bindings, others: Bindings, events: seq<Event>, id: nat)
    requires OwnStage(bindings, id) && forall other :: other in others ==> others[other].stage != bindings[id].stage
    ensures
      var own := OfStage(Edges(bindings, events), bindings[id].stage);
      OfStage(Sort(Leq, Edges(bindings, events) + Edges(others, events)), bindings[id].stage) == own <==>
      |own| <= 1 || (|own| == 2 && bindings[id].idle)
  {
    var own := OfStage(Edges(bindings, events), bindings[id].stage);
    var emitted := OfStage(Sort(Leq, Edges(bindings, events) + Edges(others, events)), bindings[id].stage);
    EmittedOf(bindings, others, events, id);
    SortedOrderKept(own, emitted, bindings[id]);
  }

  /** Exactly when the last transition emitted for it shows where it ended: it flipped once, or ended
      idle. */
  lemma {:induction false} LastEmittedFlag(bindings: Bindings, others: Bindings, events: seq<Event>, id: nat)
    requires OwnStage(bindings, id) && forall other :: other in others ==> others[other].stage != bindings[id].stage
    requires OfStage(Edges(bindings, events), bindings[id].stage) != []
    ensures
      var own := OfStage(Edges(bindings, events), bindings[id].stage);
      var emitted := OfStage(Sort(Leq, Edges(bindings, events) + Edges(others, events)), bindings[id].stage);
      && id in After(bindings, events) && emitted != []
      && (emitted[|emitted| - 1].idle == After(bindings, events)[id].idle <==> |own| == 1 || After(bindings, events)[id].idle)
  {
    var own := OfStage(Edges(bindings, events), bindings[id].stage);
    var emitted := OfStage(Sort(Leq, Edges(bindings, events) + Edges(others, events)), bindings[id].stage);
    EmittedOf(bindings, others, events, id);
    OwnEdgesAlternate(bindings, events, id);
    SortedLast(own, emitted, bindings[id]);
  }

  /** A notification that goes idle and resumes within one batch is emitted the other way round, and
      the last transition a consumer sees contradicts the binding. */
  lemma {:induction false} DoubleFlipIsReordered()
    ensures
      var bindings := map[7 := Binding(Stage(60000, Lock), false)];
      var events := [Event(7, true), Event(7, false)];
      && Sort(Leq, Edges(bindings, events)) == [Transition(60000, Lock, false), Transition(60000, Lock, true)]
      && !After(bindings, events)[7].idle
  {
    var bindings: Bindings := map[7 := Binding(Stage(60000, Lock), false)];
    var events := [Event(7, true), Event(7, false)];
    assert events[..1] == [Event(7, true)] && events[..1][..0] == [];
    assert After(bindings, events[..1]) == bindings[7 := Binding(Stage(60000, Lock), true)];
    var up, down := Transition(60000, Lock, true), Transition(60000, Lock, false);
    assert Edges(bindings, events[..1]) == [up];
    assert Edges(bindings, events) == [up, down];
    assert [up, down][1..] == [down] && [down][1..] == [];
    assert Sort(Leq, [down]) == [down];
    assert Insert(Leq, up, [down]) == [down, up];
  }

  // ---------------------------------------------------------------- Remaining post-lock time

  const NANOS_PER_MS := 1000000
  const U32_MAX := 0xffff_ffff
  type U32 = n: nat | n <= U32_MAX

  /** Milliseconds elapsed between two instants given in nanoseconds: saturating at zero, truncated,
      capped to 32 bits. */
  function ElapsedMs(startedAt: nat, now: nat): nat {
    var elapsed := if now < startedAt then 0 else (now - startedAt) / NANOS_PER_MS;
    if elapsed < U32_MAX then elapsed else U32_MAX
  }

  function RemainingMs(startedAt: nat, now: nat, afterMs: nat): nat {
    var elapsed := ElapsedMs(startedAt, now);
    if afterMs < elapsed then 0 else afterMs - elapsed
  }

  /** A notification set at `at` for `timeoutMs` fires at the deadline fixed by the lock, rounded up by
      less than a millisecond, or at once if that deadline had passed. */
  ghost predicate WithinDeadline(startedAt: nat, afterMs: nat, at: nat, timeoutMs: nat) {
    var deadline := startedAt + afterMs * NANOS_PER_MS;
    if at < deadline then deadline <= at + timeoutMs * NANOS_PER_MS < deadline + NANOS_PER_MS else timeoutMs == 0
  }

  lemma {:induction false} RemainingIsWithinDeadline(startedAt: nat, now: nat, afterMs: U32)
    requires startedAt <= now
    ensures WithinDeadline(startedAt, afterMs, now, RemainingMs(startedAt, now, afterMs))
  {
  }
}
