/** Incoming drag-and-drop offers: Enter, Leave, Drop and asynchronous reads in any interleaving. */
module DndTransfers {
  import opened Basics

  datatype Transfer = Transfer(dropped: bool, readComplete: bool)

  type Transfers = map<nat, Transfer>

  /** What the compositor is told about an offer. */
  datatype Act = Finish(offer: nat) | Discard(offer: nat)

  /** `hasWindow` says whether the surface still exists. A reader queues its completion at `ReadDone`;
      `Dispatching` handles everything queued. */
  datatype Event = Entering(offer: nat, hasWindow: bool) | Leaving(offer: nat) | Dropping(offer: nat) | ReadDone(offer: nat) | Dispatching

  datatype State = State(transfers: Transfers, completedReads: seq<nat>)

  predicate Ready(t: Transfer) {
    t.dropped && t.readComplete
  }

  // ---------------------------------------------------------------- One event

  function FinishIfReady(transfers: Transfers, offer: nat): (Transfers, seq<Act>) {
    if offer in transfers && Ready(transfers[offer]) then (transfers - {offer}, [Finish(offer)]) else (transfers, [])
  }

  function CompleteRead(transfers: Transfers, offer: nat): (Transfers, seq<Act>) {
    FinishIfReady(if offer in transfers then transfers[offer := transfers[offer].(readComplete := true)] else transfers, offer)
  }

  function CompleteReads(transfers: Transfers, done: seq<nat>): (Transfers, seq<Act>) {
    if done == [] then (transfers, [])
    else
      var (before, acts) := CompleteReads(transfers, done[..|done| - 1]);
      var (after, more) := CompleteRead(before, done[|done| - 1]);
      (after, acts + more)
  }

  function Step(s: State, e: Event): (State, seq<Act>) {
    match e
    case Entering(offer, hasWindow) =>
      (if hasWindow then s.(transfers := s.transfers[offer := Transfer(false, false)]) else s, [])
    case Leaving(offer) =>
      if offer in s.transfers && s.transfers[offer].dropped then (s, [])
      else (s.(transfers := s.transfers - {offer}), [Discard(offer)])
    case Dropping(offer) =>
      var marked := if offer in s.transfers then s.transfers[offer := s.transfers[offer].(dropped := true)] else s.transfers;
      var (transfers, acts) := FinishIfReady(marked, offer);
      (s.(transfers := transfers), acts)
    case ReadDone(offer) => (s.(completedReads := s.completedReads + [offer]), [])
    case Dispatching =>
      var (transfers, acts) := CompleteReads(s.transfers, s.completedReads);
      (State(transfers, []), acts)
  }

  function Run(events: seq<Event>): State {
    if events == [] then State(map[], []) else Step(Run(events[..|events| - 1]), events[|events| - 1]).0
  }

  /** What the compositor is told while event `t` is dispatched. */
  function Acts(events: seq<Event>, t: nat): seq<Act>
    requires t < |events|
  {
    Step(Run(events[..t]), events[t]).1
  }

  // ---------------------------------------------------------------- The same, read off the events

  /** An offer id enters at most once. */
  ghost predicate FreshOffers(events: seq<Event>) {
    forall i, j :: 0 <= i < j < |events| && events[i].Entering? && events[j].Entering? ==> events[i].offer != events[j].offer
  }

  ghost predicate Dropped(events: seq<Event>, i: nat, o: nat) {
    exists j :: i < j < |events| && events[j] == Dropping(o)
  }

  /** A read of `o` is queued since the last dispatch. */
  ghost predicate Queued(events: seq<Event>, o: nat) {
    exists r :: 0 <= r < |events| && events[r] == ReadDone(o) && forall m :: r < m < |events| ==> events[m] != Dispatching
  }

  /** A dispatch after event `i` handled a read of `o`. */
  ghost predicate Read(events: seq<Event>, i: nat, o: nat) {
    exists k :: i < k < |events| && events[k] == Dispatching && Queued(events[..k], o)
  }

  /** The drag left after event `i` before any drop. */
  ghost predicate Left(events: seq<Event>, i: nat, o: nat) {
    exists l :: i < l < |events| && events[l] == Leaving(o) && !Dropped(events[..l], i, o)
  }

  ghost predicate Entered(events: seq<Event>, i: nat, o: nat) {
    i < |events| && events[i] == Entering(o, true)
  }

  /** Entered a window, not left before a drop, dropped, and read. */
  ghost predicate Complete(events: seq<Event>, i: nat, o: nat) {
    Entered(events, i, o) && !Left(events, i, o) && Dropped(events, i, o) && Read(events, i, o)
  }

  /** Entered a window, not left before a drop, dropped, and not read yet. */
  ghost predicate AwaitsRead(events: seq<Event>, i: nat, o: nat) {
    Entered(events, i, o) && !Left(events, i, o) && Dropped(events, i, o) && !Read(events, i, o)
  }

  ghost function RecordSince(events: seq<Event>, i: nat, o: nat): Option<Transfer> {
    if Left(events, i, o) || (Dropped(events, i, o) && Read(events, i, o)) then None
    else Some(Transfer(Dropped(events, i, o), Read(events, i, o)))
  }

  function Record(s: State, o: nat): Option<Transfer> {
    if o in s.transfers then Some(s.transfers[o]) else None
  }

  // ---------------------------------------------------------------- One more event

  lemma {:induction false} DroppedSnoc(events: seq<Event>, e: Event, i: nat, o: nat)
    requires i < |events|
    ensures Dropped(events + [e], i, o) <==> Dropped(events, i, o) || e == Dropping(o)
  {
    var more := events + [e];
    assert more[|events|] == e && forall j :: 0 <= j < |events| ==> more[j] == events[j];
  }

  lemma {:induction false} QueuedSnoc(events: seq<Event>, e: Event, o: nat)
    ensures Queued(events + [e], o) <==> e != Dispatching && (Queued(events, o) || e == ReadDone(o))
  {
    var more := events + [e];
    assert more[|events|] == e && forall j :: 0 <= j < |events| ==> more[j] == events[j];
    if Queued(more, o) {
      var r :| 0 <= r < |more| && more[r] == ReadDone(o) && forall m :: r < m < |more| ==> more[m] != Dispatching;
      assert r < |events| ==> events[r] == ReadDone(o) && forall m :: r < m < |events| ==> events[m] != Dispatching;
    }
    if Queued(events, o) && e != Dispatching {
      var r :| 0 <= r < |events| && events[r] == ReadDone(o) && forall m :: r < m < |events| ==> events[m] != Dispatching;
      assert more[r] == ReadDone(o);
    }
  }

  lemma {:induction false} ReadSnoc(events: seq<Event>, e: Event, i: nat, o: nat)
    requires i < |events|
    ensures Read(events + [e], i, o) <==> Read(events, i, o) || (e == Dispatching && Queued(events, o))
  {
    var more := events + [e];
    assert more[|events|] == e && more[..|events|] == events;
    forall k | 0 <= k < |events| ensures more[k] == events[k] && more[..k] == events[..k] {
    }
  }

  lemma {:induction false} LeftSnoc(events: seq<Event>, e: Event, i: nat, o: nat)
    requires i < |events|
    ensures Left(events + [e], i, o) <==> Left(events, i, o) || (e == Leaving(o) && !Dropped(events, i, o))
  {
    var more := events + [e];
    assert more[|events|] == e && more[..|events|] == events;
    forall k | 0 <= k < |events| ensures more[k] == events[k] && more[..k] == events[..k] {
    }
  }

  /** Nothing follows the entry of the last event. */
  lemma {:induction false} JustEntered(events: seq<Event>, o: nat)
    requires events != []
    ensures RecordSince(events, |events| - 1, o) == Some(Transfer(false, false))
  {
  }

  // ---------------------------------------------------------------- A dispatch, offer by offer

  /** What handling reads does to one offer: nothing unless it is among them and recorded; then it is
      finished, once, if it was dropped, and marked otherwise. */
  lemma {:induction false} CompleteReadsOf(transfers: Transfers, done: seq<nat>, o: nat)
    requires o in transfers ==> !Ready(transfers[o])
    ensures
      var (after, acts) := CompleteReads(transfers, done);
      var hit := o in done && o in transfers;
      && Record(State(after, []), o) ==
         (if o !in transfers || (hit && transfers[o].dropped) then None
          else Some(if hit then transfers[o].(readComplete := true) else transfers[o]))
      && multiset(acts)[Finish(o)] == (if hit && transfers[o].dropped then 1 else 0)
      && Discard(o) !in acts
  {
    if done != [] {
      var front, last := done[..|done| - 1], done[|done| - 1];
      CompleteReadsOf(transfers, front, o);
      assert done == front + [last];
      var (before, acts) := CompleteReads(transfers, front);
      var (after, more) := CompleteRead(before, last);
      assert multiset(acts + more) == multiset(acts) + multiset(more);
    }
  }

  // ---------------------------------------------------------------- The records are what the events say

  lemma {:induction false} QueueHolds(events: seq<Event>, o: nat)
    ensures o in Run(events).completedReads <==> Queued(events, o)
  {
    if events != [] {
      var front, e := events[..|events| - 1], events[|events| - 1];
      assert events == front + [e];
      QueueHolds(front, o);
      QueuedSnoc(front, e, o);
    }
  }

  /** The record of an offer after any run: none before it entered a window, then determined by which
      of Leave, Drop and a handled read have happened since. */
  lemma {:induction false} RecordsFollowEvents(events: seq<Event>, o: nat)
    requires FreshOffers(events)
    ensures (forall i: nat :: !Entered(events, i, o)) ==> Record(Run(events), o) == None
    ensures forall i: nat :: Entered(events, i, o) ==> Record(Run(events), o) == RecordSince(events, i, o)
  {
    if events != [] {
      var front, e := events[..|events| - 1], events[|events| - 1];
      assert events == front + [e];
      RecordsFollowEvents(front, o);
      forall i: nat | Entered(events, i, o)
        ensures Record(Run(events), o) == RecordSince(events, i, o)
      {
        if i == |front| {
          JustEntered(events, o);
        } else {
          assert Entered(front, i, o);
          RecordStep(front, e, i, o);
        }
      }
      if forall i: nat :: !Entered(events, i, o) {
        forall i: nat ensures !Entered(front, i, o) {
          assert !Entered(events, i, o);
        }
        assert !Entered(events, |front|, o);
        NoRecordStep(front, e, o);
      }
    }
  }

  lemma {:induction false} NoRecordStep(front: seq<Event>, e: Event, o: nat)
    requires Record(Run(front), o) == None && e != Entering(o, true)
    ensures Record(Run(front + [e]), o) == None
  {
    assert (front + [e])[..|front|] == front;
    if e == Dispatching {
      CompleteReadsOf(Run(front).transfers, Run(front).completedReads, o);
    }
  }

  lemma {:induction false} RecordStep(front: seq<Event>, e: Event, i: nat, o: nat)
    requires Entered(front, i, o) && FreshOffers(front + [e])
    requires Record(Run(front), o) == RecordSince(front, i, o)
    ensures Record(Run(front + [e]), o) == RecordSince(front + [e], i, o)
  {
    var s, more := Run(front), front + [e];
    assert more[..|front|] == front && more[i] == front[i] && more[|front|] == e;
    assert !(e.Entering? && e.offer == o);
    DroppedSnoc(front, e, i, o);
    ReadSnoc(front, e, i, o);
    LeftSnoc(front, e, i, o);
    QueueHolds(front, o);
    NeverLeftReady(front, i, o);
    if e == Dispatching {
      CompleteReadsOf(s.transfers, s.completedReads, o);
    }
  }

  lemma {:induction false} NeverLeftReady(events: seq<Event>, i: nat, o: nat)
    ensures RecordSince(events, i, o).Some? ==> !Ready(RecordSince(events, i, o).value)
  {
  }

  // ---------------------------------------------------------------- What the compositor is told

  lemma {:induction false} FreshPrefix(events: seq<Event>, t: nat)
    requires FreshOffers(events) && t <= |events|
    ensures FreshOffers(events[..t])
  {
  }

  lemma {:induction false} CompleteReadsNever(events: seq<Event>, o: nat)
    requires FreshOffers(events)
    ensures o in Run(events).transfers ==> !Ready(Run(events).transfers[o])
    ensures o in Run(events).transfers ==> exists i: nat :: Entered(events, i, o)
  {
    RecordsFollowEvents(events, o);
    if i: nat :| Entered(events, i, o) {
      NeverLeftReady(events, i, o);
    }
  }

  /** An offer that is complete has entered before the event that completed it. */
  lemma {:induction false} EntryBefore(front: seq<Event>, e: Event, i: nat, o: nat)
    requires Complete(front + [e], i, o)
    ensures i < |front| && Entered(front, i, o)
  {
    var more := front + [e];
    var j :| i < j < |more| && more[j] == Dropping(o);
    assert more[i] == front[i];
  }

  lemma {:induction false} CompletedBy(front: seq<Event>, e: Event, i: nat, o: nat)
    requires FreshOffers(front + [e]) && Entered(front, i, o)
    requires Record(Run(front), o) == RecordSince(front, i, o)
    ensures Complete(front + [e], i, o) && !Complete(front, i, o) <==> Finish(o) in Step(Run(front), e).1
  {
    var s, more := Run(front), front + [e];
    assert more[i] == front[i] && more[|front|] == e;
    DroppedSnoc(front, e, i, o);
    ReadSnoc(front, e, i, o);
    LeftSnoc(front, e, i, o);
    QueueHolds(front, o);
    NeverLeftReady(front, i, o);
    if e == Dispatching {
      CompleteReadsOf(s.transfers, s.completedReads, o);
      assert Finish(o) in Step(s, e).1 <==> multiset(Step(s, e).1)[Finish(o)] > 0;
    }
  }

  lemma {:induction false} FinishStep(front: seq<Event>, e: Event, o: nat)
    requires FreshOffers(front) && FreshOffers(front + [e])
    ensures Finish(o) in Step(Run(front), e).1 <==> exists i: nat :: Complete(front + [e], i, o) && !Complete(front, i, o)
  {
    RecordsFollowEvents(front, o);
    if Finish(o) in Step(Run(front), e).1 {
      FinishNeedsRecord(front, e, o);
      CompleteReadsNever(front, o);
      var i: nat :| Entered(front, i, o);
      CompletedBy(front, e, i, o);
    }
    if i: nat :| Complete(front + [e], i, o) && !Complete(front, i, o) {
      EntryBefore(front, e, i, o);
      CompletedBy(front, e, i, o);
    }
  }

  lemma {:induction false} FinishNeedsRecord(front: seq<Event>, e: Event, o: nat)
    requires FreshOffers(front) && Finish(o) in Step(Run(front), e).1
    ensures o in Run(front).transfers
  {
    CompleteReadsNever(front, o);
    CompleteReadsOf(Run(front).transfers, Run(front).completedReads, o);
    assert Finish(o) in multiset(Step(Run(front), e).1);
  }

  lemma {:induction false} FinishOnceInStep(front: seq<Event>, e: Event, o: nat)
    requires FreshOffers(front)
    ensures multiset(Step(Run(front), e).1)[Finish(o)] <= 1
  {
    CompleteReadsNever(front, o);
    CompleteReadsOf(Run(front).transfers, Run(front).completedReads, o);
  }

  /** In every interleaving with fresh offers, an offer is finished by the dispatch of event `t`
      exactly when that event completes it: it entered a window, did not leave before a drop, and with
      `t` has for the first time been both dropped and read. */
  lemma {:induction false} FinishedExactlyWhenComplete(events: seq<Event>, t: nat, o: nat)
    requires FreshOffers(events) && t < |events|
    ensures Finish(o) in Acts(events, t) <==> exists i: nat :: Complete(events[..t + 1], i, o) && !Complete(events[..t], i, o)
  {
    assert events[..t + 1] == events[..t] + [events[t]];
    FreshPrefix(events, t);
    FreshPrefix(events, t + 1);
    FinishStep(events[..t], events[t], o);
  }

  /** A completed offer stays complete, whatever follows. */
  lemma {:induction false} CompleteStays(events: seq<Event>, t: nat, i: nat, o: nat)
    requires t <= |events| && Complete(events[..t], i, o)
    ensures Complete(events, i, o)
  {
    if t < |events| {
      var n := |events| - 1;
      assert events[..n][..t] == events[..t] && events == events[..n] + [events[n]];
      CompleteStays(events[..n], t, i, o);
      DroppedSnoc(events[..n], events[n], i, o);
      ReadSnoc(events[..n], events[n], i, o);
      LeftSnoc(events[..n], events[n], i, o);
    } else {
      assert events[..t] == events;
    }
  }

  /** Over a whole run an offer is finished at most once. */
  lemma {:induction false} FinishedAtMostOnce(events: seq<Event>, t: nat, u: nat, o: nat)
    requires FreshOffers(events) && t <= u < |events|
    requires Finish(o) in Acts(events, t) && Finish(o) in Acts(events, u)
    ensures t == u && multiset(Acts(events, t))[Finish(o)] == 1
  {
    FreshPrefix(events, t);
    FinishOnceInStep(events[..t], events[t], o);
    assert Finish(o) in multiset(Acts(events, t));
    FinishedExactlyWhenComplete(events, t, o);
    FinishedExactlyWhenComplete(events, u, o);
    if t < u {
      var i: nat :| Complete(events[..t + 1], i, o) && !Complete(events[..t], i, o);
      var k: nat :| Complete(events[..u + 1], k, o) && !Complete(events[..u], k, o);
      assert events[i] == Entering(o, true) == events[k];
      assert events[..u][..t + 1] == events[..t + 1];
      CompleteStays(events[..u], t + 1, i, o);
    }
  }

  /** Exactly when an offer is discarded: at a Leave, unless it is dropped and awaits its read. */
  lemma {:induction false} DiscardedExactly(events: seq<Event>, t: nat, o: nat)
    requires FreshOffers(events) && t < |events|
    ensures Discard(o) in Acts(events, t) <==> events[t] == Leaving(o) && !exists i: nat :: AwaitsRead(events[..t], i, o)
  {
    var front := events[..t];
    FreshPrefix(events, t);
    KnownExactly(front, o);
    CompleteReadsNever(front, o);
    if events[t] == Dispatching {
      CompleteReadsOf(Run(front).transfers, Run(front).completedReads, o);
    }
  }

  /** Exactly when the dispatcher has a record of an offer, as a Drop or Leave finds it, and when that
      record says dropped. */
  lemma {:induction false} KnownExactly(events: seq<Event>, o: nat)
    requires FreshOffers(events)
    ensures o in Run(events).transfers <==>
      exists i: nat :: Entered(events, i, o) && !Left(events, i, o) && !Complete(events, i, o)
    ensures o in Run(events).transfers && Run(events).transfers[o].dropped <==> exists i: nat :: AwaitsRead(events, i, o)
  {
    RecordsFollowEvents(events, o);
    if o in Run(events).transfers {
      var i: nat :| Entered(events, i, o);
      assert Record(Run(events), o) == RecordSince(events, i, o);
      assert !Complete(events, i, o);
      assert Run(events).transfers[o].dropped ==> AwaitsRead(events, i, o);
    }
  }

  /** Hence a drop after entering and before leaving protects the offer until it is finished. */
  lemma {:induction false} NotDiscardedBetweenDropAndFinish(events: seq<Event>, i: nat, j: nat, l: nat, t: nat, o: nat)
    requires FreshOffers(events) && Entered(events, i, o) && i < j < l <= t < |events|
    requires events[j] == Dropping(o) && Finish(o) in Acts(events, t)
    ensures Discard(o) !in Acts(events, l)
  {
    FinishedExactlyWhenComplete(events, t, o);
    var k: nat :| Complete(events[..t + 1], k, o) && !Complete(events[..t], k, o);
    assert events[k] == Entering(o, true) && k == i;
    DiscardedExactly(events, l, o);
    assert events[..t][..l] == events[..l];
    if Complete(events[..l], i, o) {
      CompleteStays(events[..t], l, i, o);
    } else {
      LeftStays(events[..t + 1], l, i, o);
      assert events[..t + 1][..l] == events[..l] && events[..l][j] == Dropping(o) && events[..l][i] == Entering(o, true);
      assert AwaitsRead(events[..l], i, o);
    }
  }

  lemma {:induction false} LeftStays(events: seq<Event>, t: nat, i: nat, o: nat)
    requires t <= |events|
    ensures Left(events[..t], i, o) ==> Left(events, i, o)
  {
    if l :| i < l < t && events[..t][l] == Leaving(o) && !Dropped(events[..t][..l], i, o) {
      assert events[..t][..l] == events[..l];
    }
  }

  // ---------------------------------------------------------------- The dispatcher

  class Dispatcher {
    var transfers: Transfers
    var completedReads: seq<nat>
    ghost var acts: seq<seq<Act>>

    ghost function View(): State
      reads this
    {
      State(transfers, completedReads)
    }

    constructor ()
      ensures View() == Run([]) && acts == []
    {
      transfers, completedReads, acts := map[], [], [];
    }

    method Enter(offer: nat, hasWindow: bool)
      modifies this
      ensures (View(), acts) == Dispatch(old(View()), old(acts), Entering(offer, hasWindow))
    {
      acts := acts + [[]];
      if !hasWindow {
        return;
      }
      transfers := transfers[offer := Transfer(false, false)];
    }

    method Leave(offer: nat)
      modifies this
      ensures (View(), acts) == Dispatch(old(View()), old(acts), Leaving(offer))
    {
      if offer in transfers && transfers[offer].dropped {
        acts := acts + [[]];
        return;
      }
      transfers := transfers - {offer};
      acts := acts + [[Discard(offer)]];
    }

    method Drop(offer: nat)
      modifies this
      ensures (View(), acts) == Dispatch(old(View()), old(acts), Dropping(offer))
    {
      if offer in transfers {
        transfers := transfers[offer := transfers[offer].(dropped := true)];
      }
      ghost var told := FinishDndIfReady(offer);
      acts := acts + [told];
    }

    method FinishDndIfReady(offer: nat) returns (ghost told: seq<Act>)
      modifies this`transfers
      ensures (transfers, told) == FinishIfReady(old(transfers), offer)
    {
      if offer !in transfers || !Ready(transfers[offer]) {
        return [];
      }
      transfers := transfers - {offer};
      return [Finish(offer)];
    }

    /** A reader thread queues its completion. */
    method ReadFinished(offer: nat)
      modifies this
      ensures (View(), acts) == Dispatch(old(View()), old(acts), ReadDone(offer))
    {
      completedReads := completedReads + [offer];
      acts := acts + [[]];
    }

    /** Takes the queued completions and handles them in order. */
    method DispatchCompletedReads()
      modifies this
      ensures (View(), acts) == Dispatch(old(View()), old(acts), Dispatching)
    {
      var done := completedReads;
      completedReads := [];
      ghost var told: seq<Act> := [];
      for k := 0 to |done|
        invariant (transfers, told) == CompleteReads(old(transfers), done[..k])
        invariant completedReads == [] && acts == old(acts)
      {
        assert done[..k + 1][..k] == done[..k];
        var offer := done[k];
        if offer in transfers {
          transfers := transfers[offer := transfers[offer].(readComplete := true)];
        }
        ghost var more := FinishDndIfReady(offer);
        told := told + more;
      }
      assert done[..|done|] == done;
      acts := acts + [told];
    }
  }

  ghost function Dispatch(s: State, acts: seq<seq<Act>>, e: Event): (State, seq<seq<Act>>) {
    var (s', told) := Step(s, e);
    (s', acts + [told])
  }

  /** The dispatcher handles every sequence of events as the run does, telling the compositor at each
      event what the run says. */
  method Interleave(events: seq<Event>) returns (dispatcher: Dispatcher)
    ensures fresh(dispatcher) && dispatcher.View() == Run(events)
    ensures |dispatcher.acts| == |events| && forall t :: 0 <= t < |events| ==> dispatcher.acts[t] == Acts(events, t)
  {
    dispatcher := new Dispatcher();
    for n := 0 to |events|
      invariant fresh(dispatcher) && dispatcher.View() == Run(events[..n])
      invariant |dispatcher.acts| == n && forall t :: 0 <= t < n ==> dispatcher.acts[t] == Acts(events, t)
    {
      assert events[..n + 1][..n] == events[..n];
      match events[n]
      case Entering(offer, hasWindow) => dispatcher.Enter(offer, hasWindow);
      case Leaving(offer) => dispatcher.Leave(offer);
      case Dropping(offer) => dispatcher.Drop(offer);
      case ReadDone(offer) => dispatcher.ReadFinished(offer);
      case Dispatching => dispatcher.DispatchCompletedReads();
    }
    assert events[..|events|] == events;
  }

  /** A drop that finds no record protects nothing: the following Leave discards the offer. */
  lemma {:induction false} UnknownDropIsDiscarded(o: nat)
    ensures
      var events := [Entering(o, false), Dropping(o), Leaving(o)];
      FreshOffers(events) && Acts(events, 2) == [Discard(o)]
  {
    var events := [Entering(o, false), Dropping(o), Leaving(o)];
    assert events[..2][..1][..0] == [] && events[..2][..1] == [Entering(o, false)] && events[..2] == [Entering(o, false), Dropping(o)];
    assert Run([Entering(o, false)]) == State(map[], []);
  }
}
