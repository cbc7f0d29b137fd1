/** When the display shows, told from the events alone: which event brought it up, which took it down,
    whether the pointer rests on it and when its time is over. */
module MediaOsdHistory {
  import opened Basics
  import opened MediaOsd

  /** A player was seen by this event. */
  predicate SeesPlayer(e: Event) {
    e.action.Observe? && e.action.snapshot.Ready? && e.action.snapshot.player.Some?
  }

  /** The track and playback that the last conclusive observation saw. */
  function Baseline(events: seq<Event>): Option<Trigger> {
    if events == [] then None
    else
      var e := events[|events| - 1];
      if SeesPlayer(e) then
        var c := e.action.snapshot.player.value;
        Some(Trigger(c.title, c.artists, c.album, c.playback))
      else if e.action.Observe? && !e.action.snapshot.Pending? then None
      else Baseline(events[..|events| - 1])
  }

  /** A player with a title, seen while the display is enabled. */
  predicate Presentable(e: Event) {
    SeesPlayer(e) && e.action.enabled && e.action.snapshot.player.value.title != ""
  }

  /** The last event saw another track or playback than the one before. The first player seen is none. */
  predicate Brings(events: seq<Event>) {
    && events != [] && Presentable(events[|events| - 1])
    && Baseline(events[..|events| - 1]).Some? && Baseline(events) != Baseline(events[..|events| - 1])
  }

  /** For a display up since event `s`: the last word on hovering. */
  function Hovering(events: seq<Event>, s: nat): bool {
    if |events| <= s + 1 then false
    else
      var e := events[|events| - 1];
      if e.action.SetHovered? then e.action.hovered else Hovering(events[..|events| - 1], s)
  }

  /** The event that last set the time: one that brings content, a policy update, or the pointer leaving. */
  function Timed(events: seq<Event>, s: nat): (d: nat)
    requires s < |events|
    ensures s <= d < |events|
  {
    var n := |events| - 1;
    if n == s then s
    else if Brings(events) || events[n].action.UpdatePolicy? then n
    else if events[n].action.SetHovered? && !events[n].action.hovered && Hovering(events[..n], s) then n
    else Timed(events[..n], s)
  }

  function TimeoutOf(e: Event): nat {
    match e.action
    case Observe(_, _, timeout) => timeout
    case SetHovered(_, timeout) => timeout
    case UpdatePolicy(_, timeout) => timeout
    case _ => 0
  }

  /** That event's time plus its timeout, in 64 bits. */
  function Due(events: seq<Event>, s: nat): nat
    requires s < |events|
  {
    var e := events[Timed(events, s)];
    if e.now + TimeoutOf(e) < 0x1_0000_0000_0000_0000 then e.now + TimeoutOf(e) else 0xffff_ffff_ffff_ffff
  }

  /** The last event takes down a display up since event `s`. */
  predicate Closes(events: seq<Event>, s: nat)
    requires s + 1 < |events|
  {
    var front, e := events[..|events| - 1], events[|events| - 1];
    match e.action
    case Observe(snapshot, _, _) => !snapshot.Pending? && !Presentable(e)
    case Expire => !Hovering(front, s) && Due(front, s) <= e.now
    case UpdatePolicy(enabled, _) => !enabled
    case Dismiss => true
    case _ => false
  }

  /** The event since which the display is up. */
  function Since(events: seq<Event>): (s: Option<nat>)
    ensures s.Some? ==> s.value < |events|
  {
    if events == [] then None
    else
      var before := Since(events[..|events| - 1]);
      if before.None? then (if Brings(events) then Some(|events| - 1) else None)
      else if Closes(events, before.value) then None
      else before
  }

  /** The state agrees with the history. */
  predicate Agrees(o: Osd, events: seq<Event>) {
    && o.observed == Baseline(events)
    && (o.visible.Some? <==> Since(events).Some?)
    && (Since(events).Some? ==> o.hovered == Hovering(events, Since(events).value) && o.deadline == Some(Due(events, Since(events).value)))
    && (Since(events).None? ==> !o.hovered && o.deadline.None?)
  }

  lemma {:induction false} StepAgreesDown(o: Osd, events: seq<Event>)
    requires events != [] && Agrees(o, events[..|events| - 1]) && Since(events[..|events| - 1]).None?
    ensures Agrees(Step(o, events[|events| - 1]), events)
  {
  }

  /** An event that neither takes the display down nor sets its time. */
  lemma {:induction false} TimeStays(events: seq<Event>, s: nat)
    requires s + 1 < |events| && Timed(events, s) != |events| - 1
    ensures Due(events, s) == Due(events[..|events| - 1], s)
  {
  }

  lemma {:induction false} ObservationAgreesUp(o: Osd, events: seq<Event>, s: nat)
    requires events != [] && Agrees(o, events[..|events| - 1]) && Since(events[..|events| - 1]) == Some(s)
    requires events[|events| - 1].action.Observe?
    ensures Agrees(Step(o, events[|events| - 1]), events)
  {
    if Timed(events, s) != |events| - 1 {
      TimeStays(events, s);
    }
  }

  lemma {:induction false} StepAgreesUp(o: Osd, events: seq<Event>, s: nat)
    requires events != [] && Agrees(o, events[..|events| - 1]) && Since(events[..|events| - 1]) == Some(s)
    requires !events[|events| - 1].action.Observe?
    ensures Agrees(Step(o, events[|events| - 1]), events)
  {
    if Timed(events, s) != |events| - 1 {
      TimeStays(events, s);
    }
  }

  /** In every run: the display is up exactly since some event brought it up that no later event took
      down; it is hovered exactly if the last word on hovering says so; and it expires exactly at the time
      set last. */
  lemma {:induction false} ShownExactly(events: seq<Event>)
    ensures Agrees(Run(events), events)
  {
    if events != [] {
      var front := events[..|events| - 1];
      ShownExactly(front);
      if Since(front).None? {
        StepAgreesDown(Run(front), events);
      } else if events[|events| - 1].action.Observe? {
        ObservationAgreesUp(Run(front), events, Since(front).value);
      } else {
        StepAgreesUp(Run(front), events, Since(front).value);
      }
    }
  }

  /** The same without recursion: up since `s` means that it was down before, `s` brought it up, and no
      event since took it down. */
  lemma {:induction false} SinceExactly(events: seq<Event>, s: nat)
    ensures Since(events) == Some(s) <==>
      && s < |events| && Since(events[..s]).None? && Brings(events[..s + 1])
      && forall m :: s + 1 < m <= |events| ==> !Closes(events[..m], s)
  {
    if events != [] {
      var front := events[..|events| - 1];
      SinceExactly(front, s);
      assert events[..|events|] == events;
      if s < |front| {
        assert events[..s] == front[..s] && events[..s + 1] == front[..s + 1];
        assert forall m :: s + 1 < m <= |front| ==> events[..m] == front[..m];
      }
    }
  }

  /** An expiry hides what is shown exactly if the pointer is elsewhere and the time is over. */
  lemma {:induction false} ExpiresExactly(events: seq<Event>, now: U64)
    requires Run(events).visible.Some?
    ensures Since(events).Some?
    ensures Run(events + [Event(now, Expire)]).visible.None? <==> !Hovering(events, Since(events).value) && Due(events, Since(events).value) <= now
  {
    ShownExactly(events);
    var more := events + [Event(now, Expire)];
    assert more[..|more| - 1] == events;
    ShownExactly(more);
  }

  /** What is shown when a change brings the display up or a later observation refreshes it. */
  lemma {:induction false} ObservedIsShown(events: seq<Event>, e: Event)
    requires Presentable(e) && (Brings(events + [e]) || Run(events).visible.Some?)
    ensures Run(events + [e]).visible == e.action.snapshot.player
  {
    ShownExactly(events);
    RunCoherent(events);
    var more := events + [e];
    assert more[..|more| - 1] == events && more[|more| - 1] == e;
  }
}
