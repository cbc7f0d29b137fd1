/** The on-screen display of the playing track: when it shows, what it shows and how long. */
module MediaOsd {
  import opened Basics

  const U64_LIMIT := 0x1_0000_0000_0000_0000
  type U64 = n: nat | n < U64_LIMIT

  datatype Playback = Playing | Paused | Stopped
  datatype Content = Content(
    title: string, artists: seq<string>, album: Option<string>,
    position: Option<U64>, duration: Option<U64>, playback: Playback,
    previous: bool, playPause: bool, next: bool)
  datatype Trigger = Trigger(title: string, artists: seq<string>, album: Option<string>, playback: Playback)
  datatype Snapshot = Pending | Ready(player: Option<Content>) | Unavailable | Failed

  function TriggerOf(c: Content): Trigger {
    Trigger(c.title, c.artists, c.album, c.playback)
  }

  function SaturatingAdd(a: U64, b: U64): U64 {
    if a + b < U64_LIMIT then a + b else U64_LIMIT - 1
  }

  function Successor(revision: U64): U64 {
    (revision + 1) % U64_LIMIT
  }

  // The state and its steps

  datatype Osd = Osd(
    observed: Option<Trigger>, visible: Option<Content>, deadline: Option<U64>,
    anchor: Option<U64>, hovered: bool, revision: U64)

  const INITIAL := Osd(None, None, None, None, false, 0)

  function Hide(o: Osd): Osd {
    Osd(o.observed, None, None, None, false, if o.visible.Some? then Successor(o.revision) else o.revision)
  }

  function Replace(o: Osd, c: Content): Osd {
    if o.visible == Some(c) then o else o.(visible := Some(c), revision := Successor(o.revision))
  }

  function ObserveContent(o: Osd, content: Option<Content>, now: U64, enabled: bool, timeout: U64): Osd {
    match content
    case None => Hide(o.(observed := None))
    case Some(c) =>
      var seen := o.(observed := Some(TriggerOf(c)), anchor := Some(now));
      if !enabled || c.title == "" then Hide(seen)
      else if o.observed.None? then seen
      else if o.observed != seen.observed then Replace(seen, c).(deadline := Some(SaturatingAdd(now, timeout)))
      else if o.visible.Some? then Replace(seen, c)
      else seen
  }

  /** The track position moves only while playing with a known position and a non-zero duration. */
  predicate Moves(c: Content) {
    c.playback.Playing? && c.position.Some? && c.duration.Some? && c.duration.value != 0
  }

  /** The content `ms` milliseconds later, its position capped at the duration. */
  function Extrapolated(c: Content, ms: nat): Content {
    if !Moves(c) then c
    else
      var position := c.position.value + 1000 * ms;
      c.(position := Some(if position < c.duration.value then position else c.duration.value))
  }

  function Elapsed(anchor: U64, now: U64): nat {
    if anchor < now then now - anchor else 0
  }

  function Advance(o: Osd, now: U64): Osd {
    if o.visible.None? || !Moves(o.visible.value) || o.anchor.None? then o
    else Replace(o.(anchor := Some(now)), Extrapolated(o.visible.value, Elapsed(o.anchor.value, now)))
  }

  datatype Action =
    | Observe(snapshot: Snapshot, enabled: bool, timeout: U64)
    | Expire
    | AdvanceTo
    | SetHovered(hovered: bool, timeout: U64)
    | UpdatePolicy(enabled: bool, timeout: U64)
    | Dismiss
  datatype Event = Event(now: U64, action: Action)

  function Step(o: Osd, e: Event): Osd {
    match e.action
    case Observe(snapshot, enabled, timeout) =>
      (match snapshot
       case Pending => o
       case Ready(player) => ObserveContent(o, player, e.now, enabled, timeout)
       case _ => Hide(o.(observed := None)))
    case Expire => if !o.hovered && o.deadline.Some? && e.now >= o.deadline.value then Hide(o) else o
    case AdvanceTo => Advance(o, e.now)
    case SetHovered(hovered, timeout) =>
      if o.visible.None? || o.hovered == hovered then o
      else o.(hovered := hovered, deadline := if hovered then o.deadline else Some(SaturatingAdd(e.now, timeout)))
    case UpdatePolicy(enabled, timeout) =>
      if !enabled then Hide(o)
      else if o.visible.Some? then o.(deadline := Some(SaturatingAdd(e.now, timeout)))
      else o
    case Dismiss => Hide(o)
  }

  function Run(events: seq<Event>): Osd {
    if events == [] then INITIAL else Step(Run(events[..|events| - 1]), events[|events| - 1])
  }

  // Every reachable state

  /** What is shown has a deadline, a title and the trigger last observed; while nothing is shown there
      is neither deadline nor hover. */
  predicate Coherent(o: Osd) {
    if o.visible.Some?
    then o.deadline.Some? && o.visible.value.title != "" && o.observed == Some(TriggerOf(o.visible.value))
    else o.deadline.None? && !o.hovered
  }

  lemma {:induction false} StepCoherent(o: Osd, e: Event)
    requires Coherent(o)
    ensures Coherent(Step(o, e))
  {
  }

  lemma {:induction false} RunCoherent(events: seq<Event>)
    ensures Coherent(Run(events))
  {
    if events != [] {
      RunCoherent(events[..|events| - 1]);
      StepCoherent(Run(events[..|events| - 1]), events[|events| - 1]);
    }
  }

  /** How often what is shown changed during a run. */
  function Changes(events: seq<Event>): nat {
    if events == [] then 0
    else Changes(events[..|events| - 1]) + if Run(events).visible != Run(events[..|events| - 1]).visible then 1 else 0
  }

  lemma {:induction false} StepCountsChange(o: Osd, e: Event)
    ensures Step(o, e).revision == if Step(o, e).visible != o.visible then Successor(o.revision) else o.revision
  {
  }

  lemma {:induction false} RevisionCountsChanges(events: seq<Event>)
    ensures Run(events).revision == Changes(events) % U64_LIMIT
  {
    if events != [] {
      var front := events[..|events| - 1];
      RevisionCountsChanges(front);
      StepCountsChange(Run(front), events[|events| - 1]);
      SuccessorOfRemainder(Changes(front));
    }
  }

  lemma {:induction false} SuccessorOfRemainder(n: nat)
    ensures Successor(n % U64_LIMIT) == (n + 1) % U64_LIMIT
  {
  }

  lemma {:induction false} NoChangeShowsTheSame(events: seq<Event>, n: nat)
    requires n <= |events|
    ensures Changes(events[..n]) <= Changes(events)
    ensures Changes(events[..n]) == Changes(events) ==> Run(events[..n]).visible == Run(events).visible
  {
    if n < |events| {
      NoChangeShowsTheSame(events[..|events| - 1], n);
      assert events[..|events| - 1][..n] == events[..n];
    } else {
      assert events[..n] == events;
    }
  }

  /** A reader that compares revisions misses no change, until exactly a multiple of 2^64 changes. */
  lemma {:induction false} EqualRevisions(events: seq<Event>, n: nat)
    requires n <= |events|
    ensures Run(events[..n]).revision == Run(events).revision <==> (Changes(events) - Changes(events[..n])) % U64_LIMIT == 0
    ensures Run(events[..n]).revision == Run(events).revision && Changes(events) - Changes(events[..n]) < U64_LIMIT ==>
      Run(events[..n]).visible == Run(events).visible
  {
    RevisionCountsChanges(events);
    RevisionCountsChanges(events[..n]);
    NoChangeShowsTheSame(events, n);
    CongruentByDifference(Changes(events), Changes(events[..n]));
  }

  lemma {:induction false} CongruentByDifference(a: nat, b: nat)
    requires b <= a
    ensures a % U64_LIMIT == b % U64_LIMIT <==> (a - b) % U64_LIMIT == 0
  {
  }

  // Position

  lemma {:induction false} ExtrapolationComposes(c: Content, first: nat, second: nat)
    ensures Extrapolated(Extrapolated(c, first), second) == Extrapolated(c, first + second)
  {
  }

  predicate Nondecreasing(times: seq<U64>) {
    forall i, j :: 0 <= i < j < |times| ==> times[i] <= times[j]
  }

  function AdvanceAll(o: Osd, times: seq<U64>): Osd {
    if times == [] then o else Advance(AdvanceAll(o, times[..|times| - 1]), times[|times| - 1])
  }

  /** Advancing in any number of steps is advancing once, apart from the number of revisions. */
  lemma {:induction false} AdvancingInStepsIsAdvancingOnce(o: Osd, times: seq<U64>)
    requires times != [] && Nondecreasing(times) && (o.anchor.Some? ==> o.anchor.value <= times[0])
    ensures AdvanceAll(o, times).(revision := 0) == Advance(o, times[|times| - 1]).(revision := 0)
  {
    var n := |times| - 1;
    if n == 0 {
      assert AdvanceAll(o, times[..0]) == o;
    } else {
      AdvancingInStepsIsAdvancingOnce(o, times[..n]);
      AdvancingTwice(o, times[n - 1], times[n]);
      RevisionIsNotRead(AdvanceAll(o, times[..n]), Advance(o, times[n - 1]), times[n]);
    }
  }

  lemma {:induction false} RevisionIsNotRead(o: Osd, p: Osd, now: U64)
    requires o.(revision := 0) == p.(revision := 0)
    ensures Advance(o, now).(revision := 0) == Advance(p, now).(revision := 0)
  {
    assert o == p.(revision := o.revision);
  }

  lemma {:induction false} AdvancingTwice(o: Osd, first: U64, second: U64)
    requires first <= second && (o.anchor.Some? ==> o.anchor.value <= first)
    ensures Advance(Advance(o, first), second).(revision := 0) == Advance(o, second).(revision := 0)
  {
    if o.visible.Some? && o.anchor.Some? {
      ExtrapolationComposes(o.visible.value, first - o.anchor.value, second - first);
    }
  }

  /** The same track, `ms` milliseconds on: while it plays with a known position and length, a thousand
      microseconds further for each of them but not past the end, and otherwise where it was. */
  predicate IsCarriedOn(c: Content, ms: nat, shown: Content) {
    && shown.(position := c.position) == c
    && (if c.playback == Playing && c.position.Some? && c.duration.Some? && c.duration.value > 0
        then shown.position.Some? &&
             (if c.position.value + 1000 * ms <= c.duration.value then shown.position.value == c.position.value + 1000 * ms
              else shown.position.value == c.duration.value)
        else shown.position == c.position)
  }

  lemma {:induction false} ExtrapolatedIsCarriedOn(c: Content, ms: nat)
    ensures IsCarriedOn(c, ms, Extrapolated(c, ms))
  {
  }

  predicate Monotone(events: seq<Event>) {
    forall i, j :: 0 <= i < j < |events| ==> events[i].now <= events[j].now
  }

  /** The latest observation of a player, and when it was made. */
  function LastPlayer(events: seq<Event>): Option<(Content, U64)> {
    if events == [] then None
    else
      var e := events[|events| - 1];
      if e.action.Observe? && e.action.snapshot.Ready? && e.action.snapshot.player.Some?
      then Some((e.action.snapshot.player.value, e.now))
      else LastPlayer(events[..|events| - 1])
  }

  /** What is shown is the observed content carried forward to the anchor; a position beyond the
      duration is cut off only by the first advance. */
  predicate Tracks(o: Osd, last: Option<(Content, U64)>, now: nat) {
    o.visible.Some? ==>
      && last.Some? && o.anchor.Some? && last.value.1 <= o.anchor.value <= now
      && (|| o.visible.value == Extrapolated(last.value.0, o.anchor.value - last.value.1)
          || (o.visible.value == last.value.0 && o.anchor.value == last.value.1))
  }

  lemma {:induction false} StepTracks(o: Osd, e: Event, last: Option<(Content, U64)>, now: nat)
    requires Coherent(o) && Tracks(o, last, now) && now <= e.now
    ensures !(e.action.Observe? && e.action.snapshot.Ready? && e.action.snapshot.player.Some?) ==> Tracks(Step(o, e), last, e.now)
    ensures e.action.Observe? && e.action.snapshot.Ready? && e.action.snapshot.player.Some? ==>
      Tracks(Step(o, e), Some((e.action.snapshot.player.value, e.now)), e.now)
    ensures e.action.AdvanceTo? && o.visible.Some? ==>
      Step(o, e).visible == Some(Extrapolated(last.value.0, e.now - last.value.1))
  {
    if e.action.AdvanceTo? && o.visible.Some? {
      ExtrapolationComposes(last.value.0, o.anchor.value - last.value.1, e.now - o.anchor.value);
    }
  }

  lemma {:induction false} RunTracks(events: seq<Event>)
    requires Monotone(events)
    ensures Tracks(Run(events), LastPlayer(events), if events == [] then 0 else events[|events| - 1].now)
  {
    if events != [] {
      var front, e := events[..|events| - 1], events[|events| - 1];
      RunTracks(front);
      RunCoherent(front);
      StepTracks(Run(front), e, LastPlayer(front), if front == [] then 0 else front[|front| - 1].now);
    }
  }

  /** In every run with a monotone clock, right after an advance the display shows the track of the
      latest player snapshot with the position it has reached by now, whatever happened in between. */
  lemma {:induction false} ShownPositionIsExact(events: seq<Event>)
    requires Monotone(events) && events != [] && events[|events| - 1].action.AdvanceTo?
    requires Run(events).visible.Some?
    ensures LastPlayer(events).Some? && LastPlayer(events).value.1 <= events[|events| - 1].now
    ensures Run(events).visible.value == Extrapolated(LastPlayer(events).value.0, events[|events| - 1].now - LastPlayer(events).value.1)
    ensures
      var (seen, at) := LastPlayer(events).value;
      IsCarriedOn(seen, events[|events| - 1].now - at, Run(events).visible.value)
  {
    var front, e := events[..|events| - 1], events[|events| - 1];
    RunTracks(front);
    RunCoherent(front);
    StepTracks(Run(front), e, LastPlayer(front), if front == [] then 0 else front[|front| - 1].now);
    ExtrapolatedIsCarriedOn(LastPlayer(events).value.0, e.now - LastPlayer(events).value.1);
  }

  // The retained object

  class MediaOsdState {
    var observed: Option<Trigger>
    var visible: Option<Content>
    var deadlineMs: Option<U64>
    var positionAnchorMs: Option<U64>
    var hovered: bool
    var revision: U64

    function Value(): Osd
      reads this
    {
      Osd(observed, visible, deadlineMs, positionAnchorMs, hovered, revision)
    }

    constructor ()
      ensures Value() == INITIAL
    {
      observed, visible, deadlineMs, positionAnchorMs, hovered, revision := None, None, None, None, false, 0;
    }

    method HideIt()
      modifies this
      ensures Value() == Hide(old(Value()))
    {
      if visible.Some? {
        visible := None;
        revision := Successor(revision);
      }
      deadlineMs := None;
      positionAnchorMs := None;
      hovered := false;
    }

    method Show(content: Content, now: U64, timeout: U64)
      modifies this
      ensures Value() == Replace(old(Value()), content).(deadline := Some(SaturatingAdd(now, timeout)))
    {
      if visible != Some(content) {
        visible := Some(content);
        revision := Successor(revision);
      }
      deadlineMs := Some(SaturatingAdd(now, timeout));
    }

    method ObservePlayer(content: Option<Content>, now: U64, enabled: bool, timeout: U64)
      modifies this
      ensures Value() == ObserveContent(old(Value()), content, now, enabled, timeout)
    {
      if content.None? {
        observed := None;
        HideIt();
        return;
      }
      var trigger := TriggerOf(content.value);
      var initial := observed.None?;
      var changed := observed.Some? && observed.value != trigger;
      observed := Some(trigger);
      positionAnchorMs := Some(now);
      if !enabled || content.value.title == "" {
        HideIt();
      } else if !initial {
        if changed {
          Show(content.value, now, timeout);
        } else if visible.Some? && visible.value != content.value {
          visible := Some(content.value);
          revision := Successor(revision);
        }
      }
    }

    method AdvanceTime(now: U64) returns (moved: bool)
      modifies this
      ensures Value() == Advance(old(Value()), now)
      ensures moved <==> visible != old(visible)
    {
      if visible.None? || !visible.value.playback.Playing? {
        return false;
      }
      var content := visible.value;
      if content.position.None? || content.duration.None? || positionAnchorMs.None? || content.duration.value == 0 {
        return false;
      }
      var reached := content.position.value + Elapsed(positionAnchorMs.value, now) * 1000;
      var next: U64 := if reached < content.duration.value then reached else content.duration.value;
      positionAnchorMs := Some(now);
      if next == content.position.value {
        return false;
      }
      visible := Some(content.(position := Some(next)));
      revision := Successor(revision);
      return true;
    }

    method Apply(e: Event)
      modifies this
      ensures Value() == Step(old(Value()), e)
    {
      match e.action
      case Observe(snapshot, enabled, timeout) =>
        match snapshot {
          case Pending =>
          case Ready(player) => ObservePlayer(player, e.now, enabled, timeout);
          case _ =>
            observed := None;
            HideIt();
        }
      case Expire =>
        if !hovered && deadlineMs.Some? && e.now >= deadlineMs.value {
          HideIt();
        }
      case AdvanceTo =>
        var _ := AdvanceTime(e.now);
      case SetHovered(hover, timeout) =>
        if visible.Some? && hovered != hover {
          hovered := hover;
          if !hover {
            deadlineMs := Some(SaturatingAdd(e.now, timeout));
          }
        }
      case UpdatePolicy(enabled, timeout) =>
        if !enabled {
          HideIt();
        } else if visible.Some? {
          deadlineMs := Some(SaturatingAdd(e.now, timeout));
        }
      case Dismiss =>
        HideIt();
    }
  }

  /** Every state the object passes through belongs to some run, so the lemmas above apply to it. */
  method Drive(state: MediaOsdState, events: seq<Event>)
    requires state.Value() == INITIAL
    modifies state
    ensures state.Value() == Run(events) && Coherent(state.Value())
  {
    for i := 0 to |events|
      invariant state.Value() == Run(events[..i])
    {
      assert events[..i + 1][..i] == events[..i];
      state.Apply(events[i]);
    }
    assert events[..|events|] == events;
    RunCoherent(events);
  }
}
