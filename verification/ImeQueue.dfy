/** The queue of window commands, in which a new input-method state overwrites the pending one, and
    its execution against the windows that still exist. */
module ImeQueue {
  import opened Basics
  import opened Utf8
  import opened ImeWindow

  type Surface = nat
  datatype ImeState = ImeState(text: seq<Byte>, cursor: nat, anchor: nat)

  /** An absent state disables text input for the surface. */
  type Setting = Option<ImeState>

  /** Title, size, blur, cursor and attention commands neither read nor change input-method state. */
  datatype Command = SetIme(surface: Surface, state: Setting) | Destroy(surface: Surface) | Other(tag: nat)

  /** The state survives the conversion to the wire form; otherwise the command fails and is dropped. */
  predicate Accepted(state: Setting) {
    state.Some? ==>
      var s := state.value;
      && |s.text| <= MAX_SURROUNDING_TEXT_BYTES && 0 !in s.text
      && s.cursor <= |s.text| && s.anchor <= |s.text|
      && IsBoundary(s.text, s.cursor) && IsBoundary(s.text, s.anchor)
  }

  /** Only a NUL byte keeps a freshly built state from being accepted. */
  method NewImeState(text: seq<Byte>, cursor: nat, anchor: nat) returns (state: ImeState)
    requires Valid(text)
    ensures Accepted(Some(state)) <==> 0 !in state.text
    ensures 0 !in text ==> 0 !in state.text
    ensures |text| <= MAX_SURROUNDING_TEXT_BYTES ==> state.text == text
  {
    var window, windowCursor, windowAnchor := SurroundingTextWindow(text, cursor, anchor);
    state := ImeState(window, windowCursor, windowAnchor);
  }

  // Execution

  datatype Entry = Destroyed(surface: Surface, last: Setting) | Missing(surface: Surface) | Ran(tag: nat)

  /** `ime` holds exactly the surfaces that exist; `log` holds what was executed, each destruction with
      the input-method state the surface had just before it. */
  datatype World = World(ime: map<Surface, Setting>, log: seq<Entry>)

  predicate TakesEffect(w: World, c: Command) {
    c.SetIme? && c.surface in w.ime && Accepted(c.state)
  }

  function Execute(w: World, c: Command): World {
    match c
    case SetIme(s, state) => if TakesEffect(w, c) then w.(ime := w.ime[s := state]) else w
    case Destroy(s) =>
      if s in w.ime then World(w.ime - {s}, w.log + [Destroyed(s, w.ime[s])]) else w.(log := w.log + [Missing(s)])
    case Other(tag) => w.(log := w.log + [Ran(tag)])
  }

  function ExecuteAll(w: World, cs: seq<Command>): World {
    if cs == [] then w else Execute(ExecuteAll(w, cs[..|cs| - 1]), cs[|cs| - 1])
  }

  // Queueing

  /** The pending command that a new state for `s` overwrites: none beyond the surface's last Destroy. */
  function Slot(q: seq<Command>, s: Surface): (r: Option<nat>)
    ensures r.Some? ==> r.value < |q| && q[r.value].SetIme? && q[r.value].surface == s
    ensures r.Some? ==> forall j :: r.value < j < |q| && q[j].SetIme? ==> q[j].surface != s
  {
    if q == [] then None
    else
      var c := q[|q| - 1];
      if c.SetIme? && c.surface == s then Some(|q| - 1)
      else if c == Destroy(s) then None
      else Slot(q[..|q| - 1], s)
  }

  function Queued(q: seq<Command>, s: Surface, state: Setting): seq<Command> {
    match Slot(q, s)
    case Some(i) => q[i := SetIme(s, state)]
    case None => q + [SetIme(s, state)]
  }

  function Submit(q: seq<Command>, c: Command): seq<Command> {
    if c.SetIme? then Queued(q, c.surface, c.state) else q + [c]
  }

  /** The queue after the commands `cs` were submitted to an empty one. */
  function Coalesced(cs: seq<Command>): seq<Command> {
    if cs == [] then [] else Submit(Coalesced(cs[..|cs| - 1]), cs[|cs| - 1])
  }

  // What a command list says about one surface

  /** The states set on `s`, one list for each stretch between its Destroys. */
  function Segments(cs: seq<Command>, s: Surface): (r: seq<seq<Setting>>)
    ensures r != []
  {
    if cs == [] then [[]]
    else
      var front, c := Segments(cs[..|cs| - 1], s), cs[|cs| - 1];
      if c.SetIme? && c.surface == s then Appended(front, c.state)
      else if c == Destroy(s) then front + [[]]
      else front
  }

  function Appended(segments: seq<seq<Setting>>, state: Setting): (r: seq<seq<Setting>>)
    requires segments != []
    ensures |r| == |segments|
  {
    segments[..|segments| - 1] + [segments[|segments| - 1] + [state]]
  }

  function Plain(cs: seq<Command>): seq<Command> {
    if cs == [] then []
    else Plain(cs[..|cs| - 1]) + if cs[|cs| - 1].SetIme? then [] else [cs[|cs| - 1]]
  }

  function LastOnly(states: seq<Setting>): seq<Setting> {
    if states == [] then [] else [states[|states| - 1]]
  }

  function Condensed(segments: seq<seq<Setting>>): seq<seq<Setting>> {
    seq(|segments|, i requires 0 <= i < |segments| => LastOnly(segments[i]))
  }

  lemma {:induction false} SlotMeansPending(q: seq<Command>, s: Surface)
    ensures Slot(q, s).Some? <==> Segments(q, s)[|Segments(q, s)| - 1] != []
  {
    if q != [] {
      SlotMeansPending(q[..|q| - 1], s);
    }
  }

  function WithLast(segments: seq<seq<Setting>>, state: Setting): seq<seq<Setting>>
    requires segments != []
  {
    var last := segments[|segments| - 1];
    segments[..|segments| - 1] + [(if last == [] then [] else last[..|last| - 1]) + [state]]
  }

  lemma {:induction false} OverwriteOnlyLast(q: seq<Command>, s: Surface, state: Setting, t: Surface)
    ensures Plain(Queued(q, s, state)) == Plain(q)
    ensures Segments(Queued(q, s, state), t) == if t == s then WithLast(Segments(q, s), state) else Segments(q, t)
  {
    var queued := Queued(q, s, state);
    SlotMeansPending(q, s);
    if Slot(q, s).None? {
      assert queued[..|queued| - 1] == q;
    } else {
      var front, c := q[..|q| - 1], q[|q| - 1];
      if c.SetIme? && c.surface == s {
        assert queued[..|q| - 1] == front;
      } else {
        OverwriteOnlyLast(front, s, state, t);
        assert queued[..|q| - 1] == Queued(front, s, state);
      }
    }
  }

  lemma {:induction false} CondensedSteps(segments: seq<seq<Setting>>, state: Setting)
    requires segments != []
    ensures Condensed(Appended(segments, state)) == WithLast(Condensed(segments), state)
    ensures Condensed(segments + [[]]) == Condensed(segments) + [[]]
  {
    var n := |segments| - 1;
    forall i | 0 <= i <= n ensures Condensed(Appended(segments, state))[i] == WithLast(Condensed(segments), state)[i] {
      assert i < n ==> Appended(segments, state)[i] == segments[i];
    }
  }

  /** Coalescing keeps exactly the last state of every stretch between two Destroys of a surface, hence
      at most one, and keeps every other command in order. */
  lemma {:induction false} CoalescedKeepsLastStates(cs: seq<Command>, s: Surface)
    ensures Plain(Coalesced(cs)) == Plain(cs)
    ensures Segments(Coalesced(cs), s) == Condensed(Segments(cs, s))
  {
    if cs != [] {
      var front, c := cs[..|cs| - 1], cs[|cs| - 1];
      CoalescedKeepsLastStates(front, s);
      if c.SetIme? {
        OverwriteOnlyLast(Coalesced(front), c.surface, c.state, s);
        CondensedSteps(Segments(front, s), c.state);
      } else {
        assert Coalesced(cs)[..|Coalesced(cs)| - 1] == Coalesced(front);
        CondensedSteps(Segments(front, s), None);
      }
    }
  }

  lemma {:induction false} AtMostOnePending(cs: seq<Command>, s: Surface, i: nat)
    requires i < |Segments(Coalesced(cs), s)|
    ensures |Segments(Coalesced(cs), s)[i]| <= 1
  {
    CoalescedKeepsLastStates(cs, s);
  }

  // Execution in closed form

  function LastAccepted(initial: Setting, states: seq<Setting>): Setting {
    if states == [] then initial
    else if Accepted(states[|states| - 1]) then states[|states| - 1]
    else LastAccepted(initial, states[..|states| - 1])
  }

  function Entries(ime: map<Surface, Setting>, plain: seq<Command>, states: Surface -> seq<Setting>): (r: seq<Entry>)
    ensures |r| == |plain|
  {
    if plain == [] then []
    else
      var front, c := plain[..|plain| - 1], plain[|plain| - 1];
      Entries(ime, front, states) + [EntryOf(ime, front, states, c)]
  }

  function EntryOf(ime: map<Surface, Setting>, before: seq<Command>, states: Surface -> seq<Setting>, c: Command): Entry {
    if c.Other? then Ran(c.tag)
    else if c.surface in ime && c !in before then Destroyed(c.surface, LastAccepted(ime[c.surface], states(c.surface)))
    else Missing(c.surface)
  }

  function FirstStates(cs: seq<Command>): Surface -> seq<Setting> {
    (s: Surface) => Segments(cs, s)[0]
  }

  lemma {:induction false} EntriesReadDestroyed(ime: map<Surface, Setting>, plain: seq<Command>, f: Surface -> seq<Setting>, g: Surface -> seq<Setting>)
    requires forall c :: c in plain && c.Destroy? && c.surface in ime ==>
      LastAccepted(ime[c.surface], f(c.surface)) == LastAccepted(ime[c.surface], g(c.surface))
    requires forall c :: c in plain ==> !c.SetIme?
    ensures Entries(ime, plain, f) == Entries(ime, plain, g)
  {
    if plain != [] {
      EntriesReadDestroyed(ime, plain[..|plain| - 1], f, g);
    }
  }

  lemma {:induction false} EntriesShowDestroyed(ime: map<Surface, Setting>, plain: seq<Command>, f: Surface -> seq<Setting>, g: Surface -> seq<Setting>, s: Surface)
    requires Destroy(s) in plain && s in ime
    requires LastAccepted(ime[s], f(s)) != LastAccepted(ime[s], g(s))
    ensures Entries(ime, plain, f) != Entries(ime, plain, g)
  {
    var n := |plain| - 1;
    if Destroy(s) in plain[..n] {
      EntriesShowDestroyed(ime, plain[..n], f, g, s);
      assert Entries(ime, plain, f)[..n] == Entries(ime, plain[..n], f);
      assert Entries(ime, plain, g)[..n] == Entries(ime, plain[..n], g);
    } else {
      assert plain[n] == Destroy(s);
      assert Entries(ime, plain, f)[n] != Entries(ime, plain, g)[n];
    }
  }

  lemma {:induction false} DestroyedSurfaces(cs: seq<Command>, s: Surface)
    ensures Destroy(s) in Plain(cs) <==> |Segments(cs, s)| > 1
    ensures forall c :: c in Plain(cs) ==> !c.SetIme?
  {
    if cs != [] {
      DestroyedSurfaces(cs[..|cs| - 1], s);
    }
  }

  /** Executing a list depends only on its other commands and on the states set on each surface before
      its first Destroy. */
  lemma {:induction false} ExecutionInClosedForm(w: World, cs: seq<Command>)
    ensures forall s :: s in ExecuteAll(w, cs).ime <==> s in w.ime && |Segments(cs, s)| == 1
    ensures forall s :: s in ExecuteAll(w, cs).ime ==> ExecuteAll(w, cs).ime[s] == LastAccepted(w.ime[s], Segments(cs, s)[0])
    ensures ExecuteAll(w, cs).log == w.log + Entries(w.ime, Plain(cs), FirstStates(cs))
  {
    if cs != [] {
      var front, c := cs[..|cs| - 1], cs[|cs| - 1];
      ExecutionInClosedForm(w, front);
      forall s ensures s in ExecuteAll(w, cs).ime <==> s in w.ime && |Segments(cs, s)| == 1
        ensures s in ExecuteAll(w, cs).ime ==> ExecuteAll(w, cs).ime[s] == LastAccepted(w.ime[s], Segments(cs, s)[0])
      {
        SurfaceInClosedForm(w, cs, s);
      }
      LogInClosedForm(w, cs);
    }
  }

  lemma {:induction false} SurfaceInClosedForm(w: World, cs: seq<Command>, s: Surface)
    requires cs != []
    requires var front := cs[..|cs| - 1];
      && (s in ExecuteAll(w, front).ime <==> s in w.ime && |Segments(front, s)| == 1)
      && (s in ExecuteAll(w, front).ime ==> ExecuteAll(w, front).ime[s] == LastAccepted(w.ime[s], Segments(front, s)[0]))
    ensures s in ExecuteAll(w, cs).ime <==> s in w.ime && |Segments(cs, s)| == 1
    ensures s in ExecuteAll(w, cs).ime ==> ExecuteAll(w, cs).ime[s] == LastAccepted(w.ime[s], Segments(cs, s)[0])
  {
    var front, c := cs[..|cs| - 1], cs[|cs| - 1];
    if c.SetIme? && c.surface == s && s in ExecuteAll(w, front).ime {
      assert Segments(cs, s)[0] == Segments(front, s)[0] + [c.state];
      assert (Segments(front, s)[0] + [c.state])[..|Segments(front, s)[0]|] == Segments(front, s)[0];
    }
  }

  lemma {:induction false} LogInClosedForm(w: World, cs: seq<Command>)
    requires cs != []
    requires var front := cs[..|cs| - 1];
      && (cs[|cs| - 1].Destroy? ==>
            var s := cs[|cs| - 1].surface;
            && (s in ExecuteAll(w, front).ime <==> s in w.ime && |Segments(front, s)| == 1)
            && (s in ExecuteAll(w, front).ime ==> ExecuteAll(w, front).ime[s] == LastAccepted(w.ime[s], Segments(front, s)[0])))
      && ExecuteAll(w, front).log == w.log + Entries(w.ime, Plain(front), FirstStates(front))
    ensures ExecuteAll(w, cs).log == w.log + Entries(w.ime, Plain(cs), FirstStates(cs))
  {
    var front, c := cs[..|cs| - 1], cs[|cs| - 1];
    LaterStatesAreNotLogged(w.ime, cs);
    if c.SetIme? {
      assert Plain(cs) == Plain(front);
    } else {
      assert ExecuteAll(w, cs).log == ExecuteAll(w, front).log + [EntryOf(w.ime, Plain(front), FirstStates(cs), c)] by {
        if c.Destroy? {
          DestroyedSurfaces(front, c.surface);
        }
      }
      assert Entries(w.ime, Plain(cs), FirstStates(cs)) == Entries(w.ime, Plain(front), FirstStates(cs)) + [EntryOf(w.ime, Plain(front), FirstStates(cs), c)] by {
        assert Plain(cs)[..|Plain(cs)| - 1] == Plain(front);
      }
    }
  }

  lemma {:induction false} LaterStatesAreNotLogged(ime: map<Surface, Setting>, cs: seq<Command>)
    requires cs != []
    ensures Entries(ime, Plain(cs[..|cs| - 1]), FirstStates(cs[..|cs| - 1])) == Entries(ime, Plain(cs[..|cs| - 1]), FirstStates(cs))
  {
    var front := cs[..|cs| - 1];
    forall d | d in Plain(front)
      ensures !d.SetIme? && (d.Destroy? ==> FirstStates(front)(d.surface) == FirstStates(cs)(d.surface))
    {
      DestroyedSurfaces(front, if d.Destroy? then d.surface else 0);
    }
    EntriesReadDestroyed(ime, Plain(front), FirstStates(front), FirstStates(cs));
  }

  // Coalescing preserves meaning

  /** Before the first Destroy of `s`, either the last state is accepted or none is. */
  predicate Harmless(cs: seq<Command>, s: Surface) {
    var states := Segments(cs, s)[0];
    states == [] || Accepted(states[|states| - 1]) || forall i :: 0 <= i < |states| ==> !Accepted(states[i])
  }

  lemma {:induction false} NoneAccepted(initial: Setting, states: seq<Setting>)
    ensures (forall i :: 0 <= i < |states| ==> !Accepted(states[i])) ==> LastAccepted(initial, states) == initial
    ensures (exists i :: 0 <= i < |states| && Accepted(states[i])) ==>
      Accepted(LastAccepted(initial, states)) && forall other :: LastAccepted(other, states) == LastAccepted(initial, states)
  {
    if states != [] {
      NoneAccepted(initial, states[..|states| - 1]);
    }
  }

  lemma {:induction false} HarmlessSurface(cs: seq<Command>, s: Surface, initial: Setting)
    ensures |Segments(Coalesced(cs), s)| == |Segments(cs, s)|
    ensures Harmless(cs, s) ==>
      LastAccepted(initial, Segments(Coalesced(cs), s)[0]) == LastAccepted(initial, Segments(cs, s)[0])
  {
    CoalescedKeepsLastStates(cs, s);
    NoneAccepted(initial, Segments(cs, s)[0]);
  }

  lemma {:induction false} HarmfulSurface(cs: seq<Command>, s: Surface) returns (initial: Setting)
    requires !Harmless(cs, s)
    ensures LastAccepted(initial, Segments(Coalesced(cs), s)[0]) != LastAccepted(initial, Segments(cs, s)[0])
  {
    var states := Segments(cs, s)[0];
    CoalescedKeepsLastStates(cs, s);
    initial := if LastAccepted(None, states).None? then Some(ImeState([], 0, 0)) else None;
    NoneAccepted(None, states);
    assert LastOnly(states)[..0] == [];
  }

  lemma {:induction false} HarmlessAgrees(w: World, cs: seq<Command>)
    requires forall s :: Harmless(cs, s)
    ensures ExecuteAll(w, Coalesced(cs)) == ExecuteAll(w, cs)
  {
    var q := Coalesced(cs);
    CoalescedKeepsLastStates(cs, 0);
    forall s, initial
      ensures |Segments(q, s)| == |Segments(cs, s)|
      ensures LastAccepted(initial, Segments(q, s)[0]) == LastAccepted(initial, Segments(cs, s)[0])
    {
      assert Harmless(cs, s);
      HarmlessSurface(cs, s, initial);
    }
    DestroyedSurfaces(cs, 0);
    EntriesReadDestroyed(w.ime, Plain(cs), FirstStates(cs), FirstStates(q));
    ExecutionInClosedForm(w, cs);
    ExecutionInClosedForm(w, q);
    assert ExecuteAll(w, q).ime == ExecuteAll(w, cs).ime;
  }

  lemma {:induction false} HarmfulDiffers(cs: seq<Command>, s: Surface) returns (w: World)
    requires !Harmless(cs, s)
    ensures ExecuteAll(w, Coalesced(cs)) != ExecuteAll(w, cs)
  {
    var q := Coalesced(cs);
    var initial := HarmfulSurface(cs, s);
    w := World(map[s := initial], []);
    CoalescedKeepsLastStates(cs, s);
    ExecutionInClosedForm(w, cs);
    ExecutionInClosedForm(w, q);
    if |Segments(cs, s)| > 1 {
      DestroyedSurfaces(cs, s);
      EntriesShowDestroyed(w.ime, Plain(cs), FirstStates(q), FirstStates(cs), s);
      assert w.log + Entries(w.ime, Plain(cs), FirstStates(q)) == Entries(w.ime, Plain(cs), FirstStates(q));
    } else {
      assert s in ExecuteAll(w, cs).ime && s in ExecuteAll(w, q).ime;
    }
  }

  /** For every run of submissions: the coalesced queue leaves every surface, whatever its state before,
      in the state the uncoalesced commands would leave it in, finally and just before its destruction,
      exactly when no surface has an accepted state superseded by a rejected one. */
  lemma {:induction false} CoalescingPreservesMeaning(cs: seq<Command>)
    ensures (forall w :: ExecuteAll(w, Coalesced(cs)) == ExecuteAll(w, cs)) <==> (forall s :: Harmless(cs, s))
  {
    if forall s :: Harmless(cs, s) {
      forall w ensures ExecuteAll(w, Coalesced(cs)) == ExecuteAll(w, cs) {
        HarmlessAgrees(w, cs);
      }
    } else {
      var s :| !Harmless(cs, s);
      var w := HarmfulDiffers(cs, s);
    }
  }

  /** A rejected state drops the accepted one that it overwrote. */
  lemma {:induction false} RejectedStateLosesItsPredecessor(w: World, s: Surface)
    requires s in w.ime
    ensures var good, bad := Some(ImeState([65], 1, 1)), Some(ImeState([0], 0, 0));
      var cs := [SetIme(s, good), SetIme(s, bad)];
      && ExecuteAll(w, cs) == w.(ime := w.ime[s := good])
      && ExecuteAll(w, Coalesced(cs)) == w
  {
    var good, bad := Some(ImeState([65], 1, 1)), Some(ImeState([0], 0, 0));
    var cs := [SetIme(s, good), SetIme(s, bad)];
    assert Accepted(good) && !Accepted(bad) by {
      assert [0][0] == 0;
    }
    assert cs[..1] == [SetIme(s, good)] && cs[..1][..0] == [];
    assert Coalesced(cs[..1]) == [SetIme(s, good)];
    assert Coalesced(cs) == [SetIme(s, bad)];
    assert ExecuteAll(w, cs[..1]) == w.(ime := w.ime[s := good]);
    assert [SetIme(s, bad)][..0] == [];
  }

  // Order between surfaces

  /** Switching text input off, or a text of at most 4000 bytes without NUL whose offsets lie on its
      character boundaries. */
  predicate Sendable(state: Setting) {
    || state.None?
    || (&& |state.value.text| <= 4000 && 0 !in state.value.text
        && state.value.cursor <= |state.value.text| && IsBoundary(state.value.text, state.value.cursor)
        && state.value.anchor <= |state.value.text| && IsBoundary(state.value.text, state.value.anchor))
  }

  lemma {:induction false} AcceptedExactly(state: Setting)
    ensures Accepted(state) <==> Sendable(state)
  {
  }

  lemma {:induction false} StateStays(w: World, cs: seq<Command>, s: Surface, state: Setting, n: nat)
    requires n < |cs| && cs[n] == SetIme(s, state) && Accepted(state)
    requires forall j :: n < j < |cs| ==> !(cs[j].SetIme? && cs[j].surface == s) && cs[j] != Destroy(s)
    ensures s in ExecuteAll(w, cs).ime ==> ExecuteAll(w, cs).ime[s] == state
  {
    if n < |cs| - 1 {
      StateStays(w, cs[..|cs| - 1], s, state, n);
    }
  }

  lemma {:induction false} NothingForSurfaceBehindSlot(q: seq<Command>, s: Surface)
    requires Slot(q, s).Some?
    ensures forall j :: Slot(q, s).value < j < |q| ==> !(q[j].SetIme? && q[j].surface == s) && q[j] != Destroy(s)
  {
    if Slot(q, s).value < |q| - 1 {
      NothingForSurfaceBehindSlot(q[..|q| - 1], s);
    }
  }

  /** Whatever is pending: once the queue with the new state has been executed, a surface that is still
      there has that state if it can be sent, None included. */
  lemma {:induction false} NewestStateWins(w: World, q: seq<Command>, s: Surface, state: Setting)
    requires Sendable(state)
    ensures
      var w' := ExecuteAll(w, Queued(q, s, state));
      s in w'.ime ==> w'.ime[s] == state
  {
    AcceptedExactly(state);
    if Slot(q, s).Some? {
      NothingForSurfaceBehindSlot(q, s);
      StateStays(w, Queued(q, s, state), s, state, Slot(q, s).value);
    } else {
      StateStays(w, Queued(q, s, state), s, state, |q|);
    }
  }

  /** The last command that reached the input method, which all surfaces share. */
  function LastApplied(w: World, cs: seq<Command>): Option<Command> {
    if cs == [] then None
    else
      var front, c := cs[..|cs| - 1], cs[|cs| - 1];
      if TakesEffect(ExecuteAll(w, front), c) then Some(c) else LastApplied(w, front)
  }

  predicate EffectAt(w: World, cs: seq<Command>, j: nat) {
    j < |cs| && TakesEffect(ExecuteAll(w, cs[..j]), cs[j])
  }

  lemma EffectInPrefix(w: World, cs: seq<Command>, n: nat, j: nat)
    requires j < n <= |cs|
    ensures EffectAt(w, cs[..n], j) == EffectAt(w, cs, j)
  {
    assert cs[..n][..j] == cs[..j];
  }

  lemma {:induction false} LastAppliedIsLast(w: World, cs: seq<Command>, i: nat)
    requires EffectAt(w, cs, i)
    requires forall j :: i < j < |cs| && cs[j].SetIme? ==> cs[j].surface != cs[i].surface
    ensures LastApplied(w, cs).Some? && LastApplied(w, cs).value in cs[i..]
    ensures LastApplied(w, cs) == Some(cs[i]) <==> forall j :: i < j < |cs| ==> !EffectAt(w, cs, j)
  {
    var n := |cs| - 1;
    if EffectAt(w, cs, n) {
      assert LastApplied(w, cs) == Some(cs[n]);
    } else {
      forall j | 0 <= j < n ensures EffectAt(w, cs[..n], j) == EffectAt(w, cs, j) {
        EffectInPrefix(w, cs, n, j);
      }
      LastAppliedIsLast(w, cs[..n], i);
      assert LastApplied(w, cs) == LastApplied(w, cs[..n]);
      assert cs[..n][i..] == cs[i..][..n - i];
    }
  }

  lemma {:induction false} SurfacesIgnoreStates(w: World, p: seq<Command>, q: seq<Command>, j: nat)
    requires j <= |p| == |q|
    requires forall i :: 0 <= i < |p| ==> p[i] == q[i] || (p[i].SetIme? && q[i].SetIme?)
    ensures ExecuteAll(w, p[..j]).ime.Keys == ExecuteAll(w, q[..j]).ime.Keys
    ensures ExecuteAll(w, q).ime.Keys <= ExecuteAll(w, q[..j]).ime.Keys
    decreases |q|, j
  {
    if j < |q| {
      SurfacesIgnoreStates(w, p[..|p| - 1], q[..|q| - 1], j);
      assert p[..|p| - 1][..j] == p[..j] && q[..|q| - 1][..j] == q[..j];
    } else if j > 0 {
      assert p[..j] == p && q[..j] == q;
      SurfacesIgnoreStates(w, p[..j - 1], q[..j - 1], j - 1);
      assert p[..j - 1][..j - 1] == p[..j - 1] && q[..j - 1][..j - 1] == q[..j - 1];
    }
  }

  /** Uncoalesced, a new accepted state is the last to reach the input method. Coalesced, it is so
      exactly when no later pending state, necessarily of another surface, takes effect. */
  lemma {:induction false} OverwrittenStateMayNotBeLast(w: World, q: seq<Command>, s: Surface, state: Setting)
    requires s in ExecuteAll(w, q).ime && Accepted(state)
    ensures LastApplied(w, q + [SetIme(s, state)]) == Some(SetIme(s, state))
    ensures LastApplied(w, Queued(q, s, state)) == Some(SetIme(s, state)) <==>
      forall j :: 0 <= j < |q| && Slot(q, s).Some? && Slot(q, s).value < j ==> !EffectAt(w, q, j)
  {
    var c := SetIme(s, state);
    assert (q + [c])[..|q|] == q;
    if Slot(q, s).Some? {
      var i := Slot(q, s).value;
      var p := q[i := c];
      forall j | i <= j < |q| ensures EffectAt(w, p, j) <==> j == i || EffectAt(w, q, j) {
        SurfacesIgnoreStates(w, p, q, j);
      }
      LastAppliedIsLast(w, p, i);
    }
  }

  // The queue and the event loop

  class LoopShared {
    var commands: seq<Command>

    constructor ()
      ensures commands == Coalesced([])
    {
      commands := [];
    }

    method Push(command: Command)
      requires !command.SetIme?
      modifies this
      ensures commands == Submit(old(commands), command)
    {
      commands := commands + [command];
    }

    method PushIme(surface: Surface, state: Setting)
      modifies this
      ensures commands == Submit(old(commands), SetIme(surface, state))
    {
      var i := |commands|;
      assert commands[..i] == commands;
      while i > 0
        invariant i <= |commands| && commands == old(commands)
        invariant Slot(commands[..i], surface) == Slot(commands, surface)
      {
        i := i - 1;
        assert commands[..i + 1][..i] == commands[..i];
        if commands[i].SetIme? && commands[i].surface == surface {
          commands := commands[i := SetIme(surface, state)];
          return;
        }
        if commands[i] == Destroy(surface) {
          break;
        }
      }
      commands := commands + [SetIme(surface, state)];
    }
  }

  method ProcessCommands(shared: LoopShared, w: World) returns (r: World)
    modifies shared
    ensures shared.commands == []
    ensures r == ExecuteAll(w, old(shared.commands))
  {
    var commands := shared.commands;
    shared.commands := [];
    r := w;
    for i := 0 to |commands|
      invariant r == ExecuteAll(w, commands[..i]) && shared.commands == []
    {
      assert commands[..i + 1][..i] == commands[..i];
      r := Execute(r, commands[i]);
    }
    assert commands[..|commands|] == commands;
  }

  datatype Op = Submitted(command: Command) | Opened(surface: Surface) | Drained

  function Opening(w: World, s: Surface): World {
    if s in w.ime then w else w.(ime := w.ime[s := None])
  }

  /** The run in which every command is queued as it is. */
  function Direct(ops: seq<Op>, w: World, queue: seq<Command>): (World, seq<Command>) {
    if ops == [] then (w, queue)
    else match ops[0]
      case Submitted(c) => Direct(ops[1..], w, queue + [c])
      case Opened(s) => Direct(ops[1..], Opening(w, s), queue)
      case Drained => Direct(ops[1..], ExecuteAll(w, queue), [])
  }

  ghost predicate HarmlessRun(ops: seq<Op>, queue: seq<Command>) {
    ops == [] ||
    match ops[0]
    case Submitted(c) => HarmlessRun(ops[1..], queue + [c])
    case Opened(_) => HarmlessRun(ops[1..], queue)
    case Drained => (forall s: Surface :: Harmless(queue, s)) && HarmlessRun(ops[1..], [])
  }

  /** Over every run of submissions, new windows and drains, the event loop does what it would do
      without coalescing. */
  method Drive(shared: LoopShared, ops: seq<Op>, w: World, ghost queue: seq<Command>) returns (r: World)
    requires shared.commands == Coalesced(queue) && HarmlessRun(ops, queue)
    modifies shared
    ensures r == Direct(ops, w, queue).0
    ensures shared.commands == Coalesced(Direct(ops, w, queue).1)
  {
    r := w;
    ghost var pending := queue;
    for i := 0 to |ops|
      invariant shared.commands == Coalesced(pending) && HarmlessRun(ops[i..], pending)
      invariant Direct(ops[i..], r, pending) == Direct(ops, w, queue)
    {
      assert ops[i..][0] == ops[i] && ops[i..][1..] == ops[i + 1..];
      match ops[i]
      case Submitted(c) =>
        assert (pending + [c])[..|pending|] == pending;
        pending := pending + [c];
        if c.SetIme? {
          shared.PushIme(c.surface, c.state);
        } else {
          shared.Push(c);
        }
      case Opened(s) =>
        r := Opening(r, s);
      case Drained =>
        HarmlessAgrees(r, pending);
        r := ProcessCommands(shared, r);
        pending := [];
    }
    assert ops[|ops|..] == [];
  }
}
