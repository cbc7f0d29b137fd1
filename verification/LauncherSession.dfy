/** The retained launcher session: query text, cursor, results and selection. */
module LauncherSession {
  import opened Basics
  import Utf8
  import opened LauncherScore
  import opened LauncherQuery

  const MAX_LAUNCHER_QUERY_BYTES := 4000

  type Text = seq<Byte>

  datatype Preedit = Preedit(text: Text, cursorRange: Option<(nat, nat)>)

  datatype SessionError =
    | QueryTooLong(bytes: nat) | QueryContainsNul | PreeditTooLong(bytes: nat) | PreeditContainsNul
    | InvalidPreeditRange | DeleteOutOfBounds | DeleteSplitsCodepoint

  predicate ValidPreedit(p: Preedit) {
    && Utf8.Valid(p.text) && |p.text| <= MAX_LAUNCHER_QUERY_BYTES && 0 !in p.text
    && (p.cursorRange.Some? ==>
         var (start, end) := p.cursorRange.value;
         start <= end <= |p.text| && Utf8.IsBoundary(p.text, start) && Utf8.IsBoundary(p.text, end))
  }

  function PreeditError(preedit: Option<Preedit>): Option<SessionError> {
    if preedit.None? then None
    else if |preedit.value.text| > MAX_LAUNCHER_QUERY_BYTES then Some(PreeditTooLong(|preedit.value.text|))
    else if 0 in preedit.value.text then Some(PreeditContainsNul)
    else if preedit.value.cursorRange.None? then None
    else
      var (start, end) := preedit.value.cursorRange.value;
      var text := preedit.value.text;
      if start > end || end > |text| || !Utf8.IsBoundary(text, start) || !Utf8.IsBoundary(text, end)
      then Some(InvalidPreeditRange) else None
  }

  /** Why an edit is refused, in the order the checks are made. */
  function EditError(query: Text, cursor: nat, before: nat, after: nat, commit: Text, preedit: Option<Preedit>): Option<SessionError>
    requires cursor <= |query|
  {
    if before > cursor || after > |query| - cursor then Some(DeleteOutOfBounds)
    else if !Utf8.IsBoundary(query, cursor - before) || !Utf8.IsBoundary(query, cursor + after) then Some(DeleteSplitsCodepoint)
    else if 0 in commit then Some(QueryContainsNul)
    else if PreeditError(preedit).Some? then PreeditError(preedit)
    else
      var length := |query| - (before + after) + |commit|;
      if length > MAX_LAUNCHER_QUERY_BYTES then Some(QueryTooLong(length)) else None
  }

  function Edited(query: Text, cursor: nat, before: nat, after: nat, commit: Text): Text
    requires before <= cursor && cursor + after <= |query|
  {
    query[..cursor - before] + commit + query[cursor + after..]
  }

  /** Replacing text between boundaries keeps well-formed text, with the cursor on a boundary. */
  lemma {:induction false} EditKeepsText(query: Text, start: nat, end: nat, commit: Text)
    requires Utf8.Valid(query) && Utf8.Valid(commit) && start <= end <= |query|
    requires Utf8.IsBoundary(query, start) && Utf8.IsBoundary(query, end)
    ensures
      var edited := query[..start] + commit + query[end..];
      && Utf8.Valid(edited) && Utf8.IsBoundary(edited, start + |commit|)
      && (0 !in query && 0 !in commit ==> 0 !in edited)
  {
    Utf8.SplitAtBoundary(query, start);
    Utf8.SplitAtBoundary(query, end);
    Utf8.ConcatValid(query[..start], commit);
    Utf8.ConcatValid(query[..start] + commit, query[end..]);
    if end < |query| {
      assert Utf8.LeadsCharacter(query[end..]);
    }
  }

  /** What an edit that is not refused leaves behind. */
  lemma {:induction false} AcceptedEdit(query: Text, cursor: nat, before: nat, after: nat, commit: Text, preedit: Option<Preedit>)
    requires Utf8.Valid(query) && 0 !in query && cursor <= |query|
    requires Utf8.Valid(commit) && (preedit.Some? ==> Utf8.Valid(preedit.value.text))
    requires EditError(query, cursor, before, after, commit, preedit).None?
    ensures before <= cursor && cursor + after <= |query|
    ensures
      var edited := Edited(query, cursor, before, after, commit);
      && Utf8.Valid(edited) && |edited| <= MAX_LAUNCHER_QUERY_BYTES && 0 !in edited
      && cursor - before + |commit| <= |edited| && Utf8.IsBoundary(edited, cursor - before + |commit|)
    ensures preedit.Some? ==> ValidPreedit(preedit.value)
  {
    EditKeepsText(query, cursor - before, cursor + after, commit);
  }

  /** Stepping back undoes stepping forward. */
  lemma {:induction false} StepBack(n: nat, i: nat)
    requires i < n
    ensures ((if i == 0 then n - 1 else i - 1) + 1) % n == i
  {
    if i > 0 {
      assert i % n == i;
    }
  }

  // ---------------------------------------------------------------- The session on values

  /** What stays fixed: the library's binary search, text normalization and the result limit. */
  datatype Config = Config(search: Search, normalize: Text -> string, maxResults: nat)

  datatype Value = Value(entries: seq<Entry>, query: Text, cursor: nat, preedit: Option<Preedit>, selected: Option<nat>)

  /** What a query for the present text would answer. */
  function FreshAnswer(c: Config, v: Value): seq<SearchResult> {
    Answer(c.search, v.entries, c.normalize(v.query), c.maxResults)
  }

  function Refreshed(c: Config, v: Value): Value {
    v.(selected := if FreshAnswer(c, v) == [] then None else Some(0))
  }

  function QueryError(text: Text): Option<SessionError> {
    if 0 in text then Some(QueryContainsNul)
    else if |text| > MAX_LAUNCHER_QUERY_BYTES then Some(QueryTooLong(|text|)) else None
  }

  datatype Action =
    | NewCatalog(entries: seq<Entry>)
    | SetQuery(text: Text)
    | Edit(before: nat, after: nat, commit: Text, preedit: Option<Preedit>)
    | DeleteBackward
    | Next
    | Previous
    | Select(index: nat)

  /** The start of the character before the cursor. */
  function CharacterStart(query: Text, cursor: nat): (start: nat)
    requires 0 < cursor <= |query|
    ensures start < cursor && Utf8.IsBoundary(query, start)
    ensures forall i :: start < i < cursor ==> !Utf8.IsBoundary(query, i)
  {
    if Utf8.IsBoundary(query, cursor - 1) then cursor - 1 else CharacterStart(query, cursor - 1)
  }

  function ApplyEditTo(c: Config, v: Value, before: nat, after: nat, commit: Text, preedit: Option<Preedit>): Value
    requires v.cursor <= |v.query|
  {
    if EditError(v.query, v.cursor, before, after, commit, preedit).Some? then v
    else Refreshed(c, v.(query := Edited(v.query, v.cursor, before, after, commit), cursor := v.cursor - before + |commit|, preedit := preedit))
  }

  function Step(c: Config, v: Value, a: Action): Value
    requires v.cursor <= |v.query|
  {
    var count := |FreshAnswer(c, v)|;
    match a
    case NewCatalog(entries) => Refreshed(c, v.(entries := entries))
    case SetQuery(text) =>
      if QueryError(text).Some? then v else Refreshed(c, v.(query := text, cursor := |text|, preedit := None))
    case Edit(before, after, commit, preedit) => ApplyEditTo(c, v, before, after, commit, preedit)
    case DeleteBackward =>
      if v.cursor == 0 then v else ApplyEditTo(c, v, v.cursor - CharacterStart(v.query, v.cursor), 0, [], None)
    case Next =>
      v.(selected := if count == 0 then None else Some(if v.selected.None? then 0 else (v.selected.value + 1) % count))
    case Previous =>
      v.(selected := if count == 0 then None
                     else Some(if v.selected.None? || v.selected.value == 0 then count - 1 else v.selected.value - 1))
    case Select(index) => if index >= count then v else v.(selected := Some(index))
  }

  /** The text is well formed with the cursor on a boundary, and the selection is in range of the fresh
      answer. */
  ghost predicate Coherent(c: Config, v: Value) {
    && Utf8.Valid(v.query) && |v.query| <= MAX_LAUNCHER_QUERY_BYTES && 0 !in v.query
    && v.cursor <= |v.query| && Utf8.IsBoundary(v.query, v.cursor)
    && (v.preedit.Some? ==> ValidPreedit(v.preedit.value))
    && (v.selected.None? <==> FreshAnswer(c, v) == []) && (v.selected.Some? ==> v.selected.value < |FreshAnswer(c, v)|)
  }

  /** Rust strings are well-formed UTF-8. */
  ghost predicate WellFormed(a: Action) {
    match a
    case SetQuery(text) => Utf8.Valid(text)
    case Edit(_, _, commit, preedit) => Utf8.Valid(commit) && (preedit.Some? ==> Utf8.Valid(preedit.value.text))
    case _ => true
  }

  lemma {:induction false} EditCoherent(c: Config, v: Value, before: nat, after: nat, commit: Text, preedit: Option<Preedit>)
    requires Coherent(c, v) && Utf8.Valid(commit) && (preedit.Some? ==> Utf8.Valid(preedit.value.text))
    ensures Coherent(c, ApplyEditTo(c, v, before, after, commit, preedit))
  {
    if EditError(v.query, v.cursor, before, after, commit, preedit).None? {
      AcceptedEdit(v.query, v.cursor, before, after, commit, preedit);
    }
  }

  lemma {:induction false} StepCoherent(c: Config, v: Value, a: Action)
    requires Coherent(c, v) && WellFormed(a)
    ensures Coherent(c, Step(c, v, a))
  {
    match a
    case Edit(before, after, commit, preedit) => EditCoherent(c, v, before, after, commit, preedit);
    case DeleteBackward =>
      if v.cursor > 0 {
        EditCoherent(c, v, v.cursor - CharacterStart(v.query, v.cursor), 0, [], None);
      }
    case SetQuery(text) =>
    case _ =>
  }

  /** Backspace is never refused. */
  lemma {:induction false} BackspaceSucceeds(v: Value)
    requires 0 < v.cursor <= |v.query| <= MAX_LAUNCHER_QUERY_BYTES && Utf8.IsBoundary(v.query, v.cursor)
    ensures EditError(v.query, v.cursor, v.cursor - CharacterStart(v.query, v.cursor), 0, [], None).None?
  {
  }

  function Opened(c: Config, entries: seq<Entry>): Value {
    Refreshed(c, Value(entries, [], 0, None, None))
  }

  ghost function Run(c: Config, v: Value, actions: seq<Action>): (r: Value)
    requires Coherent(c, v) && forall i :: 0 <= i < |actions| ==> WellFormed(actions[i])
    ensures Coherent(c, r)
  {
    if actions == [] then v
    else
      var before, a := Run(c, v, actions[..|actions| - 1]), actions[|actions| - 1];
      StepCoherent(c, before, a);
      Step(c, before, a)
  }

  // ---------------------------------------------------------------- What the actions amount to

  /** Forward moves minus backward moves. */
  function Net(actions: seq<Action>): int {
    if actions == [] then 0
    else Net(actions[..|actions| - 1]) + Places(actions[|actions| - 1])
  }

  function Places(a: Action): int {
    match a
    case Next => 1
    case Previous => -1
    case _ => 0
  }

  lemma {:induction false} Wraps(k: int, n: nat)
    requires n > 0
    ensures (k + 1) % n == (k % n + 1) % n
    ensures (k - 1) % n == if k % n == 0 then n - 1 else k % n - 1
  {
    var q, r := k / n, k % n;
    assert k == n * q + r;
    if r + 1 < n {
      RemainderIs(k + 1, n, q, r + 1);
      RemainderIs(r + 1, n, 0, r + 1);
    } else {
      RemainderIs(k + 1, n, q + 1, 0);
      RemainderIs(r + 1, n, 1, 0);
    }
    if r == 0 {
      RemainderIs(k - 1, n, q - 1, n - 1);
    } else {
      RemainderIs(k - 1, n, q, r - 1);
    }
  }

  lemma {:induction false} RemainderIs(k: int, n: nat, q: int, r: int)
    requires 0 <= r < n && k == n * q + r
    ensures k % n == r
  {
    var d := k / n - q;
    assert n * d == r - k % n;
    assert -1 * n < n * d < n;
  }

  /** The result `k` places from the first, cyclically, is selected. */
  function At(c: Config, v: Value, k: int): Value
    requires FreshAnswer(c, v) != []
  {
    v.(selected := Some(k % |FreshAnswer(c, v)|))
  }

  /** Any moves forward and back through the results end where their difference says, cyclically, and
      change nothing else. */
  lemma {:induction false} SelectionMoves(c: Config, v: Value, actions: seq<Action>, k: int)
    requires Coherent(c, v) && v.selected.Some? && forall i :: 0 <= i < |actions| ==> actions[i] == Next || actions[i] == Previous
    requires k == v.selected.value + Net(actions)
    ensures Run(c, v, actions) == At(c, v, k)
  {
    if actions == [] {
      RemainderIs(v.selected.value, |FreshAnswer(c, v)|, 0, v.selected.value);
    } else {
      var before := k - Places(actions[|actions| - 1]);
      SelectionMoves(c, v, actions[..|actions| - 1], before);
      RunMovesOn(c, v, actions, before);
    }
  }

  lemma {:induction false} RunMovesOn(c: Config, v: Value, actions: seq<Action>, k: int)
    requires Coherent(c, v) && v.selected.Some? && actions != []
    requires forall i :: 0 <= i < |actions| ==> actions[i] == Next || actions[i] == Previous
    requires Run(c, v, actions[..|actions| - 1]) == At(c, v, k)
    ensures Run(c, v, actions) == At(c, v, k + Places(actions[|actions| - 1]))
  {
    SelectionMovesOn(c, v, k, actions[|actions| - 1]);
  }

  lemma {:induction false} SelectionMovesOn(c: Config, v: Value, k: int, a: Action)
    requires FreshAnswer(c, v) != [] && v.cursor <= |v.query| && (a == Next || a == Previous)
    ensures Step(c, At(c, v, k), a) == At(c, v, k + Places(a))
  {
    assert FreshAnswer(c, At(c, v, k)) == FreshAnswer(c, v);
    Wraps(k, |FreshAnswer(c, v)|);
  }

  /** An edit is accepted exactly if it deletes whole characters around the cursor, inserts no NUL, carries
      a preedit that may be shown and leaves at most 4000 bytes. */
  ghost predicate Acceptable(v: Value, before: nat, after: nat, commit: Text, preedit: Option<Preedit>) {
    && before <= v.cursor && v.cursor + after <= |v.query|
    && Utf8.IsBoundary(v.query, v.cursor - before) && Utf8.IsBoundary(v.query, v.cursor + after)
    && 0 !in commit && (preedit.Some? ==> ValidPreedit(preedit.value))
    && |v.query| - before - after + |commit| <= 4000
  }

  lemma {:induction false} AcceptableExactly(v: Value, before: nat, after: nat, commit: Text, preedit: Option<Preedit>)
    requires v.cursor <= |v.query| && (preedit.Some? ==> Utf8.Valid(preedit.value.text))
    ensures EditError(v.query, v.cursor, before, after, commit, preedit).None? <==> Acceptable(v, before, after, commit, preedit)
  {
  }

  /** Then the deleted text is replaced, the cursor stands behind the insertion, the new preedit is kept
      and the first result is selected; otherwise nothing changes. */
  lemma {:induction false} EditsExactly(c: Config, v: Value, before: nat, after: nat, commit: Text, preedit: Option<Preedit>)
    requires Coherent(c, v) && WellFormed(Edit(before, after, commit, preedit))
    ensures !Acceptable(v, before, after, commit, preedit) ==> Step(c, v, Edit(before, after, commit, preedit)) == v
    ensures Acceptable(v, before, after, commit, preedit) ==>
      var v' := Step(c, v, Edit(before, after, commit, preedit));
      && v'.query == v.query[..v.cursor - before] + commit + v.query[v.cursor + after..]
      && v'.cursor == v.cursor - before + |commit| && v'.preedit == preedit && v'.entries == v.entries
      && v'.selected == if FreshAnswer(c, v') == [] then None else Some(0)
  {
    AcceptableExactly(v, before, after, commit, preedit);
  }

  /** A backspace undoes the typing of any one character. */
  lemma {:induction false} BackspaceUndoesCharacter(c: Config, v: Value, character: Text)
    requires v.cursor <= |v.query| && Utf8.IsBoundary(v.query, v.cursor) && (v.cursor < |v.query| ==> !Utf8.IsContinuation(v.query[v.cursor]))
    requires Utf8.LeadsCharacter(character) && Utf8.LeadLength(character[0]) == |character|
    requires 0 !in character && |v.query| + |character| <= 4000
    ensures
      var typed := Step(c, v, Edit(0, 0, character, None));
      && typed.query == v.query[..v.cursor] + character + v.query[v.cursor..] && typed.cursor == v.cursor + |character|
      && Step(c, typed, DeleteBackward) == Refreshed(c, v.(preedit := None))
  {
    var text := v.query[..v.cursor] + character + v.query[v.cursor..];
    TypedCharacter(v.query, v.cursor, character);
    TypesCharacter(c, v, character, text);
    TypedIsDeleted(c, v, |character|, text);
  }

  lemma {:induction false} TypedIsDeleted(c: Config, v: Value, n: nat, text: Text)
    requires 0 < n && v.cursor + n <= |text| <= 4000 && Utf8.IsBoundary(text, v.cursor + n)
    requires CharacterStart(text, v.cursor + n) == v.cursor && Edited(text, v.cursor + n, n, 0, []) == v.query
    ensures
      var typed := Refreshed(c, v.(query := text, cursor := v.cursor + n, preedit := None));
      Step(c, typed, DeleteBackward) == Refreshed(c, v.(preedit := None))
  {
    var typed := Refreshed(c, v.(query := text, cursor := v.cursor + n, preedit := None));
    BackspaceRemoves(c, typed, n, v.query);
  }

  lemma {:induction false} TypesCharacter(c: Config, v: Value, character: Text, text: Text)
    requires v.cursor <= |v.query| && Utf8.IsBoundary(v.query, v.cursor) && 0 !in character && |v.query| + |character| <= 4000
    requires text == v.query[..v.cursor] + character + v.query[v.cursor..]
    ensures Step(c, v, Edit(0, 0, character, None)) == Refreshed(c, v.(query := text, cursor := v.cursor + |character|, preedit := None))
  {
  }

  lemma {:induction false} BackspaceRemoves(c: Config, v: Value, n: nat, rest: Text)
    requires 0 < n <= v.cursor <= |v.query| <= 4000 && Utf8.IsBoundary(v.query, v.cursor)
    requires CharacterStart(v.query, v.cursor) == v.cursor - n && Edited(v.query, v.cursor, n, 0, []) == rest
    ensures Step(c, v, DeleteBackward) == Refreshed(c, v.(query := rest, cursor := v.cursor - n, preedit := None))
  {
    BackspaceSucceeds(v);
  }

  /** The typed character is the one before the cursor, and taking it out restores the text. */
  lemma {:induction false} TypedCharacter(query: Text, cursor: nat, character: Text)
    requires cursor <= |query| && Utf8.LeadsCharacter(character) && Utf8.LeadLength(character[0]) == |character|
    requires cursor < |query| ==> !Utf8.IsContinuation(query[cursor])
    ensures
      var typed := query[..cursor] + character + query[cursor..];
      var end := cursor + |character|;
      && Utf8.IsBoundary(typed, cursor) && Utf8.IsBoundary(typed, end)
      && CharacterStart(typed, end) == cursor && Edited(typed, end, |character|, 0, []) == query
  {
    var typed := query[..cursor] + character + query[cursor..];
    var end := cursor + |character|;
    assert typed[cursor] == character[0];
    assert end < |typed| ==> typed[end] == query[cursor];
    forall i | cursor < i < end ensures !Utf8.IsBoundary(typed, i) {
      assert typed[i] == character[i - cursor];
    }
    var start := CharacterStart(typed, end);
    assert Utf8.IsBoundary(typed, cursor) && (start > cursor ==> !Utf8.IsBoundary(typed, start));
    assert typed[..cursor] + [] + typed[end..] == query;
  }

  // ---------------------------------------------------------------- The retained object

  class Session {
    const config: Config
    var entries: seq<Entry>
    var query: Text
    var cursor: nat
    var preedit: Option<Preedit>
    var results: seq<SearchResult>
    var selected: Option<nat>

    ghost function View(): Value
      reads this
    {
      Value(entries, query, cursor, preedit, selected)
    }

    /** The state is coherent and the retained results are the fresh answer. */
    ghost predicate Valid()
      reads this
    {
      IsSearch(config.search) && Coherent(config, View()) && results == FreshAnswer(config, View())
    }

    constructor (entries: seq<Entry>, limit: nat, search: Search, normalize: Text -> string)
      requires IsSearch(search)
      ensures config == Config(search, normalize, Min(limit, MAX_QUERY_RESULTS))
      ensures Valid() && View() == Opened(config, entries)
    {
      this.entries, config := entries, Config(search, normalize, Min(limit, MAX_QUERY_RESULTS));
      query, cursor, preedit, selected, results := [], 0, None, None, [];
      new;
      RefreshResults();
    }

    method RefreshResults()
      requires IsSearch(config.search)
      modifies this`results, this`selected
      ensures results == FreshAnswer(config, View())
      ensures View() == Refreshed(config, old(View()))
    {
      results := Query(config.search, entries, config.normalize(query), config.maxResults);
      selected := if results == [] then None else Some(0);
    }

    method ReplaceCatalog(entries': seq<Entry>)
      requires Valid()
      modifies this
      ensures Valid() && View() == Step(config, old(View()), NewCatalog(entries'))
      ensures entries == entries' && query == old(query) && cursor == old(cursor) && preedit == old(preedit)
    {
      entries := entries';
      RefreshResults();
    }

    method ReplaceQuery(text: Text) returns (error: Option<SessionError>)
      requires Valid() && Utf8.Valid(text)
      modifies this
      ensures Valid() && View() == Step(config, old(View()), SetQuery(text))
      ensures error == QueryError(text) && (error.Some? ==> unchanged(this))
      ensures error.None? <==> 0 !in text && |text| <= 4000
      ensures error.None? ==> query == text && cursor == |text| && preedit == None
    {
      if 0 in text {
        return Some(QueryContainsNul);
      }
      if |text| > MAX_LAUNCHER_QUERY_BYTES {
        return Some(QueryTooLong(|text|));
      }
      cursor := |text|;
      query := text;
      preedit := None;
      RefreshResults();
      return None;
    }

    method ApplyEdit(before: nat, after: nat, commit: Text, preedit': Option<Preedit>) returns (error: Option<SessionError>)
      requires Valid() && Utf8.Valid(commit) && (preedit'.Some? ==> Utf8.Valid(preedit'.value.text))
      modifies this
      ensures Valid() && View() == ApplyEditTo(config, old(View()), before, after, commit, preedit')
      ensures error == EditError(old(query), old(cursor), before, after, commit, preedit') && (error.Some? ==> unchanged(this))
      ensures error.None? ==> preedit == preedit' && cursor == old(cursor) - before + |commit|
    {
      error := EditError(query, cursor, before, after, commit, preedit');
      if error.None? {
        AcceptEdit(before, after, commit, preedit');
      }
    }

    method AcceptEdit(before: nat, after: nat, commit: Text, preedit': Option<Preedit>)
      requires Valid() && Utf8.Valid(commit) && (preedit'.Some? ==> Utf8.Valid(preedit'.value.text))
      requires EditError(query, cursor, before, after, commit, preedit').None?
      modifies this
      ensures Valid() && View() == ApplyEditTo(config, old(View()), before, after, commit, preedit')
    {
      EditCoherent(config, View(), before, after, commit, preedit');
      Install(Edited(query, cursor, before, after, commit), cursor - before + |commit|, preedit');
    }

    method Install(text: Text, position: nat, preedit': Option<Preedit>)
      requires IsSearch(config.search)
      requires Coherent(config, Refreshed(config, View().(query := text, cursor := position, preedit := preedit')))
      modifies this
      ensures Valid() && View() == Refreshed(config, old(View()).(query := text, cursor := position, preedit := preedit'))
    {
      query, cursor, preedit := text, position, preedit';
      RefreshResults();
    }

    method InsertText(text: Text) returns (error: Option<SessionError>)
      requires Valid() && Utf8.Valid(text)
      modifies this
      ensures Valid() && View() == Step(config, old(View()), Edit(0, 0, text, None))
      ensures error == EditError(old(query), old(cursor), 0, 0, text, None)
      ensures error.None? ==> query == old(query)[..old(cursor)] + text + old(query)[old(cursor)..] && cursor == old(cursor) + |text|
    {
      error := ApplyEdit(0, 0, text, None);
    }

    /** Removes exactly the one character before the cursor, and never fails. */
    method Backspace() returns (removed: bool)
      requires Valid()
      modifies this
      ensures Valid() && View() == Step(config, old(View()), DeleteBackward)
      ensures removed <==> old(cursor) > 0
      ensures removed ==> cursor == CharacterStart(old(query), old(cursor)) && query == old(query)[..cursor] + old(query)[old(cursor)..]
    {
      if cursor == 0 {
        return false;
      }
      ghost var v := View();
      BackspaceSucceeds(v);
      var start := CharacterStart(query, cursor);
      assert query[..start] + [] == query[..start];
      BackspaceRemoves(config, v, cursor - start, query[..start] + query[cursor..]);
      var _ := ApplyEdit(cursor - start, 0, [], None);
      assert View() == Step(config, v, DeleteBackward);
      return true;
    }

    method SelectNext()
      requires Valid()
      modifies this`selected
      ensures Valid() && View() == Step(config, old(View()), Next)
      ensures results != [] ==> selected == Some((old(selected).value + 1) % |results|)
    {
      if results == [] {
        selected := None;
        return;
      }
      selected := Some(if selected.None? then 0 else (selected.value + 1) % |results|);
    }

    /** Moving back undoes moving forward. */
    method SelectPrevious()
      requires Valid()
      modifies this`selected
      ensures Valid() && View() == Step(config, old(View()), Previous)
      ensures results != [] ==> (selected.value + 1) % |results| == old(selected.value)
    {
      if results == [] {
        selected := None;
        return;
      }
      StepBack(|results|, selected.value);
      selected := Some(if selected.None? || selected.value == 0 then |results| - 1 else selected.value - 1);
    }

    method SelectIndex(index: nat) returns (changed: bool)
      requires Valid()
      modifies this`selected
      ensures Valid() && View() == Step(config, old(View()), Select(index))
      ensures changed <==> selected != old(selected)
      ensures selected == if index < |results| then Some(index) else old(selected)
    {
      if index >= |results| || selected == Some(index) {
        return false;
      }
      selected := Some(index);
      return true;
    }
  }

  method Perform(session: Session, a: Action)
    requires session.Valid() && WellFormed(a)
    modifies session
    ensures session.Valid() && session.View() == Step(session.config, old(session.View()), a)
  {
    match a
    case NewCatalog(catalog) => session.ReplaceCatalog(catalog);
    case SetQuery(text) => var _ := session.ReplaceQuery(text);
    case Edit(before, after, commit, preedit) => var _ := session.ApplyEdit(before, after, commit, preedit);
    case DeleteBackward => var _ := session.Backspace();
    case Next => session.SelectNext();
    case Previous => session.SelectPrevious();
    case Select(index) => var _ := session.SelectIndex(index);
  }

  /** After any sequence of edits, catalog swaps and selection moves the session is where the run on
      values is, and the retained results are the fresh answer; with distinct ids that is sort-then-take. */
  method Drive(entries: seq<Entry>, limit: nat, search: Search, normalize: Text -> string, actions: seq<Action>) returns (session: Session)
    requires IsSearch(search) && forall i :: 0 <= i < |actions| ==> WellFormed(actions[i])
    ensures fresh(session) && session.config == Config(search, normalize, Min(limit, MAX_QUERY_RESULTS))
    ensures Coherent(session.config, Opened(session.config, entries))
    ensures session.View() == Run(session.config, Opened(session.config, entries), actions)
    ensures session.Valid() && session.results == FreshAnswer(session.config, session.View())
    ensures Answers(session.entries, normalize(session.query), if limit < 64 then limit else 64, session.results)
    ensures DistinctIds(session.entries) ==> session.results == Best(session.entries, normalize(session.query), session.config.maxResults)
  {
    session := new Session(entries, limit, search, normalize);
    for n := 0 to |actions|
      invariant fresh(session) && session.Valid()
      invariant session.View() == Run(session.config, Opened(session.config, entries), actions[..n])
    {
      assert actions[..n + 1][..n] == actions[..n];
      Perform(session, actions[n]);
    }
    assert actions[..|actions|] == actions;
    AnswerMeans(search, session.entries, normalize(session.query), session.config.maxResults);
    if DistinctIds(session.entries) {
      AnswerIsBest(search, session.entries, ScorerOf(normalize(session.query)), Min(session.config.maxResults, MAX_QUERY_RESULTS), |session.entries|);
    }
  }
}
