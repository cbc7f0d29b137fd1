/** The shell configuration store: a worker that keeps the last valid document and publishes changes
    under a mutex with an atomic revision hint, and readers that poll it, in any interleaving. */
module ConfigReload {
  import opened Basics

  datatype Parsed<+C> = Valid(config: C) | Invalid(message: string)

  type Document = Option<seq<nat>>
  type Parser<!C> = Document -> Parsed<C>

  const REVISIONS := 0x1_0000_0000_0000_0000

  // ---------------------------------------------------------------- Last valid document wins

  datatype Reload<C> = Reload(document: Document, documentError: Option<string>, config: C, reportedError: Option<string>)

  function Observe<C(==)>(parse: Parser<C>, s: Reload<C>, document: Document): (Reload<C>, Option<C>) {
    if s.document == document then (s.(reportedError := s.documentError), None)
    else match parse(document)
         case Valid(config) =>
           (Reload(document, None, config, None), if s.config == config then None else Some(config))
         case Invalid(message) => (s.(document := document, documentError := Some(message), reportedError := Some(message)), None)
  }

  /** The configuration of the latest valid document of a history whose first document is valid. */
  function Latest<C>(parse: Parser<C>, documents: seq<Document>): C
    requires documents != [] && parse(documents[0]).Valid?
  {
    var last := parse(documents[|documents| - 1]);
    if last.Valid? then last.config else Latest(parse, documents[..|documents| - 1])
  }

  function ErrorOf<C>(p: Parsed<C>): Option<string> {
    if p.Valid? then None else Some(p.message)
  }

  /** The retained state follows the history: last document, its error, and the latest valid config. */
  ghost predicate Follows<C>(parse: Parser<C>, s: Reload<C>, documents: seq<Document>) {
    && documents != [] && parse(documents[0]).Valid?
    && s.document == documents[|documents| - 1]
    && s.documentError == ErrorOf(parse(s.document))
    && s.config == Latest(parse, documents)
  }

  lemma {:induction false} ObserveFollows<C>(parse: Parser<C>, s: Reload<C>, documents: seq<Document>, document: Document)
    requires Follows(parse, s, documents)
    ensures
      var (s', published) := Observe(parse, s, document);
      && Follows(parse, s', documents + [document]) && s'.reportedError == s'.documentError
      && published == if s'.config == s.config then None else Some(s'.config)
  {
    var documents' := documents + [document];
    assert documents'[..|documents|] == documents;
    if s.document == document {
      LatestRepeats(parse, documents, document);
    }
  }

  lemma {:induction false} LatestRepeats<C>(parse: Parser<C>, documents: seq<Document>, document: Document)
    requires documents != [] && parse(documents[0]).Valid? && documents[|documents| - 1] == document
    ensures Latest(parse, documents + [document]) == Latest(parse, documents)
  {
    assert (documents + [document])[..|documents|] == documents;
  }

  class ReloadState<C(==)> {
    var document: Document
    var documentError: Option<string>
    var config: C
    var reportedError: Option<string>

    ghost function View(): Reload<C>
      reads this
    {
      Reload(document, documentError, config, reportedError)
    }

    constructor (document: Document, config: C)
      ensures View() == Reload(document, None, config, None)
    {
      this.document, this.config, documentError, reportedError := document, config, None, None;
    }

    method Report(message: string)
      modifies this`reportedError
      ensures reportedError == Some(message)
    {
      if reportedError == Some(message) {
        return;
      }
      reportedError := Some(message);
    }

    method ObserveDocument(parse: Parser<C>, document': Document) returns (changed: Option<C>)
      modifies this
      ensures (View(), changed) == Observe(parse, old(View()), document')
    {
      if document == document' {
        if documentError.Some? {
          Report(documentError.value);
        } else {
          reportedError := None;
        }
        return None;
      }
      document := document';
      match parse(document)
      case Valid(config') =>
        documentError, reportedError := None, None;
        if config == config' {
          return None;
        }
        config := config';
        return Some(config');
      case Invalid(message) =>
        documentError := Some(message);
        Report(message);
        return None;
    }
  }

  // ---------------------------------------------------------------- Publisher and readers

  /** Where `publish` is, the mutex being held in every state but `Resting`. */
  datatype Publisher<C> = Resting | Writing(config: C) | Storing | Unlocking

  /** What one poll returned. Publications are counted without wrap-around: `since` is the one the
      reader had, `floor` the newest completed when the poll began, `taken` the one it has afterwards. */
  datatype Poll<C> = Poll(since: nat, floor: nat, outcome: Option<(nat, C)>, taken: nat)

  datatype Reader<C> = Reader(observed: nat, index: nat, waiting: bool, floor: nat, polls: seq<Poll<C>>)

  /** The shared store, the worker, the readers, and the configurations stored so far: `stored[n]` is
      the n-th, carrying revision `n` modulo 2^64. `completed` is the index of the newest one whose
      `publish` has returned. */
  datatype World<C> = World(
    hint: nat, revision: nat, config: C, publisher: Publisher<C>, reload: Reload<C>,
    readers: seq<Reader<C>>, stored: seq<C>, completed: nat, documents: seq<Document>)

  datatype Event = Observed(document: Document) | Advance | Load(reader: nat) | Lock(reader: nat)

  function Started<C>(document: Document, config: C, readers: nat): World<C> {
    World(0, 0, config, Resting, Reload(document, None, config, None),
          seq(readers, i => Reader(0, 0, false, 0, [])), [config], 0, [document])
  }

  function Record<C>(r: Reader<C>, floor: nat, outcome: Option<(nat, C)>, newest: nat): Reader<C> {
    var taken := if outcome.Some? then newest else r.index;
    Reader(if outcome.Some? then outcome.value.0 else r.observed, taken, false, 0, r.polls + [Poll(r.index, floor, outcome, taken)])
  }

  function Newest<C>(w: World<C>): nat {
    if w.stored == [] then 0 else |w.stored| - 1
  }

  function Step<C(==)>(parse: Parser<C>, w: World<C>, e: Event): Option<World<C>> {
    match e
    case Observed(document) =>
      if !w.publisher.Resting? then None else
        var (reload, published) := Observe(parse, w.reload, document);
        Some(w.(reload := reload, documents := w.documents + [document],
                publisher := if published.Some? && published.value != w.config then Writing(published.value) else Resting))
    case Advance =>
      (match w.publisher
       case Resting => None
       case Writing(config) =>
         Some(w.(revision := (w.revision + 1) % REVISIONS, config := config, stored := w.stored + [config], publisher := Storing))
       case Storing => Some(w.(hint := w.revision, publisher := Unlocking))
       case Unlocking => Some(w.(publisher := Resting, completed := if w.stored == [] then 0 else |w.stored| - 1)))
    case Load(i) =>
      if i >= |w.readers| || w.readers[i].waiting then None else
        var r := w.readers[i];
        var r' := if w.hint == r.observed then Record(r, w.completed, None, Newest(w)) else r.(waiting := true, floor := w.completed);
        Some(w.(readers := w.readers[i := r']))
    case Lock(i) =>
      if i >= |w.readers| || !w.readers[i].waiting || !w.publisher.Resting? then None else
        var r := w.readers[i];
        var r' := Record(r, r.floor, if w.revision != r.observed then Some((w.revision, w.config)) else None, Newest(w));
        Some(w.(readers := w.readers[i := r']))
  }

  function Run<C(==)>(parse: Parser<C>, w: World<C>, events: seq<Event>): Option<World<C>>
    decreases |events|
  {
    if events == [] then Some(w) else
      match Step(parse, w, events[0])
      case None => None
      case Some(w') => Run(parse, w', events[1..])
  }

  // ---------------------------------------------------------------- What readers may rely on

  function Revision(n: nat): nat {
    n % REVISIONS
  }

  /** A poll is honest: a returned pair is one that was stored, newer than what the reader had and at
      least as new as what was complete; it returns nothing although something newer was complete only
      when some publication since carries the reader's own revision number again. */
  ghost predicate HonestPoll<C>(stored: seq<C>, p: Poll<C>) {
    if p.outcome.Some?
    then p.since < p.taken < |stored| && p.floor <= p.taken && p.outcome.value == (Revision(p.taken), stored[p.taken])
    else p.taken == p.since && (p.since < p.floor ==> Repeats(p.since, p.floor, |stored|))
  }

  ghost predicate Repeats(since: nat, floor: nat, count: nat) {
    exists m: nat :: floor <= m < count && Revision(m) == Revision(since)
  }

  /** Each poll starts from what the previous one left. */
  ghost predicate Chained<C>(polls: seq<Poll<C>>, index: nat) {
    && (forall k :: 0 < k < |polls| ==> polls[k].since == polls[k - 1].taken)
    && (polls != [] ==> index == polls[|polls| - 1].taken)
  }

  ghost predicate HonestReader<C>(stored: seq<C>, completed: nat, r: Reader<C>) {
    && (forall k :: 0 <= k < |r.polls| ==> HonestPoll(stored, r.polls[k]))
    && Chained(r.polls, r.index)
    && r.index < |stored| && r.observed == Revision(r.index) && (r.waiting ==> r.floor <= completed)
  }

  /** The publication whose revision the hint shows: it trails the snapshot only while `publish` is
      between its two writes. */
  function Hinted<C>(w: World<C>): int {
    if w.publisher.Storing? then |w.stored| - 2 else |w.stored| - 1
  }

  /** Revisions are indices modulo 2^64; the store holds the worker's config whenever the worker rests. */
  ghost predicate Consistent<C>(parse: Parser<C>, w: World<C>) {
    && 0 < |w.stored|
    && w.revision == Revision(|w.stored| - 1) && w.config == w.stored[|w.stored| - 1]
    && w.completed == (if w.publisher.Storing? || w.publisher.Unlocking? then |w.stored| - 2 else |w.stored| - 1)
    && w.hint == Revision(Hinted(w))
    && Follows(parse, w.reload, w.documents)
    && (w.publisher.Writing? ==> w.publisher.config == w.reload.config)
    && (!w.publisher.Writing? ==> w.config == w.reload.config)
    && forall i :: 0 <= i < |w.readers| ==> HonestReader(w.stored, w.completed, w.readers[i])
  }

  lemma {:induction false} StoredGrows<C>(stored: seq<C>, config: C, completed: nat, completed': nat, r: Reader<C>)
    requires HonestReader(stored, completed, r) && completed <= completed'
    ensures HonestReader(stored + [config], completed', r) && HonestReader(stored, completed', r)
  {
    forall k | 0 <= k < |r.polls|
      ensures HonestPoll(stored + [config], r.polls[k])
    {
      var p := r.polls[k];
      assert HonestPoll(stored, p);
      if m: nat :| p.floor <= m < |stored| && Revision(m) == Revision(p.since) {
        assert Repeats(p.since, p.floor, |stored + [config]|);
      }
    }
  }

  lemma {:induction false} RecordIsHonest<C>(stored: seq<C>, completed: nat, r: Reader<C>, floor: nat, outcome: Option<(nat, C)>, newest: nat)
    requires HonestReader(stored, completed, r)
    requires HonestPoll(stored, Poll(r.index, floor, outcome, if outcome.Some? then newest else r.index))
    ensures HonestReader(stored, completed, Record(r, floor, outcome, newest))
  {
  }

  lemma {:induction false} RevisionSteps(n: nat)
    ensures (Revision(n) + 1) % REVISIONS == Revision(n + 1)
  {
  }

  lemma {:induction false} LoadConsistent<C>(parse: Parser<C>, w: World<C>, i: nat)
    requires Consistent(parse, w) && Step(parse, w, Load(i)).Some?
    ensures Consistent(parse, Step(parse, w, Load(i)).value)
  {
    var r := w.readers[i];
    assert HonestReader(w.stored, w.completed, r);
    if w.hint == r.observed {
      assert r.index < w.completed ==> Repeats(r.index, w.completed, |w.stored|) by {
        assert Revision(Hinted(w)) == Revision(r.index);
      }
      RecordIsHonest(w.stored, w.completed, r, w.completed, None, Newest(w));
    }
  }

  lemma {:induction false} LockConsistent<C>(parse: Parser<C>, w: World<C>, i: nat)
    requires Consistent(parse, w) && Step(parse, w, Lock(i)).Some?
    ensures Consistent(parse, Step(parse, w, Lock(i)).value)
  {
    var r := w.readers[i];
    assert HonestReader(w.stored, w.completed, r);
    if w.revision == r.observed {
      assert r.index < r.floor ==> Repeats(r.index, r.floor, |w.stored|) by {
        assert Revision(Newest(w)) == Revision(r.index);
      }
      RecordIsHonest(w.stored, w.completed, r, r.floor, None, Newest(w));
    } else {
      RecordIsHonest(w.stored, w.completed, r, r.floor, Some((w.revision, w.config)), Newest(w));
    }
  }

  lemma {:induction false} StepConsistent<C>(parse: Parser<C>, w: World<C>, e: Event)
    requires Consistent(parse, w) && Step(parse, w, e).Some?
    ensures Consistent(parse, Step(parse, w, e).value)
  {
    match e
    case Observed(document) => ObserveFollows(parse, w.reload, w.documents, document);
    case Advance =>
      var w' := Step(parse, w, e).value;
      RevisionSteps(|w.stored| - 1);
      forall i | 0 <= i < |w.readers|
        ensures HonestReader(w'.stored, w'.completed, w.readers[i])
      {
        StoredGrows(w.stored, if w.publisher.Writing? then w.publisher.config else w.config, w.completed, w'.completed, w.readers[i]);
      }
    case Load(i) => LoadConsistent(parse, w, i);
    case Lock(i) => LockConsistent(parse, w, i);
  }

  /** Over every interleaving of the worker with any number of polling readers: every returned pair is
      one that was published, newer than what the reader had and than what was complete when the poll
      began; nothing complete is missed except when a revision number has come round again; and the
      worker's configuration is the parse of its latest valid document. */
  lemma {:induction false} EveryInterleavingIsConsistent<C>(parse: Parser<C>, w: World<C>, events: seq<Event>)
    requires Consistent(parse, w) && Run(parse, w, events).Some?
    ensures Consistent(parse, Run(parse, w, events).value)
    decreases |events|
  {
    if events != [] {
      StepConsistent(parse, w, events[0]);
      EveryInterleavingIsConsistent(parse, Step(parse, w, events[0]).value, events[1..]);
    }
  }

  /** A number comes round only after 2^64 publications; before that no poll misses anything complete. */
  lemma {:induction false} NothingMissedBeforeWrapAround<C>(stored: seq<C>, p: Poll<C>)
    requires HonestPoll(stored, p) && p.since < p.floor
    ensures p.outcome.None? ==> |stored| > p.since + REVISIONS
    ensures |stored| <= REVISIONS ==> p.outcome.Some? && p.floor <= p.outcome.value.0 == p.taken
  {
    if p.outcome.None? {
      var m: nat :| p.floor <= m < |stored| && Revision(m) == Revision(p.since);
      ComesRoundLater(p.since, m);
    }
  }

  lemma {:induction false} ComesRoundLater(n: nat, m: nat)
    requires n < m && Revision(m) == Revision(n)
    ensures m >= n + REVISIONS
  {
  }

  lemma {:induction false} StartedIsConsistent<C>(parse: Parser<C>, document: Document, config: C, readers: nat)
    requires parse(document) == Valid(config)
    ensures Consistent(parse, Started(document, config, readers))
  {
  }

  /** What a reader is handed gets strictly newer; so do the revision numbers before wrap-around. */
  lemma {:induction false} RevisionsIncrease<C>(stored: seq<C>, completed: nat, r: Reader<C>, j: nat, k: nat)
    requires HonestReader(stored, completed, r) && j < k < |r.polls|
    requires r.polls[j].outcome.Some? && r.polls[k].outcome.Some?
    ensures r.polls[j].taken < r.polls[k].taken
    ensures |stored| <= REVISIONS ==> r.polls[j].outcome.value.0 < r.polls[k].outcome.value.0
  {
    SinceGrows(stored, completed, r, j + 1, k);
    assert HonestPoll(stored, r.polls[j]) && HonestPoll(stored, r.polls[k]);
  }

  lemma {:induction false} SinceGrows<C>(stored: seq<C>, completed: nat, r: Reader<C>, j: nat, k: nat)
    requires HonestReader(stored, completed, r) && j <= k < |r.polls|
    ensures r.polls[j].since <= r.polls[k].since
    decreases k - j
  {
    if j < k {
      assert HonestPoll(stored, r.polls[j]);
      SinceGrows(stored, completed, r, j + 1, k);
    }
  }

  // ---------------------------------------------------------------- The shared store

  /** The store's fields. Each method is one indivisible piece of `publish` or `read_if_changed`, and
      states which step of the interleaving it is. */
  class ConfigStore<C(==)> {
    var revisionHint: nat
    var revision: nat
    var config: C

    ghost predicate Shows(w: World<C>)
      reads this
    {
      revisionHint == w.hint && revision == w.revision && config == w.config
    }

    constructor (config: C)
      ensures revisionHint == 0 && revision == 0 && this.config == config
    {
      revisionHint, revision, this.config := 0, 0, config;
    }

    /** Under the mutex: refuse an unchanged configuration, else replace the snapshot. */
    method ReplaceSnapshot(config': C, ghost w: World<C>, parse: Parser<C>) returns (replaced: bool)
      requires Shows(w) && (config' != w.config ==> w.publisher == Writing(config'))
      modifies this`revision, this`config
      ensures replaced <==> config' != old(config)
      ensures if replaced then Shows(Step(parse, w, Advance).value) else Shows(w)
    {
      if config == config' {
        return false;
      }
      revision := (revision + 1) % REVISIONS;
      config := config';
      return true;
    }

    method StoreHint(ghost w: World<C>, parse: Parser<C>)
      requires Shows(w) && w.publisher.Storing?
      modifies this`revisionHint
      ensures Shows(Step(parse, w, Advance).value)
    {
      revisionHint := revision;
    }

    /** The lock-free first half of a poll: unchanged means the poll is over. */
    method HintUnchanged(observed: nat, ghost w: World<C>, parse: Parser<C>, ghost reader: nat) returns (unchanged': bool)
      requires Shows(w) && reader < |w.readers| && !w.readers[reader].waiting && w.readers[reader].observed == observed
      ensures var r := Step(parse, w, Load(reader)).value.readers[reader];
        if unchanged' then r == Record(w.readers[reader], w.completed, None, Newest(w)) else r.waiting
    {
      return revisionHint == observed;
    }

    /** The second half, under the mutex. */
    method ReadSnapshot(observed: nat, ghost w: World<C>, parse: Parser<C>, ghost reader: nat) returns (r: Option<(nat, C)>)
      requires Shows(w) && reader < |w.readers| && w.readers[reader].waiting && w.readers[reader].observed == observed
      requires w.publisher.Resting?
      ensures Step(parse, w, Lock(reader)).value.readers[reader] == Record(w.readers[reader], w.readers[reader].floor, r, Newest(w))
    {
      if revision != observed {
        return Some((revision, config));
      }
      return None;
    }
  }
}
