/** Launcher search: ranking and bounded insertion. */
module LauncherQuery {
  import opened Basics
  import opened Sorting
  import opened LauncherScore

  const MAX_QUERY_RESULTS := 64

  datatype SearchResult = SearchResult(index: nat, score: nat)

  // ---------------------------------------------------------------- Ranking

  /** Code-point order, which for UTF-8 text is the byte order. */
  predicate TextLeq(a: string, b: string) {
    a == [] || (b != [] && (a[0] < b[0] || (a[0] == b[0] && TextLeq(a[1..], b[1..]))))
  }

  lemma {:induction false} TextTotal(a: string, b: string)
    ensures TextLeq(a, b) || TextLeq(b, a)
    ensures TextLeq(a, b) && TextLeq(b, a) ==> a == b
  {
    if a != [] && b != [] {
      TextTotal(a[1..], b[1..]);
      assert a == [a[0]] + a[1..] && b == [b[0]] + b[1..];
    }
  }

  lemma {:induction false} TextTransitive(a: string, b: string, c: string)
    requires TextLeq(a, b) && TextLeq(b, c)
    ensures TextLeq(a, c)
  {
    if a != [] && a[0] == b[0] == c[0] {
      TextTransitive(a[1..], b[1..], c[1..]);
    }
  }

  /** Strictly first in the order of code points: a proper prefix, or smaller at the first difference. */
  ghost predicate TextBefore(a: string, b: string) {
    || (|a| < |b| && b[..|a|] == a)
    || exists i :: 0 <= i < |a| && i < |b| && a[..i] == b[..i] && a[i] < b[i]
  }

  lemma {:induction false} TextLeqMeans(a: string, b: string)
    ensures TextLeq(a, b) <==> a == b || TextBefore(a, b)
  {
    if a != [] && b != [] && a[0] == b[0] {
      TextLeqMeans(a[1..], b[1..]);
      TextBeforeStep(a, b);
    }
  }

  lemma {:induction false} TextBeforeStep(a: string, b: string)
    requires a != [] && b != [] && a[0] == b[0]
    ensures TextBefore(a, b) <==> TextBefore(a[1..], b[1..])
    ensures a == b <==> a[1..] == b[1..]
  {
    assert a == [a[0]] + a[1..] && b == [b[0]] + b[1..];
    assert |a| <= |b| ==> (b[..|a|] == a <==> b[1..][..|a| - 1] == a[1..]) by {
      assert |a| <= |b| ==> b[..|a|] == [b[0]] + b[1..][..|a| - 1];
    }
    forall i | 0 < i < |a| && i < |b| ensures a[..i] == b[..i] <==> a[1..][..i - 1] == b[1..][..i - 1] {
      assert a[..i] == [a[0]] + a[1..][..i - 1] && b[..i] == [b[0]] + b[1..][..i - 1];
    }
    if i :| 0 <= i < |a| && i < |b| && a[..i] == b[..i] && a[i] < b[i] {
      assert a[1..][i - 1] < b[1..][i - 1];
    }
    if i :| 0 <= i < |a[1..]| && i < |b[1..]| && a[1..][..i] == b[1..][..i] && a[1..][i] < b[1..][i] {
      assert a[..i + 1] == b[..i + 1] && a[i + 1] < b[i + 1];
    }
  }

  /** A higher score, or the same score and an earlier name, or the same name as well and no later id. */
  ghost predicate NoLater(entries: seq<Entry>, a: SearchResult, b: SearchResult) {
    a.index < |entries| && b.index < |entries| &&
    var x, y := entries[a.index], entries[b.index];
    || a.score > b.score
    || (a.score == b.score && (TextBefore(x.name, y.name) || (x.name == y.name && (x.id == y.id || TextBefore(x.id, y.id)))))
  }

  lemma {:induction false} NoLaterMeans(entries: seq<Entry>, a: SearchResult, b: SearchResult)
    requires a.index < |entries| && b.index < |entries|
    ensures NoLater(entries, a, b) <==> !Before(entries, b, a)
  {
    var x, y := entries[a.index], entries[b.index];
    TextTotal(x.name, y.name);
    TextTotal(x.id, y.id);
    TextLeqMeans(x.name, y.name);
    TextLeqMeans(y.name, x.name);
    TextLeqMeans(x.id, y.id);
    TextLeqMeans(y.id, x.id);
  }

  function NameAt(entries: seq<Entry>, i: nat): string {
    if i < |entries| then entries[i].name else ""
  }

  function IdAt(entries: seq<Entry>, i: nat): string {
    if i < |entries| then entries[i].id else ""
  }

  /** Higher score first, then name, then id. */
  predicate Before(entries: seq<Entry>, a: SearchResult, b: SearchResult) {
    if a.score != b.score then a.score > b.score
    else if NameAt(entries, a.index) != NameAt(entries, b.index) then TextLeq(NameAt(entries, a.index), NameAt(entries, b.index))
    else IdAt(entries, a.index) != IdAt(entries, b.index) && TextLeq(IdAt(entries, a.index), IdAt(entries, b.index))
  }

  /** `Before`, completed by the index to a total order on all results. */
  predicate RankLeq(entries: seq<Entry>, a: SearchResult, b: SearchResult) {
    Before(entries, a, b) || (!Before(entries, b, a) && a.index <= b.index)
  }

  function Ranking(entries: seq<Entry>): Order<SearchResult> {
    (a, b) => RankLeq(entries, a, b)
  }

  lemma {:induction false} BeforeTransitive(entries: seq<Entry>, a: SearchResult, b: SearchResult, c: SearchResult)
    requires !Before(entries, b, a) && !Before(entries, c, b)
    ensures !Before(entries, c, a)
    ensures Before(entries, a, b) || Before(entries, b, c) ==> Before(entries, a, c)
  {
    var an, bn, cn := NameAt(entries, a.index), NameAt(entries, b.index), NameAt(entries, c.index);
    var ai, bi, ci := IdAt(entries, a.index), IdAt(entries, b.index), IdAt(entries, c.index);
    TextTotal(an, bn); TextTotal(bn, cn); TextTotal(an, cn);
    TextTotal(ai, bi); TextTotal(bi, ci); TextTotal(ai, ci);
    if TextLeq(an, bn) && TextLeq(bn, cn) { TextTransitive(an, bn, cn); }
    if TextLeq(ai, bi) && TextLeq(bi, ci) { TextTransitive(ai, bi, ci); }
  }

  lemma {:induction false} BeforeAsymmetric(entries: seq<Entry>, a: SearchResult, b: SearchResult)
    requires Before(entries, a, b)
    ensures !Before(entries, b, a)
  {
    TextTotal(NameAt(entries, a.index), NameAt(entries, b.index));
    TextTotal(IdAt(entries, a.index), IdAt(entries, b.index));
  }

  lemma {:induction false} RankingIsTotalOrder(entries: seq<Entry>)
    ensures IsTotalOrder(Ranking(entries))
  {
    var leq := Ranking(entries);
    forall a, b
      ensures leq(a, b) || leq(b, a)
      ensures leq(a, b) && leq(b, a) ==> a == b
    {
      if Before(entries, a, b) { BeforeAsymmetric(entries, a, b); }
      if Before(entries, b, a) { BeforeAsymmetric(entries, b, a); }
      if !Before(entries, a, b) && !Before(entries, b, a) && leq(a, b) && leq(b, a) {
        Incomparable(entries, a, b);
      }
    }
    forall a, b, c | leq(a, b) && leq(b, c)
      ensures leq(a, c)
    {
      if Before(entries, a, b) { BeforeAsymmetric(entries, a, b); }
      if Before(entries, b, c) { BeforeAsymmetric(entries, b, c); }
      BeforeTransitive(entries, a, b, c);
    }
  }

  /** Results that neither precedes the other agree in score, name and id. */
  lemma {:induction false} Incomparable(entries: seq<Entry>, a: SearchResult, b: SearchResult)
    requires !Before(entries, a, b) && !Before(entries, b, a)
    ensures a.score == b.score
    ensures NameAt(entries, a.index) == NameAt(entries, b.index) && IdAt(entries, a.index) == IdAt(entries, b.index)
  {
    TextTotal(NameAt(entries, a.index), NameAt(entries, b.index));
    TextTotal(IdAt(entries, a.index), IdAt(entries, b.index));
  }

  // ---------------------------------------------------------------- Bounded insertion

  function Take<T>(s: seq<T>, k: nat): seq<T> {
    if |s| <= k then s else s[..k]
  }

  /** Dropping everything past the bound before inserting loses nothing that survives the bound. */
  lemma {:induction false} BoundedInsert<T>(leq: Order<T>, x: T, s: seq<T>, k: nat)
    ensures Take(Insert(leq, x, s), k) == Take(Insert(leq, x, Take(s, k)), k)
  {
    if k == 0 {
    } else if s != [] && |s| > k && !leq(x, s[0]) {
      BoundedInsert(leq, x, s[1..], k - 1);
      assert Take(s, k)[1..] == Take(s[1..], k - 1);
      TakeCons(s[0], Insert(leq, x, s[1..]), k);
      TakeCons(s[0], Insert(leq, x, Take(s[1..], k - 1)), k);
    }
  }

  lemma {:induction false} TakeCons<T>(x: T, s: seq<T>, k: nat)
    requires k > 0
    ensures Take([x] + s, k) == [x] + Take(s, k - 1)
  {
  }

  lemma {:induction false} InsertLength<T>(leq: Order<T>, x: T, s: seq<T>)
    ensures |Insert(leq, x, s)| == |s| + 1
  {
    if s != [] && !leq(x, s[0]) {
      InsertLength(leq, x, s[1..]);
    }
  }

  /** In a sorted list, the insertion point is where everything left of it precedes the candidate. */
  lemma {:induction false} InsertAt<T(!new)>(leq: Order<T>, x: T, s: seq<T>, position: nat)
    requires IsTotalOrder(leq) && position <= |s|
    requires forall i :: 0 <= i < position ==> !leq(x, s[i])
    requires forall i :: position <= i < |s| ==> leq(x, s[i])
    ensures Insert(leq, x, s) == s[..position] + [x] + s[position..]
  {
    if position > 0 {
      InsertAt(leq, x, s[1..], position - 1);
      assert s[..position] == [s[0]] + s[1..][..position - 1];
    }
  }

  // ---------------------------------------------------------------- The query

  function EntryScore(entry: Entry, query: string): nat {
    if query == [] then 1 else Score(entry, query)
  }

  /** How entries score, for one query. */
  type Scorer = Entry -> nat

  function ScorerOf(query: string): Scorer {
    (entry: Entry) => EntryScore(entry, query)
  }

  /** Every matching entry among the first `n`, in catalog order. */
  function Matches(entries: seq<Entry>, score: Scorer, n: nat): seq<SearchResult>
    requires n <= |entries|
  {
    if n == 0 then [] else
      Matches(entries, score, n - 1) + if score(entries[n - 1]) == 0 then [] else [SearchResult(n - 1, score(entries[n - 1]))]
  }

  /** The reference answer: sort every match, then take the first `limit`, at most 64. */
  function Best(entries: seq<Entry>, query: string, limit: nat): seq<SearchResult> {
    Take(Sort(Ranking(entries), Matches(entries, ScorerOf(query), |entries|)), Min(limit, MAX_QUERY_RESULTS))
  }

  ghost predicate DistinctIds(entries: seq<Entry>) {
    forall i, j :: 0 <= i < j < |entries| ==> entries[i].id != entries[j].id
  }

  ghost predicate InCatalog(entries: seq<Entry>, results: seq<SearchResult>, n: nat) {
    forall r :: r in results ==> r.index < n <= |entries|
  }

  lemma {:induction false} MatchesInCatalog(entries: seq<Entry>, score: Scorer, n: nat)
    requires n <= |entries|
    ensures InCatalog(entries, Matches(entries, score, n), n)
    ensures forall r :: r in Matches(entries, score, n) ==> r.score == score(entries[r.index]) != 0
    ensures forall i, j :: 0 <= i < j < |Matches(entries, score, n)| ==> Matches(entries, score, n)[i].index < Matches(entries, score, n)[j].index
  {
    if n > 0 {
      MatchesInCatalog(entries, score, n - 1);
      MatchesStep(entries, Matches(entries, score, n - 1), SearchResult(n - 1, score(entries[n - 1])), n - 1);
    }
  }

  /** In catalog order, all before entry `n`. */
  ghost predicate Increasing(all: seq<SearchResult>, n: nat) {
    && (forall r :: r in all ==> r.index < n)
    && (forall i, j :: 0 <= i < j < |all| ==> all[i].index < all[j].index)
  }

  lemma {:induction false} MatchesIncrease(entries: seq<Entry>, score: Scorer, n: nat)
    requires n <= |entries|
    ensures Increasing(Matches(entries, score, n), n)
  {
    MatchesInCatalog(entries, score, n);
  }

  lemma {:induction false} MatchesStep(entries: seq<Entry>, front: seq<SearchResult>, x: SearchResult, n: nat)
    requires n < |entries| && x.index == n && InCatalog(entries, front, n)
    requires forall i, j :: 0 <= i < j < |front| ==> front[i].index < front[j].index
    ensures InCatalog(entries, front, n + 1) && InCatalog(entries, front + [x], n + 1)
    ensures forall i, j :: 0 <= i < j < |front + [x]| ==> (front + [x])[i].index < (front + [x])[j].index
  {
    forall i | 0 <= i < |front| ensures front[i].index < n {
      assert front[i] in front;
    }
  }

  lemma {:induction false} EveryMatchListed(entries: seq<Entry>, score: Scorer, n: nat, i: nat)
    requires i < n <= |entries| && score(entries[i]) != 0
    ensures SearchResult(i, score(entries[i])) in Matches(entries, score, n)
  {
    if i < n - 1 {
      EveryMatchListed(entries, score, n - 1, i);
    }
  }

  lemma {:induction false} SortMembers(entries: seq<Entry>, s: seq<SearchResult>)
    ensures Sorted(Ranking(entries), Sort(Ranking(entries), s))
    ensures forall r :: r in Sort(Ranking(entries), s) <==> r in s
    ensures |Sort(Ranking(entries), s)| == |s|
  {
    RankingIsTotalOrder(entries);
    SortSorts(Ranking(entries), s);
    var sorted := Sort(Ranking(entries), s);
    assert |multiset(sorted)| == |sorted| && |multiset(s)| == |s|;
    forall r
      ensures r in sorted <==> r in s
    {
      assert r in sorted <==> r in multiset(sorted);
      assert r in s <==> r in multiset(s);
    }
  }

  lemma {:induction false} SortSnoc(entries: seq<Entry>, s: seq<SearchResult>, x: SearchResult)
    ensures Sort(Ranking(entries), s + [x]) == Insert(Ranking(entries), x, Sort(Ranking(entries), s))
  {
    var leq := Ranking(entries);
    RankingIsTotalOrder(entries);
    SortSorts(leq, s);
    SortSorts(leq, s + [x]);
    InsertSorts(leq, x, Sort(leq, s));
    SortedUnique(leq, Sort(leq, s + [x]), Insert(leq, x, Sort(leq, s)));
  }

  /** Distinct ids leave no two catalog entries unranked. */
  lemma {:induction false} DistinctIdsCompare(entries: seq<Entry>, a: SearchResult, b: SearchResult)
    requires DistinctIds(entries) && a.index < |entries| && b.index < |entries| && a.index != b.index
    ensures Before(entries, a, b) <==> !Before(entries, b, a)
    ensures Before(entries, a, b) <==> RankLeq(entries, a, b)
  {
    if !Before(entries, a, b) && !Before(entries, b, a) {
      Incomparable(entries, a, b);
    }
    if Before(entries, a, b) { BeforeAsymmetric(entries, a, b); }
    if Before(entries, b, a) { BeforeAsymmetric(entries, b, a); }
  }

  // ---------------------------------------------------------------- Incremental answer

  /** The standard library's binary search: the position of some equal element, or else the insertion
      point. Which of several equal elements it finds is not specified. */
  type Search = (seq<Entry>, seq<SearchResult>, SearchResult) -> nat

  ghost predicate Ranked(entries: seq<Entry>, results: seq<SearchResult>) {
    forall i, j :: 0 <= i < j < |results| ==> !Before(entries, results[j], results[i])
  }

  /** Inserting at `p` keeps the list ranked. */
  ghost predicate FitsAt(entries: seq<Entry>, results: seq<SearchResult>, candidate: SearchResult, p: nat) {
    && p <= |results|
    && (forall i :: 0 <= i < p ==> !Before(entries, candidate, results[i]))
    && (forall i :: p <= i < |results| ==> !Before(entries, results[i], candidate))
  }

  ghost predicate IsSearch(search: Search) {
    forall entries, results, candidate {:trigger search(entries, results, candidate)} ::
      Ranked(entries, results) ==> FitsAt(entries, results, candidate, search(entries, results, candidate))
  }

  function InsertRanked(search: Search, entries: seq<Entry>, results: seq<SearchResult>, candidate: SearchResult, limit: nat): seq<SearchResult> {
    var p := Min(search(entries, results, candidate), |results|);
    Take(results[..p] + [candidate] + results[p..], limit)
  }

  /** The answer after the first `n` entries. */
  function AnswerUpTo(search: Search, entries: seq<Entry>, score: Scorer, bound: nat, n: nat): seq<SearchResult>
    requires n <= |entries|
  {
    if n == 0 then [] else
      var results, points := AnswerUpTo(search, entries, score, bound, n - 1), score(entries[n - 1]);
      if points == 0 then results else InsertRanked(search, entries, results, SearchResult(n - 1, points), bound)
  }

  function Answer(search: Search, entries: seq<Entry>, query: string, limit: nat): seq<SearchResult> {
    AnswerUpTo(search, entries, ScorerOf(query), Min(limit, MAX_QUERY_RESULTS), |entries|)
  }

  /** `results` are matches in ranked order, without repetition, as many as fit; no match left out
      ranks before one that is kept. */
  ghost predicate TopRanked(entries: seq<Entry>, all: seq<SearchResult>, results: seq<SearchResult>, bound: nat) {
    && |results| == Min(|all|, bound) && Ranked(entries, results)
    && (forall i :: 0 <= i < |results| ==> results[i] in all)
    && (forall i, j :: 0 <= i < j < |results| ==> results[i] != results[j])
    && (forall r, i :: r in all && r !in results && 0 <= i < |results| ==> !Before(entries, r, results[i]))
  }

  lemma {:induction false} InsertedRanked(entries: seq<Entry>, results: seq<SearchResult>, x: SearchResult, p: nat)
    requires Ranked(entries, results) && FitsAt(entries, results, x, p)
    ensures Ranked(entries, results[..p] + [x] + results[p..])
  {
    var s := results[..p] + [x] + results[p..];
    if p == 0 || p == |results| {
      forall i, j | 0 <= i < j < |s| ensures !Before(entries, s[j], s[i]) {
      }
    } else {
      forall i, j | 0 <= i < j < |s| ensures !Before(entries, s[j], s[i]) {
        if i < p && j < p {
          assert s[i] == results[i] && s[j] == results[j];
        } else if i > p {
          assert s[i] == results[i - 1] && s[j] == results[j - 1];
        } else if i < p < j {
          assert s[i] == results[i] && s[j] == results[j - 1];
        }
      }
    }
  }

  /** A list that holds every match has none left out. */
  lemma {:induction false} AllKept(all: seq<SearchResult>, results: seq<SearchResult>)
    requires |results| == |all| && (forall i :: 0 <= i < |results| ==> results[i] in all)
    requires forall i, j :: 0 <= i < j < |results| ==> results[i] != results[j]
    requires forall i, j :: 0 <= i < j < |all| ==> all[i].index < all[j].index
    ensures forall r :: r in all ==> r in results
  {
    var kept, every := set r | r in results, set r | r in all;
    SetOfDistinct(results);
    SetOfDistinct(all);
    assert kept <= every && |kept| == |every|;
    assert every == kept + (every - kept);
    assert |every - kept| == 0;
    forall r | r in all ensures r in results {
      assert r in every;
    }
  }

  lemma {:induction false} SetOfDistinct<T>(s: seq<T>)
    requires forall i, j :: 0 <= i < j < |s| ==> s[i] != s[j]
    ensures |set x | x in s| == |s|
  {
    if s != [] {
      var n := |s| - 1;
      SetOfDistinct(s[..n]);
      assert (set x | x in s) == (set x | x in s[..n]) + {s[n]};
      assert s[n] !in s[..n];
    }
  }

  lemma {:induction false} InsertKeepsTop(entries: seq<Entry>, all: seq<SearchResult>, results: seq<SearchResult>, x: SearchResult, p: nat, bound: nat)
    requires TopRanked(entries, all, results, bound) && FitsAt(entries, results, x, p) && x !in all
    requires forall i, j :: 0 <= i < j < |all| ==> all[i].index < all[j].index
    ensures TopRanked(entries, all + [x], Take(results[..p] + [x] + results[p..], bound), bound)
  {
    var s := results[..p] + [x] + results[p..];
    var kept := Take(s, bound);
    InsertedRanked(entries, results, x, p);
    InsertedMembers(results, x, p);
    if |s| <= bound {
      AllKept(all, results);
    } else {
      forall r, i | r in all + [x] && r !in kept && 0 <= i < |kept|
        ensures !Before(entries, r, kept[i])
      {
        DroppedRanksAfter(entries, all, results, x, p, bound, r, i);
      }
    }
  }

  lemma {:induction false} InsertedMembers(results: seq<SearchResult>, x: SearchResult, p: nat)
    requires p <= |results| && x !in results
    requires forall i, j :: 0 <= i < j < |results| ==> results[i] != results[j]
    ensures var s := results[..p] + [x] + results[p..];
      && (forall r :: r in s <==> r in results || r == x)
      && (forall i, j :: 0 <= i < j < |s| ==> s[i] != s[j])
  {
    var s := results[..p] + [x] + results[p..];
    assert results == results[..p] + results[p..];
    forall i, j | 0 <= i < j < |s| ensures s[i] != s[j] {
      var i', j' := if i < p then i else i - 1, if j < p then j else j - 1;
      assert i != p ==> s[i] == results[i'];
      assert j != p ==> s[j] == results[j'];
    }
  }

  lemma {:induction false} DroppedRanksAfter(entries: seq<Entry>, all: seq<SearchResult>, results: seq<SearchResult>, x: SearchResult, p: nat, bound: nat, r: SearchResult, i: nat)
    requires TopRanked(entries, all, results, bound) && FitsAt(entries, results, x, p)
    requires |results| + 1 > bound && i < bound
    requires r in all || r == x
    requires var s := results[..p] + [x] + results[p..]; r !in s[..bound] && Ranked(entries, s)
    ensures !Before(entries, r, (results[..p] + [x] + results[p..])[i])
  {
    var s := results[..p] + [x] + results[p..];
    assert |results| == bound && |s| == bound + 1;
    if r == x {
      assert s[p] == x;
      assert p == bound;
    }
    if r == s[bound] {
      assert !Before(entries, s[bound], s[i]);
    } else {
      OldOmitted(results, x, p, bound, r);
      if s[i] == x {
        var d := s[bound];
        assert d == results[bound - 1] || d == x;
        assert !Before(entries, r, results[bound - 1]);
        if d != x {
          BeforeTransitive(entries, x, d, r);
        }
      } else {
        var i' := if i < p then i else i - 1;
        assert s[i] == results[i'];
      }
    }
  }

  lemma {:induction false} OldOmitted(results: seq<SearchResult>, x: SearchResult, p: nat, bound: nat, r: SearchResult)
    requires p <= |results| == bound && r != x
    requires var s := results[..p] + [x] + results[p..]; r !in s[..bound] && r != s[bound]
    ensures r !in results
  {
    var s := results[..p] + [x] + results[p..];
    forall k | 0 <= k < |results| ensures results[k] != r {
      var k' := if k < p then k else k + 1;
      assert results[k] == s[k'];
      assert k' < bound ==> s[k'] in s[..bound];
    }
  }

  /** For every catalog, repeated ids included, and whatever equal element the search finds: the
      incremental answer holds the top-ranked matches. */
  lemma {:induction false} AnswerIsTopRanked(search: Search, entries: seq<Entry>, score: Scorer, bound: nat, n: nat)
    requires IsSearch(search) && n <= |entries|
    ensures TopRanked(entries, Matches(entries, score, n), AnswerUpTo(search, entries, score, bound, n), bound)
  {
    if n > 0 {
      AnswerIsTopRanked(search, entries, score, bound, n - 1);
      if score(entries[n - 1]) == 0 {
        assert Matches(entries, score, n) == Matches(entries, score, n - 1);
      } else {
        var x := SearchResult(n - 1, score(entries[n - 1]));
        MatchesIncrease(entries, score, n - 1);
        TopStep(search, entries, Matches(entries, score, n - 1), AnswerUpTo(search, entries, score, bound, n - 1), x, bound);
      }
    }
  }

  lemma {:induction false} TopStep(search: Search, entries: seq<Entry>, all: seq<SearchResult>, results: seq<SearchResult>, x: SearchResult, bound: nat)
    requires IsSearch(search) && TopRanked(entries, all, results, bound) && Increasing(all, x.index)
    ensures TopRanked(entries, all + [x], InsertRanked(search, entries, results, x, bound), bound)
  {
    var p := search(entries, results, x);
    assert FitsAt(entries, results, x, p);
    InsertKeepsTop(entries, all, results, x, p, bound);
  }

  /** With distinct ids nothing is equal, and the answer is sort-then-take. */
  lemma {:induction false} AnswerIsBest(search: Search, entries: seq<Entry>, score: Scorer, bound: nat, n: nat)
    requires IsSearch(search) && DistinctIds(entries) && n <= |entries|
    ensures AnswerUpTo(search, entries, score, bound, n) == Take(Sort(Ranking(entries), Matches(entries, score, n)), bound)
  {
    if n > 0 {
      AnswerIsBest(search, entries, score, bound, n - 1);
      if score(entries[n - 1]) == 0 {
        assert Matches(entries, score, n) == Matches(entries, score, n - 1);
      } else {
        BestWithOneMore(search, entries, score, bound, n);
      }
    }
  }

  lemma {:induction false} BestWithOneMore(search: Search, entries: seq<Entry>, score: Scorer, bound: nat, n: nat)
    requires IsSearch(search) && DistinctIds(entries) && 0 < n <= |entries| && score(entries[n - 1]) != 0
    requires AnswerUpTo(search, entries, score, bound, n - 1) == Take(Sort(Ranking(entries), Matches(entries, score, n - 1)), bound)
    ensures AnswerUpTo(search, entries, score, bound, n) == Take(Sort(Ranking(entries), Matches(entries, score, n)), bound)
  {
    var x := SearchResult(n - 1, score(entries[n - 1]));
    assert Ranked(entries, AnswerUpTo(search, entries, score, bound, n - 1)) by {
      AnswerIsTopRanked(search, entries, score, bound, n - 1);
    }
    MatchesIncrease(entries, score, n - 1);
    BestStep(search, entries, Matches(entries, score, n - 1), AnswerUpTo(search, entries, score, bound, n - 1), x, bound);
  }

  lemma {:induction false} BestStep(search: Search, entries: seq<Entry>, before: seq<SearchResult>, results: seq<SearchResult>, x: SearchResult, bound: nat)
    requires IsSearch(search) && DistinctIds(entries) && Ranked(entries, results) && x.index < |entries|
    requires results == Take(Sort(Ranking(entries), before), bound) && Increasing(before, x.index)
    ensures InsertRanked(search, entries, results, x, bound) == Take(Sort(Ranking(entries), before + [x]), bound)
  {
    TakeOfSorted(entries, before, bound);
    SortSnoc(entries, before, x);
    BoundedInsert(Ranking(entries), x, Sort(Ranking(entries), before), bound);
    InsertIsUnique(search, entries, results, x);
  }

  lemma {:induction false} InsertIsUnique(search: Search, entries: seq<Entry>, results: seq<SearchResult>, x: SearchResult)
    requires IsSearch(search) && DistinctIds(entries) && Ranked(entries, results) && x.index < |entries|
    requires forall r :: r in results ==> r.index < x.index
    ensures var p := search(entries, results, x);
      p <= |results| && results[..p] + [x] + results[p..] == Insert(Ranking(entries), x, results)
  {
    var p := search(entries, results, x);
    assert FitsAt(entries, results, x, p);
    RankingIsTotalOrder(entries);
    forall i | 0 <= i < |results|
      ensures Before(entries, results[i], x) <==> !Ranking(entries)(x, results[i])
      ensures Before(entries, x, results[i]) <==> Ranking(entries)(x, results[i])
    {
      assert results[i] in results;
      DistinctIdsCompare(entries, results[i], x);
      DistinctIdsCompare(entries, x, results[i]);
    }
    InsertAt(Ranking(entries), x, results, p);
  }

  lemma {:induction false} TakeOfSorted(entries: seq<Entry>, s: seq<SearchResult>, k: nat)
    ensures Sorted(Ranking(entries), Take(Sort(Ranking(entries), s), k))
    ensures forall r :: r in Take(Sort(Ranking(entries), s), k) ==> r in s
    ensures |Take(Sort(Ranking(entries), s), k)| <= k
  {
    SortMembers(entries, s);
  }

  /** The answer to a query, entry by entry: every result is an entry that matches, with its score, and no
      entry twice; results stand by score, then name, then id; there are as many as fit; and no matching
      entry is left out that ranks before one that is kept. */
  ghost predicate Answers(entries: seq<Entry>, query: string, bound: nat, results: seq<SearchResult>) {
    && (forall i :: 0 <= i < |results| ==> results[i].index < |entries| && results[i].score == EntryScore(entries[results[i].index], query) != 0)
    && (forall i, j :: 0 <= i < j < |results| ==> results[i].index != results[j].index && NoLater(entries, results[i], results[j]))
    && |results| <= bound
    && (forall k :: 0 <= k < |entries| && EntryScore(entries[k], query) != 0 && !Holds(results, k) ==>
          |results| == bound && forall i :: 0 <= i < |results| ==> NoLater(entries, results[i], SearchResult(k, EntryScore(entries[k], query))))
  }

  ghost predicate Holds(results: seq<SearchResult>, k: nat) {
    exists i :: 0 <= i < |results| && results[i].index == k
  }

  lemma {:induction false} TopRankedAnswers(entries: seq<Entry>, query: string, bound: nat, results: seq<SearchResult>)
    requires TopRanked(entries, Matches(entries, ScorerOf(query), |entries|), results, bound)
    ensures Answers(entries, query, bound, results)
  {
    var score := ScorerOf(query);
    var all := Matches(entries, score, |entries|);
    MatchesInCatalog(entries, score, |entries|);
    forall i, j | 0 <= i < j < |results| ensures results[i].index != results[j].index && NoLater(entries, results[i], results[j]) {
      assert results[i] in all && results[j] in all;
      NoLaterMeans(entries, results[i], results[j]);
    }
    forall k | 0 <= k < |entries| && EntryScore(entries[k], query) != 0 && !Holds(results, k)
      ensures |results| == bound && forall i :: 0 <= i < |results| ==> NoLater(entries, results[i], SearchResult(k, EntryScore(entries[k], query)))
    {
      LeftOutRanksAfter(entries, query, bound, results, k);
    }
  }

  lemma {:induction false} LeftOutRanksAfter(entries: seq<Entry>, query: string, bound: nat, results: seq<SearchResult>, k: nat)
    requires TopRanked(entries, Matches(entries, ScorerOf(query), |entries|), results, bound)
    requires k < |entries| && EntryScore(entries[k], query) != 0 && !Holds(results, k)
    ensures |results| == bound && forall i :: 0 <= i < |results| ==> NoLater(entries, results[i], SearchResult(k, EntryScore(entries[k], query)))
  {
    var score := ScorerOf(query);
    var all, x := Matches(entries, score, |entries|), SearchResult(k, EntryScore(entries[k], query));
    MatchesInCatalog(entries, score, |entries|);
    EveryMatchListed(entries, score, |entries|, k);
    assert x in all && x !in results;
    if |results| == |all| {
      AllKept(all, results);
    }
    forall i | 0 <= i < |results| ensures NoLater(entries, results[i], x) {
      assert results[i] in all;
      NoLaterMeans(entries, results[i], x);
    }
  }

  /** For every catalog, repeated ids included, the launcher's answer; for distinct ids it is
      sort-then-take. */
  method Query(search: Search, entries: seq<Entry>, query: string, limit: nat) returns (results: seq<SearchResult>)
    requires IsSearch(search)
    ensures results == Answer(search, entries, query, limit)
    ensures Answers(entries, query, if limit < 64 then limit else 64, results)
    ensures DistinctIds(entries) ==> results == Best(entries, query, limit)
  {
    AnswerMeans(search, entries, query, limit);
    results := QueryInto(search, entries, query, limit);
  }

  method QueryInto(search: Search, entries: seq<Entry>, query: string, limit: nat) returns (results: seq<SearchResult>)
    ensures results == Answer(search, entries, query, limit)
  {
    results := [];
    var bound := Min(limit, MAX_QUERY_RESULTS);
    if bound == 0 {
      AnswerFits(search, entries, ScorerOf(query), bound, |entries|);
      return;
    }
    for index := 0 to |entries|
      invariant results == AnswerUpTo(search, entries, ScorerOf(query), bound, index)
    {
      var score := EntryScore(entries[index], query);
      if score == 0 {
        continue;
      }
      AnswerFits(search, entries, ScorerOf(query), bound, index);
      results := InsertResult(search, entries, results, SearchResult(index, score), bound);
    }
  }

  method InsertResult(search: Search, entries: seq<Entry>, results: seq<SearchResult>, candidate: SearchResult, limit: nat)
    returns (results': seq<SearchResult>)
    requires |results| <= limit
    ensures results' == InsertRanked(search, entries, results, candidate, limit)
  {
    var position := Min(search(entries, results, candidate), |results|);
    results' := results[..position] + [candidate] + results[position..];
    if |results'| > limit {
      results' := results'[..|results'| - 1];
    }
  }

  lemma {:induction false} AnswerFits(search: Search, entries: seq<Entry>, score: Scorer, bound: nat, n: nat)
    requires n <= |entries|
    ensures |AnswerUpTo(search, entries, score, bound, n)| <= bound
  {
    if n > 0 {
      AnswerFits(search, entries, score, bound, n - 1);
    }
  }

  lemma {:induction false} AnswerMeans(search: Search, entries: seq<Entry>, query: string, limit: nat)
    requires IsSearch(search)
    ensures Answers(entries, query, if limit < 64 then limit else 64, Answer(search, entries, query, limit))
    ensures DistinctIds(entries) ==> Answer(search, entries, query, limit) == Best(entries, query, limit)
  {
    var bound := Min(limit, MAX_QUERY_RESULTS);
    AnswerIsTopRanked(search, entries, ScorerOf(query), bound, |entries|);
    TopRankedAnswers(entries, query, bound, Answer(search, entries, query, limit));
    if DistinctIds(entries) {
      AnswerIsBest(search, entries, ScorerOf(query), bound, |entries|);
    }
  }

  /** One search that meets the contract: the first element that the candidate precedes. */
  function FirstAfter(entries: seq<Entry>, results: seq<SearchResult>, candidate: SearchResult): nat {
    if results == [] || Before(entries, candidate, results[0]) then 0 else 1 + FirstAfter(entries, results[1..], candidate)
  }

  lemma {:induction false} FirstAfterFits(entries: seq<Entry>, results: seq<SearchResult>, candidate: SearchResult)
    requires Ranked(entries, results)
    ensures FitsAt(entries, results, candidate, FirstAfter(entries, results, candidate))
  {
    if results == [] {
    } else if Before(entries, candidate, results[0]) {
      forall i | 0 <= i < |results| ensures !Before(entries, results[i], candidate) {
        BeforeAsymmetric(entries, candidate, results[0]);
        if i > 0 {
          BeforeTransitive(entries, candidate, results[0], results[i]);
        }
      }
    } else {
      FirstAfterFits(entries, results[1..], candidate);
      var p := FirstAfter(entries, results[1..], candidate);
      forall i | 0 <= i < |results| ensures if i < p + 1 then !Before(entries, candidate, results[i]) else !Before(entries, results[i], candidate) {
        assert i > 0 ==> results[i] == results[1..][i - 1];
      }
    }
  }

  function LinearSearch(): Search {
    (entries, results, candidate) => FirstAfter(entries, results, candidate)
  }

  lemma {:induction false} LinearSearchIsSearch()
    ensures IsSearch(LinearSearch())
  {
    forall entries, results, candidate | Ranked(entries, results)
      ensures FitsAt(entries, results, candidate, LinearSearch()(entries, results, candidate))
    {
      FirstAfterFits(entries, results, candidate);
    }
  }

  /** Sort-then-take is the answer to a query, entry by entry. */
  lemma {:induction false} BestAnswers(entries: seq<Entry>, query: string, limit: nat)
    requires DistinctIds(entries)
    ensures Answers(entries, query, if limit < 64 then limit else 64, Best(entries, query, limit))
  {
    LinearSearchIsSearch();
    AnswerMeans(LinearSearch(), entries, query, limit);
  }

  /** The first `n` entries of the catalog, each with score one. */
  function Listing(n: nat): (r: seq<SearchResult>)
    ensures |r| == n && forall i :: 0 <= i < n ==> r[i] == SearchResult(i, 1)
  {
    if n == 0 then [] else Listing(n - 1) + [SearchResult(n - 1, 1)]
  }

  lemma {:induction false} EverythingMatchesNothing(entries: seq<Entry>, n: nat)
    requires n <= |entries|
    ensures Matches(entries, ScorerOf([]), n) == Listing(n)
  {
    if n > 0 {
      EverythingMatchesNothing(entries, n - 1);
    }
  }

  /** An empty query answers with the catalog itself, in its own order, as far as the limit allows. */
  lemma {:induction false} EmptyQueryListsCatalog(entries: seq<Entry>, limit: nat)
    requires forall i, j :: 0 <= i < j < |entries| ==> NoLater(entries, SearchResult(i, 1), SearchResult(j, 1))
    ensures
      var shown := Best(entries, [], limit);
      && |shown| == (if |entries| <= limit && |entries| <= 64 then |entries| else if limit <= 64 then limit else 64)
      && forall i :: 0 <= i < |shown| ==> shown[i] == SearchResult(i, 1)
  {
    EverythingMatchesNothing(entries, |entries|);
    ListingIsSorted(entries);
  }

  lemma {:induction false} ListingIsSorted(entries: seq<Entry>)
    requires forall i, j :: 0 <= i < j < |entries| ==> NoLater(entries, SearchResult(i, 1), SearchResult(j, 1))
    ensures Sort(Ranking(entries), Listing(|entries|)) == Listing(|entries|)
  {
    var all, leq := Listing(|entries|), Ranking(entries);
    RankingIsTotalOrder(entries);
    SortSorts(leq, all);
    forall i, j | 0 <= i < j < |all| ensures leq(all[i], all[j]) {
      NoLaterMeans(entries, SearchResult(i, 1), SearchResult(j, 1));
    }
    SortedUnique(leq, Sort(leq, all), all);
  }
}
