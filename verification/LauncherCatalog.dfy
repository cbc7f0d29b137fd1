/** Discovery of the launcher catalog: the first file found for an id decides, whatever it says. */
module LauncherCatalog {
  import opened Sorting
  import opened LauncherScore
  import opened LauncherQuery

  /** What reading and parsing a desktop file yields: an entry, a deliberate omission, or an error. */
  datatype Parsed = Shown(name: string, search: string) | Omitted | Broken(message: string)
  datatype File = File(id: string, parsed: Parsed)
  datatype Catalog = Found(entries: seq<Entry>) | EntryLimit(limit: nat)

  /** By name, then id. */
  predicate CatalogLeq(a: Entry, b: Entry) {
    if a.name != b.name then TextLeq(a.name, b.name) else TextLeq(a.id, b.id)
  }

  function CatalogOrder(): Order<Entry> {
    (a, b) => CatalogLeq(a, b)
  }

  lemma {:induction false} CatalogOrderIsTotal()
    ensures IsTotalPreorder(CatalogOrder())
  {
    forall a: Entry, b: Entry
      ensures CatalogLeq(a, b) || CatalogLeq(b, a)
    {
      TextTotal(a.name, b.name);
      TextTotal(a.id, b.id);
    }
    forall a: Entry, b: Entry, c: Entry | CatalogLeq(a, b) && CatalogLeq(b, c)
      ensures CatalogLeq(a, c)
    {
      CatalogLeqTransitive(a, b, c);
    }
  }

  lemma {:induction false} CatalogLeqTransitive(a: Entry, b: Entry, c: Entry)
    requires CatalogLeq(a, b) && CatalogLeq(b, c)
    ensures CatalogLeq(a, c)
  {
    if a.name != b.name || b.name != c.name {
      TextTotal(a.name, b.name);
      TextTotal(b.name, c.name);
      TextTransitive(a.name, b.name, c.name);
    } else {
      TextTransitive(a.id, b.id, c.id);
    }
  }

  /** An earlier name, or the same name and no later id. */
  ghost predicate NameIdNoLater(a: Entry, b: Entry) {
    TextBefore(a.name, b.name) || (a.name == b.name && (a.id == b.id || TextBefore(a.id, b.id)))
  }

  lemma {:induction false} SortedByNameAndId(entries: seq<Entry>)
    requires Sorted(CatalogOrder(), entries)
    ensures forall i, j :: 0 <= i < j < |entries| ==> NameIdNoLater(entries[i], entries[j])
  {
    forall i, j | 0 <= i < j < |entries| ensures NameIdNoLater(entries[i], entries[j]) {
      assert CatalogOrder()(entries[i], entries[j]);
      TextLeqMeans(entries[i].name, entries[j].name);
      TextLeqMeans(entries[i].id, entries[j].id);
    }
  }

  /** The entries that compare equal to those with this name and id. */
  function SameKey(name: string, id: string): Entry -> bool {
    (e: Entry) => e.name == name && e.id == id
  }

  // ---------------------------------------------------------------- What discovery means

  function Files(roots: seq<seq<File>>): seq<File> {
    if roots == [] then [] else Files(roots[..|roots| - 1]) + roots[|roots| - 1]
  }

  function Ids(files: seq<File>): set<string> {
    set f | f in files :: f.id
  }

  /** No file before position `i` has its id: earlier roots, then earlier files, win. */
  predicate First(files: seq<File>, i: nat)
    requires i < |files|
  {
    forall j :: 0 <= j < i ==> files[j].id != files[i].id
  }

  function EntryOf(f: File): Entry
    requires f.parsed.Shown?
  {
    Entry(f.id, f.parsed.name, f.parsed.search)
  }

  /** `e` is the entry of the first file with its id. A first file that is hidden or broken masks every
      later one with the same id. */
  ghost predicate Listed(files: seq<File>, e: Entry) {
    exists i :: 0 <= i < |files| && First(files, i) && files[i].parsed.Shown?
      && e == Entry(files[i].id, files[i].parsed.name, files[i].parsed.search)
  }

  lemma {:induction false} FirstInPrefix(files: seq<File>, f: File, i: nat)
    requires i < |files|
    ensures First(files + [f], i) <==> First(files, i)
  {
    assert forall j :: 0 <= j < |files| ==> (files + [f])[j] == files[j];
  }

  lemma {:induction false} ListedSnoc(files: seq<File>, f: File, e: Entry)
    ensures Listed(files + [f], e) <==>
      Listed(files, e) || (f.id !in Ids(files) && f.parsed.Shown? && e == EntryOf(f))
  {
    var more := files + [f];
    assert First(more, |files|) <==> f.id !in Ids(files) by {
      forall j | 0 <= j < |files| ensures more[j] == files[j] && files[j].id in Ids(files) {
      }
    }
    if Listed(files, e) {
      var i :| 0 <= i < |files| && First(files, i) && files[i].parsed.Shown?
        && e == Entry(files[i].id, files[i].parsed.name, files[i].parsed.search);
      FirstInPrefix(files, f, i);
      assert more[i] == files[i];
    }
    if Listed(more, e) {
      var i :| 0 <= i < |more| && First(more, i) && more[i].parsed.Shown?
        && e == Entry(more[i].id, more[i].parsed.name, more[i].parsed.search);
      if i < |files| {
        FirstInPrefix(files, f, i);
        assert more[i] == files[i];
      }
    }
  }

  lemma {:induction false} IdsSnoc(files: seq<File>, f: File)
    ensures Ids(files + [f]) == Ids(files) + {f.id}
  {
    assert forall g :: g in files + [f] <==> g in files || g == f;
  }

  // ---------------------------------------------------------------- The discovery loop

  ghost predicate Collected(files: seq<File>, byId: map<string, Entry>, seen: set<string>) {
    && seen == Ids(files)
    && (forall id :: id in byId ==> byId[id].id == id && id in seen)
    && (forall e :: Listed(files, e) <==> e.id in byId && byId[e.id] == e)
  }

  lemma {:induction false} CollectedSnoc(files: seq<File>, byId: map<string, Entry>, seen: set<string>, f: File)
    requires Collected(files, byId, seen)
    ensures
      var byId' := if f.id !in seen && f.parsed.Shown? then byId[f.id := EntryOf(f)] else byId;
      Collected(files + [f], byId', seen + {f.id})
  {
    IdsSnoc(files, f);
    var byId' := if f.id !in seen && f.parsed.Shown? then byId[f.id := EntryOf(f)] else byId;
    forall e
      ensures Listed(files + [f], e) <==> e.id in byId' && byId'[e.id] == e
    {
      ListedSnoc(files, f, e);
    }
  }

  /** For every list of application directories: the catalog holds exactly the entries of the first
      file of each id, each id once, sorted by name and id; it is refused exactly when there are more
      distinct ids, shown or not, than allowed. */
  method Discover(roots: seq<seq<File>>, maxEntries: nat) returns (r: Catalog)
    ensures r == EntryLimit(maxEntries) <==> |Ids(Files(roots))| > maxEntries
    ensures r.EntryLimit? ==> r.limit == maxEntries
    ensures r.Found? ==>
      && DistinctIds(r.entries) && (forall i, j :: 0 <= i < j < |r.entries| ==> NameIdNoLater(r.entries[i], r.entries[j]))
      && forall e :: e in r.entries <==> Listed(Files(roots), e)
  {
    var byId: map<string, Entry> := map[];
    var seen: set<string> := {};
    for n := 0 to |roots|
      invariant Collected(Files(roots[..n]), byId, seen) && |seen| <= maxEntries
    {
      assert roots[..n + 1][..n] == roots[..n];
      ghost var before := Files(roots[..n]);
      assert before + roots[n][..0] == before;
      for k := 0 to |roots[n]|
        invariant Collected(before + roots[n][..k], byId, seen) && |seen| <= maxEntries
      {
        var f := roots[n][k];
        assert before + roots[n][..k + 1] == before + roots[n][..k] + [f];
        CollectedSnoc(before + roots[n][..k], byId, seen, f);
        if f.id in seen {
          assert seen + {f.id} == seen;
          continue;
        }
        seen := seen + {f.id};
        if |seen| > maxEntries {
          IdsOfPrefix(roots, n, k + 1);
          return EntryLimit(maxEntries);
        }
        if f.parsed.Shown? {
          byId := byId[f.id := EntryOf(f)];
        }
      }
      assert before + roots[n][..|roots[n]|] == Files(roots[..n + 1]);
    }
    assert roots[..|roots|] == roots;
    var entries := Values(byId);
    return Found(FromEntries(entries));
  }

  lemma {:induction false} IdsOfPrefix(roots: seq<seq<File>>, n: nat, k: nat)
    requires n < |roots| && k <= |roots[n]|
    ensures Ids(Files(roots[..n]) + roots[n][..k]) <= Ids(Files(roots))
    ensures |Ids(Files(roots[..n]) + roots[n][..k])| <= |Ids(Files(roots))|
  {
    FilesOfPrefix(roots, n + 1);
    assert roots[..n + 1][..n] == roots[..n];
    assert forall f :: f in Files(roots[..n]) + roots[n][..k] ==> f in Files(roots[..n + 1]);
    SubsetSize(Ids(Files(roots[..n]) + roots[n][..k]), Ids(Files(roots)));
  }

  lemma {:induction false} FilesOfPrefix(roots: seq<seq<File>>, n: nat)
    requires n <= |roots|
    ensures forall f :: f in Files(roots[..n]) ==> f in Files(roots)
  {
    if n < |roots| {
      var front := roots[..|roots| - 1];
      FilesOfPrefix(front, n);
      assert front[..n] == roots[..n];
    } else {
      assert roots[..n] == roots;
    }
  }

  lemma {:induction false} SubsetSize<T>(a: set<T>, b: set<T>)
    requires a <= b
    ensures |a| <= |b|
  {
    assert b == a + (b - a);
  }

  /** The values of the map, one for each id, in some order. */
  method Values(byId: map<string, Entry>) returns (entries: seq<Entry>)
    requires forall id :: id in byId ==> byId[id].id == id
    ensures DistinctIds(entries) && forall e :: e in entries <==> e.id in byId && byId[e.id] == e
  {
    entries := [];
    var left := byId;
    while left != map[]
      invariant left.Keys <= byId.Keys && forall id :: id in left ==> left[id] == byId[id]
      invariant DistinctIds(entries)
      invariant forall e :: e in entries <==> e.id in byId && e.id !in left && byId[e.id] == e
      decreases |left|
    {
      var id :| id in left;
      entries := entries + [left[id]];
      left := left - {id};
    }
  }

  /** `from_entries`: the same entries in catalog order; entries with equal name and id keep theirs. */
  function FromEntries(entries: seq<Entry>): (r: seq<Entry>)
    ensures (forall i, j :: 0 <= i < j < |r| ==> NameIdNoLater(r[i], r[j])) && multiset(r) == multiset(entries)
    ensures forall e :: e in r <==> e in entries
    ensures DistinctIds(entries) ==> DistinctIds(r)
    ensures forall name, id :: Filter(SameKey(name, id), r) == Filter(SameKey(name, id), entries)
  {
    CatalogOrderIsTotal();
    SortSorts(CatalogOrder(), entries);
    SortKeepsIds(entries);
    EqualKeysKeepOrder(entries);
    SortedByNameAndId(Sort(CatalogOrder(), entries));
    Sort(CatalogOrder(), entries)
  }

  lemma {:induction false} EqualKeysKeepOrder(entries: seq<Entry>)
    ensures forall name, id :: Filter(SameKey(name, id), Sort(CatalogOrder(), entries)) == Filter(SameKey(name, id), entries)
  {
    forall name, id ensures Filter(SameKey(name, id), Sort(CatalogOrder(), entries)) == Filter(SameKey(name, id), entries) {
      TextTotal(id, id);
      SortIsStable(CatalogOrder(), entries, SameKey(name, id));
    }
  }

  lemma {:induction false} SortKeepsIds(entries: seq<Entry>)
    ensures var r := Sort(CatalogOrder(), entries);
      (forall e :: e in r <==> e in entries) && (DistinctIds(entries) ==> DistinctIds(r))
  {
    var r := Sort(CatalogOrder(), entries);
    CatalogOrderIsTotal();
    SortSorts(CatalogOrder(), entries);
    forall e ensures e in r <==> e in entries {
      assert e in r <==> e in multiset(r);
      assert e in entries <==> e in multiset(entries);
    }
    if DistinctIds(entries) {
      forall i, j | 0 <= i < j < |r| ensures r[i].id != r[j].id {
        if r[i].id == r[j].id {
          assert r[i] in entries && r[j] in entries;
          TwiceInMultiset(r, i, j);
          OnceAmongDistinct(entries, r[i]);
        }
      }
    }
  }

  lemma {:induction false} OnceAmongDistinct(entries: seq<Entry>, e: Entry)
    requires DistinctIds(entries)
    ensures multiset(entries)[e] <= 1
  {
    if entries != [] {
      var n := |entries| - 1;
      OnceAmongDistinct(entries[..n], e);
      assert entries == entries[..n] + [entries[n]];
      assert entries[n] !in entries[..n];
    }
  }
}
