/** Boolean masks, 8-connectivity and connected components, stated with no reference to
    the run-based algorithm that computes their areas. */
module PixelGrid {
  type Mask = seq<seq<bool>>

  datatype Pixel = Pixel(y: int, x: int)

  predicate IsSet(mask: Mask, p: Pixel) {
    0 <= p.y < |mask| && 0 <= p.x < |mask[p.y]| && mask[p.y][p.x]
  }

  predicate Adjacent(p: Pixel, q: Pixel) {
    p != q && -1 <= p.y - q.y <= 1 && -1 <= p.x - q.x <= 1
  }

  ghost function Pixels(mask: Mask): set<Pixel> {
    set y, x | 0 <= y < |mask| && 0 <= x < |mask[y]| && mask[y][x] :: Pixel(y, x)
  }

  ghost predicate IsPath(mask: Mask, path: seq<Pixel>) {
    && |path| > 0
    && (forall i :: 0 <= i < |path| ==> IsSet(mask, path[i]))
    && (forall i :: 0 < i < |path| ==> Adjacent(path[i - 1], path[i]))
  }

  /** `p` and `q` are joined by a walk over set, pairwise 8-adjacent pixels. */
  ghost predicate Connected(mask: Mask, p: Pixel, q: Pixel) {
    exists path :: IsPath(mask, path) && path[0] == p && path[|path| - 1] == q
  }

  ghost function Component(mask: Mask, p: Pixel): set<Pixel> {
    set q | q in Pixels(mask) && Connected(mask, p, q)
  }

  ghost function Components(mask: Mask): set<set<Pixel>> {
    set p | p in Pixels(mask) :: Component(mask, p)
  }

  /** `areas` lists the size of every component of `mask`, each component exactly once. */
  ghost predicate AreComponentAreas(mask: Mask, areas: seq<nat>) {
    exists components: seq<set<Pixel>> :: Enumerates(components, Components(mask)) && Sizes(components) == areas
  }

  ghost predicate Enumerates<T>(list: seq<T>, elements: set<T>) {
    && (forall i, j :: 0 <= i < j < |list| ==> list[i] != list[j])
    && (forall i :: 0 <= i < |list| ==> list[i] in elements)
    && (forall e :: e in elements ==> e in list)
  }

  ghost function Sizes<T>(sets: seq<set<T>>): seq<nat> {
    seq(|sets|, i requires 0 <= i < |sets| => |sets[i]|)
  }

  // ---------------------------------------------------------------- Connectivity is an equivalence

  lemma ConnectedToSelf(mask: Mask, p: Pixel)
    requires IsSet(mask, p)
    ensures Connected(mask, p, p)
  {
    assert IsPath(mask, [p]);
  }

  lemma ConnectedNeighbours(mask: Mask, p: Pixel, q: Pixel)
    requires IsSet(mask, p) && IsSet(mask, q) && Adjacent(p, q)
    ensures Connected(mask, p, q)
  {
    assert IsPath(mask, [p, q]);
  }

  lemma ConnectedSymmetric(mask: Mask, p: Pixel, q: Pixel)
    requires Connected(mask, p, q)
    ensures Connected(mask, q, p)
  {
    var path :| IsPath(mask, path) && path[0] == p && path[|path| - 1] == q;
    var back := seq(|path|, i requires 0 <= i < |path| => path[|path| - 1 - i]);
    assert IsPath(mask, back);
  }

  lemma ConnectedTransitive(mask: Mask, p: Pixel, q: Pixel, r: Pixel)
    requires Connected(mask, p, q) && Connected(mask, q, r)
    ensures Connected(mask, p, r)
  {
    var front :| IsPath(mask, front) && front[0] == p && front[|front| - 1] == q;
    var back :| IsPath(mask, back) && back[0] == q && back[|back| - 1] == r;
    var path := front + back[1..];
    assert IsPath(mask, path) && path[0] == p && path[|path| - 1] == r;
  }

  lemma {:induction false} ConnectedAlongRow(mask: Mask, y: int, x: int, x': int)
    requires x <= x' && forall i :: x <= i <= x' ==> IsSet(mask, Pixel(y, i))
    ensures Connected(mask, Pixel(y, x), Pixel(y, x'))
    decreases x' - x
  {
    assert IsSet(mask, Pixel(y, x));
    if x == x' {
      ConnectedToSelf(mask, Pixel(y, x));
    } else {
      assert IsSet(mask, Pixel(y, x + 1));
      ConnectedNeighbours(mask, Pixel(y, x), Pixel(y, x + 1));
      ConnectedAlongRow(mask, y, x + 1, x');
      ConnectedTransitive(mask, Pixel(y, x), Pixel(y, x + 1), Pixel(y, x'));
    }
  }

  // ---------------------------------------------------------------- Labellings that are components

  /** Neighbouring labelled pixels carry the same tag. */
  ghost predicate ClosedUnderAdjacency(tag: map<Pixel, nat>) {
    forall p, q :: p in tag && q in tag && Adjacent(p, q) ==> tag[p] == tag[q]
  }

  ghost predicate SameLabelConnected(mask: Mask, tag: map<Pixel, nat>) {
    forall p, q :: p in tag && q in tag && tag[p] == tag[q] ==> Connected(mask, p, q)
  }

  ghost function Block(tag: map<Pixel, nat>, l: nat): set<Pixel> {
    set p | p in tag && tag[p] == l
  }

  lemma {:induction false} LabelAlongPath(mask: Mask, tag: map<Pixel, nat>, path: seq<Pixel>, k: nat)
    requires ClosedUnderAdjacency(tag) && tag.Keys == Pixels(mask)
    requires IsPath(mask, path) && k < |path|
    ensures path[0] in tag && path[k] in tag && tag[path[k]] == tag[path[0]]
  {
    assert path[k] in Pixels(mask) && path[0] in Pixels(mask);
    if k > 0 {
      LabelAlongPath(mask, tag, path, k - 1);
      assert Adjacent(path[k - 1], path[k]);
    }
  }

  /** A labelling of all set pixels that is closed under adjacency and joins only connected
      pixels has exactly the connected components as its blocks. */
  lemma BlockIsComponent(mask: Mask, tag: map<Pixel, nat>, p: Pixel)
    requires ClosedUnderAdjacency(tag) && SameLabelConnected(mask, tag)
    requires tag.Keys == Pixels(mask) && p in tag
    ensures Block(tag, tag[p]) == Component(mask, p)
  {
    forall q | q in Component(mask, p)
      ensures q in Block(tag, tag[p])
    {
      var path :| IsPath(mask, path) && path[0] == p && path[|path| - 1] == q;
      LabelAlongPath(mask, tag, path, |path| - 1);
    }
  }

  // ---------------------------------------------------------------- Areas add up

  ghost function Sum(s: seq<nat>): nat {
    if s == [] then 0 else s[0] + Sum(s[1..])
  }

  ghost function UnionAll<T>(sets: seq<set<T>>): set<T> {
    if sets == [] then {} else sets[0] + UnionAll(sets[1..])
  }

  lemma {:induction false} UnionAllMembers<T>(sets: seq<set<T>>, e: T)
    ensures e in UnionAll(sets) <==> exists i :: 0 <= i < |sets| && e in sets[i]
  {
    if sets != [] {
      UnionAllMembers(sets[1..], e);
      if e in UnionAll(sets[1..]) {
        var i :| 0 <= i < |sets[1..]| && e in sets[1..][i];
        assert e in sets[i + 1];
      }
      if i :| 0 <= i < |sets| && e in sets[i] {
        assert i > 0 ==> e in sets[1..][i - 1];
      }
    }
  }

  lemma {:induction false} DisjointSizesAdd<T>(sets: seq<set<T>>)
    requires forall i, j :: 0 <= i < j < |sets| ==> sets[i] !! sets[j]
    ensures |UnionAll(sets)| == Sum(Sizes(sets))
  {
    if sets != [] {
      DisjointSizesAdd(sets[1..]);
      assert Sizes(sets)[1..] == Sizes(sets[1..]);
      forall e | e in sets[0]
        ensures e !in UnionAll(sets[1..])
      {
        UnionAllMembers(sets[1..], e);
      }
      assert sets[0] !! UnionAll(sets[1..]);
    }
  }

  lemma SharedPixelSharesComponent(mask: Mask, p: Pixel, q: Pixel, r: Pixel)
    requires p in Pixels(mask) && q in Pixels(mask)
    requires r in Component(mask, p) && r in Component(mask, q)
    ensures Component(mask, p) == Component(mask, q)
  {
    forall s | s in Pixels(mask)
      ensures Connected(mask, p, s) <==> Connected(mask, q, s)
    {
      ConnectedSymmetric(mask, p, r);
      ConnectedSymmetric(mask, q, r);
      ConnectedTransitive(mask, p, r, q);
      ConnectedSymmetric(mask, p, q);
      if Connected(mask, p, s) { ConnectedTransitive(mask, q, p, s); }
      if Connected(mask, q, s) { ConnectedTransitive(mask, p, q, s); }
    }
  }

  /** Any correct list of component areas accounts for every set pixel exactly once. */
  lemma ComponentAreasSumToPixels(mask: Mask, areas: seq<nat>)
    requires AreComponentAreas(mask, areas)
    ensures Sum(areas) == |Pixels(mask)|
  {
    var components: seq<set<Pixel>> :| Enumerates(components, Components(mask)) && Sizes(components) == areas;
    forall i, j | 0 <= i < j < |components|
      ensures components[i] !! components[j]
    {
      assert components[i] in Components(mask) && components[j] in Components(mask);
      var p :| p in Pixels(mask) && components[i] == Component(mask, p);
      var q :| q in Pixels(mask) && components[j] == Component(mask, q);
      forall r | r in components[i] && r in components[j]
        ensures false
      {
        SharedPixelSharesComponent(mask, p, q, r);
      }
    }
    DisjointSizesAdd(components);
    forall p
      ensures p in UnionAll(components) <==> p in Pixels(mask)
    {
      UnionAllMembers(components, p);
      if p in Pixels(mask) {
        ConnectedToSelf(mask, p);
        assert p in Component(mask, p) && Component(mask, p) in Components(mask);
        var i :| 0 <= i < |components| && components[i] == Component(mask, p);
      }
    }
    assert UnionAll(components) == Pixels(mask);
  }

  ghost function WithoutIndex<T>(list: seq<T>, j: nat): seq<T>
    requires j < |list|
  {
    list[..j] + list[j + 1..]
  }

  lemma WithoutIndexEnumerates<T>(list: seq<T>, elements: set<T>, j: nat)
    requires j < |list| && Enumerates(list, elements)
    ensures Enumerates(WithoutIndex(list, j), elements - {list[j]})
  {
    var rest := WithoutIndex(list, j);
    assert forall i :: 0 <= i < |rest| ==> rest[i] == list[if i < j then i else i + 1];
    forall e | e in elements - {list[j]}
      ensures e in rest
    {
      var i :| 0 <= i < |list| && list[i] == e;
      assert rest[if i < j then i else i - 1] == e;
    }
  }

  lemma WithoutIndexSizes<T>(list: seq<set<T>>, j: nat)
    requires j < |list|
    ensures multiset(Sizes(list)) == multiset{|list[j]|} + multiset(Sizes(WithoutIndex(list, j)))
  {
    var sizes := Sizes(list);
    assert sizes == sizes[..j] + [|list[j]|] + sizes[j + 1..];
    assert Sizes(WithoutIndex(list, j)) == sizes[..j] + sizes[j + 1..];
  }

  lemma {:induction false} EnumerationsHaveSameSizes<T>(left: seq<set<T>>, right: seq<set<T>>, elements: set<set<T>>)
    requires Enumerates(left, elements) && Enumerates(right, elements)
    ensures multiset(Sizes(left)) == multiset(Sizes(right))
    decreases |left|
  {
    if left == [] {
      assert elements == {};
    } else {
      assert left[0] in right;
      var j :| 0 <= j < |right| && right[j] == left[0];
      WithoutIndexEnumerates(left, elements, 0);
      WithoutIndexEnumerates(right, elements, j);
      EnumerationsHaveSameSizes(WithoutIndex(left, 0), WithoutIndex(right, j), elements - {left[0]});
      WithoutIndexSizes(left, 0);
      WithoutIndexSizes(right, j);
    }
  }

  /** The areas are determined up to order. */
  lemma ComponentAreasAreUnique(mask: Mask, left: seq<nat>, right: seq<nat>)
    requires AreComponentAreas(mask, left) && AreComponentAreas(mask, right)
    ensures multiset(left) == multiset(right)
  {
    var l: seq<set<Pixel>> :| Enumerates(l, Components(mask)) && Sizes(l) == left;
    var r: seq<set<Pixel>> :| Enumerates(r, Components(mask)) && Sizes(r) == right;
    EnumerationsHaveSameSizes(l, r, Components(mask));
  }
}
