/** Union-find over run labels with path halving and union by area. */
module DisjointSets {
  /** Each element's class representative after the classes of `a` and `b` are merged into `into`. */
  ghost function Merged(roots: seq<nat>, a: nat, b: nat, into: nat): (r: seq<nat>)
    ensures |r| == |roots|
  {
    seq(|roots|, i requires 0 <= i < |roots| => if roots[i] == a || roots[i] == b then into else roots[i])
  }

  /** `roots[i]` is the element reached from `i` by following parents: a fixed point of `parents`
      shared with the parent of `i`. Areas grow strictly along every parent link. */
  ghost predicate NodeValid(parents: seq<nat>, areas: seq<nat>, roots: seq<nat>, i: nat)
    requires |parents| == |areas| == |roots| && i < |roots|
  {
    && parents[i] < |parents| && roots[i] < |roots| && 1 <= areas[i]
    && (parents[i] == i <==> roots[i] == i)
    && roots[parents[i]] == roots[i] && roots[roots[i]] == roots[i]
    && (parents[i] != i ==> areas[i] < areas[parents[i]])
  }

  ghost predicate ForestValid(parents: seq<nat>, areas: seq<nat>, roots: seq<nat>) {
    && |parents| == |areas| == |roots|
    && (forall i :: 0 <= i < |roots| ==> roots[i] < |roots|)
    && (forall i :: 0 <= i < |roots| ==> NodeValid(parents, areas, roots, i))
  }

  /** One halving step keeps every root and moves strictly up in area. */
  lemma HalvingKeepsRoots(parents: seq<nat>, areas: seq<nat>, roots: seq<nat>, v: nat)
    requires ForestValid(parents, areas, roots) && v < |roots| && parents[v] != v
    ensures parents[v] < |parents| && parents[parents[v]] < |parents|
    ensures
      var grandparent := parents[parents[v]];
      && ForestValid(parents[v := grandparent], areas, roots)
      && roots[grandparent] == roots[v] && areas[v] < areas[grandparent]
  {
    assert NodeValid(parents, areas, roots, v);
    assert NodeValid(parents, areas, roots, parents[v]);
    var halved := parents[v := parents[parents[v]]];
    forall i | 0 <= i < |roots|
      ensures NodeValid(halved, areas, roots, i)
    {
      assert NodeValid(parents, areas, roots, i);
    }
  }

  /** Linking the lighter root `r` below the heavier root `l` merges exactly their two classes. */
  lemma LinkingMergesClasses(parents: seq<nat>, areas: seq<nat>, roots: seq<nat>, l: nat, r: nat)
    requires ForestValid(parents, areas, roots) && l < |roots| && r < |roots|
    requires roots[l] == l && roots[r] == r && l != r && areas[r] <= areas[l]
    ensures ForestValid(parents[r := l], areas[l := areas[l] + areas[r]], Merged(roots, l, r, l))
  {
    assert NodeValid(parents, areas, roots, l);
    assert NodeValid(parents, areas, roots, r);
    var linked, grown, merged := parents[r := l], areas[l := areas[l] + areas[r]], Merged(roots, l, r, l);
    forall i | 0 <= i < |roots|
      ensures NodeValid(linked, grown, merged, i)
    {
      assert NodeValid(parents, areas, roots, i);
      assert NodeValid(parents, areas, roots, parents[i]);
    }
  }

  ghost predicate Idempotent(roots: seq<nat>) {
    forall i :: 0 <= i < |roots| ==> roots[i] < |roots| && roots[roots[i]] == roots[i]
  }

  lemma RootsAreIdempotent(parents: seq<nat>, areas: seq<nat>, roots: seq<nat>)
    requires ForestValid(parents, areas, roots)
    ensures Idempotent(roots)
  {
    forall i | 0 <= i < |roots|
      ensures roots[roots[i]] == roots[i]
    {
      assert NodeValid(parents, areas, roots, i);
    }
  }

  ghost predicate Bounded(areas: seq<nat>, bound: nat) {
    forall i :: 0 <= i < |areas| ==> areas[i] <= bound
  }

  /** `indices` lists the roots in increasing order and `result` their areas. */
  ghost predicate ListsRoots(roots: seq<nat>, areas: seq<nat>, indices: seq<nat>, result: seq<nat>) {
    && |indices| == |result| && |roots| == |areas|
    && (forall k :: 0 <= k < |result| ==> indices[k] < |roots| && result[k] == areas[indices[k]])
    && (forall j, k :: 0 <= j < k < |indices| ==> indices[j] < indices[k])
    && (forall i :: 0 <= i < |roots| ==> (roots[i] == i <==> i in indices))
  }

  class Forest {
    var parents: seq<nat>
    var areas: seq<nat>
    ghost var roots: seq<nat>
    ghost var bound: nat

    ghost predicate Valid()
      reads this
    {
      ForestValid(parents, areas, roots) && Bounded(areas, bound)
    }

    constructor ()
      ensures Valid() && roots == [] && areas == []
    {
      parents, areas, roots, bound := [], [], [], 0;
    }

    /** Appends a singleton class of the given area. */
    method Add(area: nat) returns (added: nat)
      requires Valid() && area > 0
      modifies this
      ensures Valid() && added == |old(roots)|
      ensures roots == old(roots) + [added] && areas == old(areas) + [area]
    {
      added := |parents|;
      parents := parents + [added];
      areas := areas + [area];
      roots := roots + [added];
      bound := bound + area;
      forall i | 0 <= i < |roots|
        ensures NodeValid(parents, areas, roots, i)
      {
        assert i < added ==> NodeValid(old(parents), old(areas), old(roots), i);
      }
    }

    /** Path halving rewrites parents only: no element's root changes, and the walk ends. */
    method Find(element: nat) returns (root: nat)
      requires Valid() && element < |roots|
      modifies this`parents
      ensures Valid() && root == roots[element]
    {
      var value: nat := element;
      while parents[value] != value
        invariant Valid() && value < |parents| && roots[value] == roots[element]
        decreases bound - areas[value]
      {
        HalvingKeepsRoots(parents, areas, roots, value);
        parents := parents[value := parents[parents[value]]];
        value := parents[value];
      }
      assert NodeValid(parents, areas, roots, value);
      root := value;
    }

    /** Merges exactly the two classes of `left` and `right`, adding their areas at the surviving root. */
    method Union(left: nat, right: nat) returns (root: nat)
      requires Valid() && left < |roots| && right < |roots|
      modifies this
      ensures Valid() && Idempotent(old(roots))
      ensures root == old(roots[left]) || root == old(roots[right])
      ensures roots == Merged(old(roots), old(roots[left]), old(roots[right]), root)
      ensures areas == if old(roots[left]) == old(roots[right]) then old(areas)
                       else old(areas)[root := old(areas[roots[left]]) + old(areas[roots[right]])]
    {
      RootsAreIdempotent(parents, areas, roots);
      var l := Find(left);
      var r := Find(right);
      if l == r {
        assert roots == Merged(roots, l, r, l);
        return l;
      }
      if areas[l] < areas[r] {
        Link(r, l);
        return r;
      }
      Link(l, r);
      return l;
    }

    /** Hangs the lighter root `r` below the root `l`. */
    method Link(l: nat, r: nat)
      requires Valid() && l < |roots| && r < |roots|
      requires roots[l] == l && roots[r] == r && l != r && areas[r] <= areas[l]
      modifies this
      ensures Valid()
      ensures roots == Merged(old(roots), l, r, l) == Merged(old(roots), r, l, l)
      ensures areas == old(areas)[l := old(areas)[l] + old(areas)[r]]
    {
      LinkingMergesClasses(parents, areas, roots, l, r);
      parents := parents[r := l];
      areas := areas[l := areas[l] + areas[r]];
      roots := Merged(roots, l, r, l);
      bound := bound + areas[l];
    }

    /** The areas of the classes, in order of their roots. */
    method RootAreas() returns (result: seq<nat>)
      requires Valid()
      ensures exists indices: seq<nat> :: ListsRoots(roots, areas, indices, result)
    {
      result := [];
      ghost var indices: seq<nat> := [];
      for index := 0 to |parents|
        invariant |indices| == |result|
        invariant forall k :: 0 <= k < |result| ==> indices[k] < index && result[k] == areas[indices[k]]
        invariant forall j, k :: 0 <= j < k < |indices| ==> indices[j] < indices[k]
        invariant forall i :: 0 <= i < index ==> (roots[i] == i <==> i in indices)
      {
        assert NodeValid(parents, areas, roots, index);
        if parents[index] == index {
          result := result + [areas[index]];
          indices := indices + [index];
        }
      }
      assert ListsRoots(roots, areas, indices, result);
    }
  }
}
