/** Stable sorting by a total preorder. Where the order is antisymmetric the sorted permutation is
    unique, so any correct sort computes `Sort`. */
module Sorting {
  type Order<!T> = (T, T) -> bool

  ghost predicate IsTotalPreorder<T(!new)>(leq: Order<T>) {
    && (forall a, b :: leq(a, b) || leq(b, a))
    && (forall a, b, c :: leq(a, b) && leq(b, c) ==> leq(a, c))
  }

  ghost predicate IsTotalOrder<T(!new)>(leq: Order<T>) {
    IsTotalPreorder(leq) && forall a, b :: leq(a, b) && leq(b, a) ==> a == b
  }

  ghost predicate Sorted<T>(leq: Order<T>, s: seq<T>) {
    forall i, j :: 0 <= i < j < |s| ==> leq(s[i], s[j])
  }

  function Insert<T>(leq: Order<T>, x: T, s: seq<T>): seq<T> {
    if s == [] then [x] else if leq(x, s[0]) then [x] + s else [s[0]] + Insert(leq, x, s[1..])
  }

  function Sort<T>(leq: Order<T>, s: seq<T>): seq<T> {
    if s == [] then [] else Insert(leq, s[0], Sort(leq, s[1..]))
  }

  lemma {:induction false} InsertPermutes<T>(leq: Order<T>, x: T, s: seq<T>)
    ensures multiset(Insert(leq, x, s)) == multiset(s) + multiset{x}
  {
    if s != [] {
      assert s == [s[0]] + s[1..];
      if !leq(x, s[0]) {
        InsertPermutes(leq, x, s[1..]);
      }
    }
  }

  lemma {:induction false} InsertedBy<T>(leq: Order<T>, x: T, s: seq<T>, e: T)
    requires e in Insert(leq, x, s)
    ensures e == x || e in s
  {
    InsertPermutes(leq, x, s);
    assert e in multiset(Insert(leq, x, s));
  }

  lemma {:induction false} InsertSorts<T(!new)>(leq: Order<T>, x: T, s: seq<T>)
    requires IsTotalPreorder(leq) && Sorted(leq, s)
    ensures Sorted(leq, Insert(leq, x, s)) && multiset(Insert(leq, x, s)) == multiset(s) + multiset{x}
  {
    InsertPermutes(leq, x, s);
    if s == [] {
    } else if leq(x, s[0]) {
      forall j | 0 <= j < |s|
        ensures leq(x, s[j])
      {
        assert j > 0 ==> leq(s[0], s[j]);
      }
    } else {
      InsertSorts(leq, x, s[1..]);
      var rest := Insert(leq, x, s[1..]);
      forall e | e in rest
        ensures leq(s[0], e)
      {
        InsertedBy(leq, x, s[1..], e);
      }
    }
  }

  lemma {:induction false} SortSorts<T(!new)>(leq: Order<T>, s: seq<T>)
    requires IsTotalPreorder(leq)
    ensures Sorted(leq, Sort(leq, s)) && multiset(Sort(leq, s)) == multiset(s)
  {
    if s != [] {
      SortSorts(leq, s[1..]);
      InsertSorts(leq, s[0], Sort(leq, s[1..]));
      assert s == [s[0]] + s[1..];
    }
  }

  lemma {:induction false} LeastFirst<T(!new)>(leq: Order<T>, s: seq<T>, e: T)
    requires IsTotalPreorder(leq) && Sorted(leq, s) && e in multiset(s)
    ensures s != [] && leq(s[0], e)
  {
    var i :| 0 <= i < |s| && s[i] == e;
  }

  lemma {:induction false} SortedUnique<T(!new)>(leq: Order<T>, s: seq<T>, t: seq<T>)
    requires IsTotalOrder(leq) && Sorted(leq, s) && Sorted(leq, t) && multiset(s) == multiset(t)
    ensures s == t
  {
    assert |s| == |multiset(s)| == |multiset(t)| == |t|;
    if s != [] {
      LeastFirst(leq, t, s[0]);
      LeastFirst(leq, s, t[0]);
      assert s == [s[0]] + s[1..] && t == [t[0]] + t[1..];
      assert multiset(s[1..]) == multiset(s) - multiset{s[0]};
      assert multiset(t[1..]) == multiset(t) - multiset{t[0]};
      SortedUnique(leq, s[1..], t[1..]);
    }
  }

  function Filter<T>(keep: T -> bool, s: seq<T>): seq<T> {
    if s == [] then [] else (if keep(s[0]) then [s[0]] else []) + Filter(keep, s[1..])
  }

  lemma {:induction false} InsertIsStable<T(!new)>(leq: Order<T>, x: T, s: seq<T>, keep: T -> bool)
    requires forall a, b :: keep(a) && keep(b) ==> leq(a, b)
    ensures Filter(keep, Insert(leq, x, s)) == (if keep(x) then [x] else []) + Filter(keep, s)
  {
    if s != [] && !leq(x, s[0]) {
      InsertIsStable(leq, x, s[1..], keep);
    }
  }

  /** Elements that compare equal keep their order. */
  lemma {:induction false} SortIsStable<T(!new)>(leq: Order<T>, s: seq<T>, keep: T -> bool)
    requires forall a, b :: keep(a) && keep(b) ==> leq(a, b)
    ensures Filter(keep, Sort(leq, s)) == Filter(keep, s)
  {
    if s != [] {
      SortIsStable(leq, s[1..], keep);
      InsertIsStable(leq, s[0], Sort(leq, s[1..]), keep);
    }
  }

  lemma {:induction false} TwiceInMultiset<T>(s: seq<T>, i: nat, j: nat)
    requires i < j < |s| && s[i] == s[j]
    ensures multiset(s)[s[i]] >= 2
  {
    assert s == s[..j] + [s[j]] + s[j + 1..];
    assert s[..j][i] in multiset(s[..j]);
  }
}
