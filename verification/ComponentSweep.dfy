/** The row sweep of connected_component_areas: runs of the current row are matched against the
    previous row with a monotone cursor and merged in a union-find. */
module ComponentSweep {
  import opened PixelGrid
  import opened RowRuns
  import opened DisjointSets

  datatype Run = Run(start: nat, end: nat, root: nat)

  function Row(mask: Mask, y: int): seq<bool> {
    if 0 <= y < |mask| then mask[y] else []
  }

  function Spans(runs: seq<Run>): seq<(nat, nat)> {
    seq(|runs|, k requires 0 <= k < |runs| => (runs[k].start, runs[k].end))
  }

  // ---------------------------------------------------------------- What the sweep tracks

  /** `tag` gives the current class root of every pixel swept so far: equally tagged pixels are
      connected, and the area stored at a root is the size of its class. */
  ghost predicate Tracked(mask: Mask, tag: map<Pixel, nat>, roots: seq<nat>, areas: seq<nat>) {
    && |roots| == |areas|
    && (forall p :: p in tag ==> IsSet(mask, p) && tag[p] < |roots| && roots[tag[p]] == tag[p])
    && SameLabelConnected(mask, tag)
    && (forall r :: 0 <= r < |roots| && roots[r] == r ==> areas[r] == |Block(tag, r)|)
  }

  /** Whatever shared a class before still shares it. */
  ghost predicate Coarsens(tag: map<Pixel, nat>, roots: seq<nat>, tag': map<Pixel, nat>, roots': seq<nat>) {
    && |roots| <= |roots'| && tag.Keys <= tag'.Keys
    && (forall p :: p in tag ==> tag[p] < |roots'| && tag'[p] == roots'[tag[p]])
    && (forall i {:trigger roots[i]} :: 0 <= i < |roots| ==> roots[i] < |roots'| && roots'[i] == roots'[roots[i]])
  }

  ghost predicate RunTagged(tag: map<Pixel, nat>, roots: seq<nat>, y: int, run: Run) {
    run.root < |roots| &&
    forall x :: run.start <= x <= run.end ==> Pixel(y, x) in tag && tag[Pixel(y, x)] == roots[run.root]
  }

  ghost predicate RunsTagged(tag: map<Pixel, nat>, roots: seq<nat>, y: int, runs: seq<Run>) {
    forall k :: 0 <= k < |runs| ==> RunTagged(tag, roots, y, runs[k])
  }

  /** The swept pixels: all rows above `y`, and row `y` left of column `x`. */
  ghost predicate SweptUpTo(mask: Mask, tag: map<Pixel, nat>, y: int, x: int) {
    forall p :: p in tag <==> IsSet(mask, p) && (p.y < y || (p.y == y && p.x < x))
  }

  ghost function RunPixels(y: int, start: nat, end: nat): set<Pixel> {
    set x | start <= x <= end :: Pixel(y, x)
  }

  lemma {:induction false} RunPixelsSize(y: int, start: nat, end: nat)
    requires start <= end
    ensures |RunPixels(y, start, end)| == end - start + 1
    decreases end - start
  {
    if start == end {
      assert RunPixels(y, start, end) == {Pixel(y, start)};
    } else {
      RunPixelsSize(y, start + 1, end);
      assert RunPixels(y, start, end) == {Pixel(y, start)} + RunPixels(y, start + 1, end);
    }
  }

  ghost function WithRun(tag: map<Pixel, nat>, y: int, start: nat, end: nat, root: nat): map<Pixel, nat> {
    tag + map p | p in RunPixels(y, start, end) :: root
  }

  /** A new run enters as a class of its own. */
  lemma AddingRunTracked(mask: Mask, tag: map<Pixel, nat>, roots: seq<nat>, areas: seq<nat>, y: int, start: nat, end: nat)
    requires Tracked(mask, tag, roots, areas) && start <= end
    requires forall x :: start <= x <= end ==> IsSet(mask, Pixel(y, x)) && Pixel(y, x) !in tag
    requires Idempotent(roots)
    ensures
      var tag' := WithRun(tag, y, start, end, |roots|);
      && Tracked(mask, tag', roots + [|roots|], areas + [end - start + 1])
      && Coarsens(tag, roots, tag', roots + [|roots|])
  {
    var n := |roots|;
    var tag' := WithRun(tag, y, start, end, n);
    assert Block(tag', n) == RunPixels(y, start, end);
    RunPixelsSize(y, start, end);
    forall r | 0 <= r < n && roots[r] == r
      ensures areas[r] == |Block(tag', r)|
    {
      assert Block(tag', r) == Block(tag, r);
    }
    forall p, q | p in tag' && q in tag' && tag'[p] == tag'[q]
      ensures Connected(mask, p, q)
    {
      if tag'[p] == n {
        assert p in RunPixels(y, start, end) && q in RunPixels(y, start, end);
        if p.x <= q.x {
          ConnectedAlongRow(mask, y, p.x, q.x);
        } else {
          ConnectedAlongRow(mask, y, q.x, p.x);
          ConnectedSymmetric(mask, q, p);
        }
      }
    }
  }

  ghost function MergedTags(tag: map<Pixel, nat>, a: nat, b: nat, into: nat): map<Pixel, nat> {
    map p | p in tag :: if tag[p] == a || tag[p] == b then into else tag[p]
  }

  lemma MergingConnected(mask: Mask, tag: map<Pixel, nat>, p: Pixel, q: Pixel, into: nat)
    requires SameLabelConnected(mask, tag)
    requires p in tag && q in tag && Connected(mask, p, q) && (into == tag[p] || into == tag[q])
    ensures SameLabelConnected(mask, MergedTags(tag, tag[p], tag[q], into))
  {
    var merged := MergedTags(tag, tag[p], tag[q], into);
    ConnectedSymmetric(mask, p, q);
    forall s, t | s in merged && t in merged && merged[s] == merged[t]
      ensures Connected(mask, s, t)
    {
      if tag[s] != tag[t] {
        var s', t' := if tag[s] == tag[p] then p else q, if tag[t] == tag[p] then p else q;
        ConnectedTransitive(mask, s, s', t');
        ConnectedTransitive(mask, s, t', t);
      }
    }
  }

  lemma MergingAreas(tag: map<Pixel, nat>, a: nat, b: nat, into: nat, r: nat)
    requires a != b && (into == a || into == b)
    ensures |Block(MergedTags(tag, a, b, into), into)| == |Block(tag, a)| + |Block(tag, b)|
    ensures r != a && r != b ==> Block(MergedTags(tag, a, b, into), r) == Block(tag, r)
  {
    assert Block(MergedTags(tag, a, b, into), into) == Block(tag, a) + Block(tag, b);
    assert Block(tag, a) !! Block(tag, b);
  }

  lemma MergingCoarsens(tag: map<Pixel, nat>, roots: seq<nat>, a: nat, b: nat, into: nat)
    requires forall p :: p in tag ==> tag[p] < |roots| && roots[tag[p]] == tag[p]
    requires Idempotent(roots) && a < |roots| && b < |roots| && into < |roots|
    ensures Coarsens(tag, roots, MergedTags(tag, a, b, into), Merged(roots, a, b, into))
  {
  }

  lemma MergingAllAreas(tag: map<Pixel, nat>, roots: seq<nat>, areas: seq<nat>, a: nat, b: nat, into: nat, r: nat)
    requires |roots| == |areas| && forall r :: 0 <= r < |roots| && roots[r] == r ==> areas[r] == |Block(tag, r)|
    requires a < |roots| && b < |roots| && a != b && roots[a] == a && roots[b] == b && (into == a || into == b)
    requires r < |roots| && Merged(roots, a, b, into)[r] == r
    ensures areas[into := areas[a] + areas[b]][r] == |Block(MergedTags(tag, a, b, into), r)|
  {
    MergingAreas(tag, a, b, into, r);
  }

  /** Merging the classes of two connected pixels, as `Union` does, keeps the tracking. */
  lemma MergingTracked(mask: Mask, tag: map<Pixel, nat>, roots: seq<nat>, areas: seq<nat>, p: Pixel, q: Pixel, into: nat, areas': seq<nat>)
    requires Tracked(mask, tag, roots, areas)
    requires p in tag && q in tag && Connected(mask, p, q) && (into == tag[p] || into == tag[q])
    requires areas' == if tag[p] == tag[q] then areas else areas[into := areas[tag[p]] + areas[tag[q]]]
    ensures Tracked(mask, MergedTags(tag, tag[p], tag[q], into), Merged(roots, tag[p], tag[q], into), areas')
  {
    var a, b := tag[p], tag[q];
    var tag', roots' := MergedTags(tag, a, b, into), Merged(roots, a, b, into);
    MergingConnected(mask, tag, p, q, into);
    if a == b {
      assert tag' == tag && roots' == roots;
    } else {
      forall r | 0 <= r < |roots'| && roots'[r] == r
        ensures areas'[r] == |Block(tag', r)|
      {
        MergingAllAreas(tag, roots, areas, a, b, into, r);
      }
    }
  }

  // ---------------------------------------------------------------- Neighbouring runs

  /** Two runs of adjacent rows that overlap or touch diagonally contain neighbouring pixels. */
  lemma TouchingRuns(y: int, start: nat, end: nat, start': nat, end': nat) returns (p: Pixel, q: Pixel)
    requires start <= end && start' <= end' && start' <= end + 1 && start <= end' + 1
    ensures p.y == y && start <= p.x <= end && q.y == y - 1 && start' <= q.x <= end'
    ensures Adjacent(p, q)
  {
    var x' := if start' < start - 1 then start - 1 else start';
    var x := if x' < start then start else if x' > end then end else x';
    p, q := Pixel(y, x), Pixel(y - 1, x');
  }

  lemma CoarsensTransitive(t0: map<Pixel, nat>, r0: seq<nat>, t1: map<Pixel, nat>, r1: seq<nat>, t2: map<Pixel, nat>, r2: seq<nat>)
    requires Coarsens(t0, r0, t1, r1) && Coarsens(t1, r1, t2, r2)
    ensures Coarsens(t0, r0, t2, r2)
  {
  }

  lemma CoarseningKeepsRuns(tag: map<Pixel, nat>, roots: seq<nat>, tag': map<Pixel, nat>, roots': seq<nat>, y: int, runs: seq<Run>)
    requires Coarsens(tag, roots, tag', roots') && RunsTagged(tag, roots, y, runs)
    ensures RunsTagged(tag', roots', y, runs)
  {
    forall k | 0 <= k < |runs|
      ensures RunTagged(tag', roots', y, runs[k])
    {
      assert RunTagged(tag, roots, y, runs[k]);
    }
  }

  /** What the sweep knows about the row above: its runs are exactly the runs of that row, and
      each carries the class of its pixels. */
  ghost predicate RowSwept(mask: Mask, tag: map<Pixel, nat>, roots: seq<nat>, y: int, runs: seq<Run>) {
    AreRuns(Row(mask, y), Spans(runs)) && RunsTagged(tag, roots, y, runs)
  }

  ghost predicate Ordered(runs: seq<Run>) {
    && (forall k :: 0 <= k < |runs| ==> runs[k].start <= runs[k].end)
    && (forall i, k :: 0 <= i < k < |runs| ==> runs[i].end + 1 < runs[k].start)
  }

  lemma RunsAreOrdered(row: seq<bool>, runs: seq<Run>)
    requires AreRuns(row, Spans(runs))
    ensures Ordered(runs)
  {
    var spans := Spans(runs);
    assert forall k :: 0 <= k < |runs| ==> spans[k] == (runs[k].start, runs[k].end);
    forall i, k | 0 <= i < k < |runs|
      ensures runs[i].end + 1 < runs[k].start
    {
      assert spans[i].1 + 1 < spans[k].0;
    }
    forall k | 0 <= k < |runs|
      ensures runs[k].start <= runs[k].end
    {
      assert spans[k].0 <= spans[k].1;
    }
  }

  /** The cursor skip is sound: a run of the row above that touches [start, end] is neither left of
      the cursor nor right of the first run starting beyond `end + 1`. */
  lemma SkippedRunsDoNotTouch(runs: seq<Run>, j: nat, cursor: nat, overlap: nat, start: nat, end: nat, x: int, x': int)
    requires Ordered(runs) && cursor <= overlap <= |runs| && j < |runs|
    requires forall i :: 0 <= i < cursor ==> runs[i].end + 1 < start
    requires overlap < |runs| ==> runs[overlap].start > end + 1
    requires start <= x <= end && runs[j].start <= x' <= runs[j].end && -1 <= x - x' <= 1
    ensures cursor <= j < overlap
  {
  }

  lemma PixelInRun(mask: Mask, tag: map<Pixel, nat>, roots: seq<nat>, y: int, runs: seq<Run>, p: Pixel) returns (k: nat)
    requires RowSwept(mask, tag, roots, y, runs) && IsSet(mask, p) && p.y == y
    ensures k < |runs| && runs[k].start <= p.x <= runs[k].end
    ensures runs[k].root < |roots| && p in tag && tag[p] == roots[runs[k].root]
  {
    assert At(Row(mask, y), p.x);
    var j :| 0 <= j < |Spans(runs)| && Spans(runs)[j].0 <= p.x <= Spans(runs)[j].1;
    k := j;
    assert RunTagged(tag, roots, y, runs[k]);
    assert p == Pixel(y, p.x);
  }

  /** The sweep state while a run is being merged: tracking holds, and the runs `cursor..overlap` above
      already share the class of the current run. */
  ghost predicate Merging(mask: Mask, tag: map<Pixel, nat>, roots: seq<nat>, areas: seq<nat>, y: int, run: Run,
                          previous: seq<Run>, cursor: nat, overlap: nat)
  {
    && Tracked(mask, tag, roots, areas) && RunTagged(tag, roots, y, run) && RunsTagged(tag, roots, y - 1, previous)
    && cursor <= overlap <= |previous|
    && forall i :: cursor <= i < overlap ==> previous[i].root < |roots| && roots[previous[i].root] == roots[run.root]
  }

  /** Adding a run starts a merge with nothing merged yet. */
  lemma StartMerging(mask: Mask, before: map<Pixel, nat>, roots0: seq<nat>, areas0: seq<nat>, y: int, start: nat, end: nat,
                     previous: seq<Run>)
    requires Tracked(mask, before, roots0, areas0) && Idempotent(roots0)
    requires start <= end && forall x :: start <= x <= end ==> IsSet(mask, Pixel(y, x)) && Pixel(y, x) !in before
    requires RunsTagged(before, roots0, y - 1, previous)
    ensures
      var tag := WithRun(before, y, start, end, |roots0|);
      && Merging(mask, tag, roots0 + [|roots0|], areas0 + [end - start + 1], y, Run(start, end, |roots0|), previous, 0, 0)
      && Coarsens(before, roots0, tag, roots0 + [|roots0|])
  {
    AddingRunTracked(mask, before, roots0, areas0, y, start, end);
    CoarseningKeepsRuns(before, roots0, WithRun(before, y, start, end, |roots0|), roots0 + [|roots0|], y - 1, previous);
  }

  /** Once a run has been merged with every touching run above it, neighbours agree again. */
  lemma RunClosed(mask: Mask, before: map<Pixel, nat>, roots0: seq<nat>, areas0: seq<nat>, tag: map<Pixel, nat>, roots: seq<nat>,
                  areas: seq<nat>, y: int, run: Run, previous: seq<Run>, cursor: nat, overlap: nat)
    requires ClosedUnderAdjacency(before) && Tracked(mask, before, roots0, areas0)
    requires Merging(mask, tag, roots, areas, y, run, previous, cursor, overlap) && Coarsens(before, roots0, tag, roots)
    requires RowSwept(mask, tag, roots, y - 1, previous)
    requires forall p :: p in before ==> p.y < y || (p.y == y && p.x + 1 < run.start)
    requires tag.Keys == before.Keys + RunPixels(y, run.start, run.end)
    requires forall i :: 0 <= i < cursor ==> previous[i].end + 1 < run.start
    requires overlap < |previous| ==> previous[overlap].start > run.end + 1
    ensures ClosedUnderAdjacency(tag)
  {
    RunsAreOrdered(Row(mask, y - 1), previous);
    forall p, q | p in tag && q in tag && Adjacent(p, q)
      ensures tag[p] == tag[q]
    {
      if p in before && q in before {
        assert tag[p] == roots[before[p]] && tag[q] == roots[before[q]];
      } else if p !in before && q !in before {
        assert p == Pixel(y, p.x) && q == Pixel(y, q.x);
      } else {
        var inner, outer := if p in before then q else p, if p in before then p else q;
        assert inner == Pixel(y, inner.x) && outer.y == y - 1;
        PixelAboveAgrees(mask, tag, roots, y, run, previous, cursor, overlap, inner, outer);
      }
    }
  }

  lemma PixelAboveAgrees(mask: Mask, tag: map<Pixel, nat>, roots: seq<nat>, y: int, run: Run, previous: seq<Run>, cursor: nat, overlap: nat,
                         inner: Pixel, outer: Pixel)
    requires RunTagged(tag, roots, y, run) && RowSwept(mask, tag, roots, y - 1, previous) && Ordered(previous)
    requires cursor <= overlap <= |previous|
    requires forall i :: cursor <= i < overlap ==> previous[i].root < |roots| && roots[previous[i].root] == roots[run.root]
    requires forall i :: 0 <= i < cursor ==> previous[i].end + 1 < run.start
    requires overlap < |previous| ==> previous[overlap].start > run.end + 1
    requires inner == Pixel(y, inner.x) && run.start <= inner.x <= run.end
    requires IsSet(mask, outer) && outer.y == y - 1 && -1 <= inner.x - outer.x <= 1
    ensures inner in tag && outer in tag && tag[inner] == tag[outer]
  {
    var j := PixelInRun(mask, tag, roots, y - 1, previous, outer);
    SkippedRunsDoNotTouch(previous, j, cursor, overlap, run.start, run.end, inner.x, outer.x);
  }

  // ---------------------------------------------------------------- The sweep

  /** Gives one run a label, advances the cursor past runs that ended too far left, and unions the
      run with every run above that it touches. */
  method AttachRun(forest: Forest, ghost mask: Mask, ghost y: int, start: nat, end: nat, previous: seq<Run>, skipped: nat,
                   ghost before: map<Pixel, nat>)
    returns (run: Run, cursor: nat, ghost tag: map<Pixel, nat>)
    requires forest.Valid() && Tracked(mask, before, forest.roots, forest.areas) && ClosedUnderAdjacency(before)
    requires start <= end && forall x :: start <= x <= end ==> IsSet(mask, Pixel(y, x))
    requires forall p :: p in before ==> p.y < y || (p.y == y && p.x + 1 < start)
    requires RowSwept(mask, before, forest.roots, y - 1, previous)
    requires skipped <= |previous| && forall i :: 0 <= i < skipped ==> previous[i].end + 1 < start
    modifies forest
    ensures forest.Valid() && Tracked(mask, tag, forest.roots, forest.areas) && ClosedUnderAdjacency(tag)
    ensures tag.Keys == before.Keys + RunPixels(y, start, end)
    ensures run.start == start && run.end == end && RunTagged(tag, forest.roots, y, run)
    ensures Coarsens(before, old(forest.roots), tag, forest.roots)
    ensures cursor <= |previous| && forall i :: 0 <= i < cursor ==> previous[i].end + 1 < start
  {
    ghost var roots0, areas0 := forest.roots, forest.areas;
    RunsAreOrdered(Row(mask, y - 1), previous);
    var root;
    root, tag := AddRun(forest, mask, y, start, end, previous, before);
    cursor := SkipRuns(previous, start, skipped);
    ghost var added, roots1 := tag, forest.roots;
    var overlap;
    root, overlap, tag := MergeOverlaps(forest, mask, y, Run(start, end, root), previous, cursor, added);
    run := Run(start, end, root);
    CoarsensTransitive(before, roots0, added, roots1, tag, forest.roots);
    RunClosed(mask, before, roots0, areas0, tag, forest.roots, forest.areas, y, run, previous, cursor, overlap);
  }

  /** The new run becomes a class of its own, with nothing merged yet. */
  method AddRun(forest: Forest, ghost mask: Mask, ghost y: int, start: nat, end: nat, ghost previous: seq<Run>, ghost before: map<Pixel, nat>)
    returns (root: nat, ghost tag: map<Pixel, nat>)
    requires forest.Valid() && Tracked(mask, before, forest.roots, forest.areas)
    requires start <= end && forall x :: start <= x <= end ==> IsSet(mask, Pixel(y, x)) && Pixel(y, x) !in before
    requires RunsTagged(before, forest.roots, y - 1, previous)
    modifies forest
    ensures forest.Valid() && tag.Keys == before.Keys + RunPixels(y, start, end)
    ensures Coarsens(before, old(forest.roots), tag, forest.roots)
    ensures Merging(mask, tag, forest.roots, forest.areas, y, Run(start, end, root), previous, 0, 0)
  {
    RootsAreIdempotent(forest.parents, forest.areas, forest.roots);
    StartMerging(mask, before, forest.roots, forest.areas, y, start, end, previous);
    root := forest.Add(end - start + 1);
    tag := WithRun(before, y, start, end, root);
  }

  method SkipRuns(previous: seq<Run>, start: nat, skipped: nat) returns (cursor: nat)
    requires skipped <= |previous| && forall i :: 0 <= i < skipped ==> previous[i].end + 1 < start
    ensures skipped <= cursor <= |previous| && forall i :: 0 <= i < cursor ==> previous[i].end + 1 < start
    ensures cursor < |previous| ==> start <= previous[cursor].end + 1
  {
    cursor := skipped;
    while cursor < |previous| && previous[cursor].end < start - 1
      invariant skipped <= cursor <= |previous|
      invariant forall i :: 0 <= i < cursor ==> previous[i].end + 1 < start
    {
      cursor := cursor + 1;
    }
  }

  /** A `Union` with the next touching run above extends the merged range by one. */
  lemma MergeStep(mask: Mask, tag: map<Pixel, nat>, roots: seq<nat>, areas: seq<nat>, y: int, run: Run, previous: seq<Run>,
                  cursor: nat, overlap: nat, root: nat, roots': seq<nat>, areas': seq<nat>) returns (tag': map<Pixel, nat>)
    requires Merging(mask, tag, roots, areas, y, run, previous, cursor, overlap) && Idempotent(roots)
    requires overlap < |previous| && previous[overlap].root < |roots| && Touching(run, previous[overlap])
    requires root == roots[run.root] || root == roots[previous[overlap].root]
    requires roots' == Merged(roots, roots[run.root], roots[previous[overlap].root], root)
    requires areas' == if roots[run.root] == roots[previous[overlap].root] then areas
                       else areas[root := areas[roots[run.root]] + areas[roots[previous[overlap].root]]]
    ensures tag'.Keys == tag.Keys
    ensures Merging(mask, tag', roots', areas', y, run.(root := root), previous, cursor, overlap + 1)
    ensures Coarsens(tag, roots, tag', roots')
  {
    var other, a, b := previous[overlap], roots[run.root], roots[previous[overlap].root];
    tag' := MergedTags(tag, a, b, root);
    assert RunTagged(tag, roots, y - 1, other);
    UnionTracked(mask, tag, roots, areas, y, run, other, root, areas');
    MergingCoarsens(tag, roots, a, b, root);
    CoarseningKeepsRuns(tag, roots, tag', roots', y - 1, previous);
    RunRetagged(tag, roots, y, run, a, b, root);
    MergedRange(roots, previous, cursor, overlap, a, b, root);
  }

  predicate Touching(run: Run, other: Run) {
    run.start <= run.end && other.start <= other.end && other.start <= run.end + 1 && run.start <= other.end + 1
  }

  lemma MergedRange(roots: seq<nat>, previous: seq<Run>, cursor: nat, overlap: nat, a: nat, b: nat, into: nat)
    requires overlap < |previous| && (into == a || into == b) && into < |roots| && roots[into] == into
    requires forall i :: cursor <= i < overlap ==> previous[i].root < |roots| && roots[previous[i].root] == a
    requires previous[overlap].root < |roots| && roots[previous[overlap].root] == b
    ensures forall i :: cursor <= i < overlap + 1 ==>
      previous[i].root < |roots| && Merged(roots, a, b, into)[previous[i].root] == into == Merged(roots, a, b, into)[into]
  {
  }

  lemma RunRetagged(tag: map<Pixel, nat>, roots: seq<nat>, y: int, run: Run, a: nat, b: nat, into: nat)
    requires RunTagged(tag, roots, y, run) && a == roots[run.root] && (into == a || into == b) && into < |roots| && roots[into] == into
    ensures RunTagged(MergedTags(tag, a, b, into), Merged(roots, a, b, into), y, run.(root := into))
  {
    forall x | run.start <= x <= run.end
      ensures Pixel(y, x) in tag && tag[Pixel(y, x)] == a
    {
    }
  }

  lemma UnionTracked(mask: Mask, tag: map<Pixel, nat>, roots: seq<nat>, areas: seq<nat>, y: int, run: Run, other: Run, root: nat, areas': seq<nat>)
    requires Tracked(mask, tag, roots, areas)
    requires RunTagged(tag, roots, y, run) && RunTagged(tag, roots, y - 1, other)
    requires Touching(run, other) && (root == roots[run.root] || root == roots[other.root])
    requires roots[run.root] < |areas| && roots[other.root] < |areas|
    requires areas' == if roots[run.root] == roots[other.root] then areas
                       else areas[root := areas[roots[run.root]] + areas[roots[other.root]]]
    ensures Tracked(mask, MergedTags(tag, roots[run.root], roots[other.root], root), Merged(roots, roots[run.root], roots[other.root], root), areas')
  {
    var p, q := TouchingPixels(mask, tag, roots, y, run, other);
    MergingTracked(mask, tag, roots, areas, p, q, root, areas');
  }

  lemma TouchingPixels(mask: Mask, tag: map<Pixel, nat>, roots: seq<nat>, y: int, run: Run, other: Run) returns (p: Pixel, q: Pixel)
    requires forall p :: p in tag ==> IsSet(mask, p)
    requires RunTagged(tag, roots, y, run) && RunTagged(tag, roots, y - 1, other) && Touching(run, other)
    ensures p in tag && q in tag && Connected(mask, p, q)
    ensures tag[p] == roots[run.root] && tag[q] == roots[other.root]
  {
    p, q := TouchingRuns(y, run.start, run.end, other.start, other.end);
    assert p == Pixel(y, p.x) && q == Pixel(y - 1, q.x);
    ConnectedNeighbours(mask, p, q);
  }

  method MergeOverlaps(forest: Forest, ghost mask: Mask, ghost y: int, run: Run, previous: seq<Run>, cursor: nat, ghost tag: map<Pixel, nat>)
    returns (root: nat, overlap: nat, ghost tag': map<Pixel, nat>)
    requires forest.Valid() && Ordered(previous) && run.start <= run.end
    requires Merging(mask, tag, forest.roots, forest.areas, y, run, previous, cursor, cursor)
    requires cursor < |previous| ==> run.start <= previous[cursor].end + 1
    modifies forest
    ensures forest.Valid() && tag'.Keys == tag.Keys
    ensures Merging(mask, tag', forest.roots, forest.areas, y, run.(root := root), previous, cursor, overlap)
    ensures Coarsens(tag, old(forest.roots), tag', forest.roots)
    ensures overlap < |previous| ==> previous[overlap].start > run.end + 1
  {
    root, overlap, tag' := run.root, cursor, tag;
    RootsAreIdempotent(forest.parents, forest.areas, forest.roots);
    while overlap < |previous| && previous[overlap].start <= run.end + 1
      invariant forest.Valid() && tag'.Keys == tag.Keys && overlap <= |previous|
      invariant Merging(mask, tag', forest.roots, forest.areas, y, run.(root := root), previous, cursor, overlap)
      invariant Coarsens(tag, old(forest.roots), tag', forest.roots)
    {
      ghost var before, roots := tag', forest.roots;
      root, tag' := MergeRuns(forest, mask, y, run.(root := root), previous, cursor, overlap, tag');
      CoarsensTransitive(tag, old(forest.roots), before, roots, tag', forest.roots);
      overlap := overlap + 1;
    }
  }

  /** One `union` of the current run with run `overlap` of the row above. */
  method MergeRuns(forest: Forest, ghost mask: Mask, ghost y: int, run: Run, previous: seq<Run>, ghost cursor: nat, overlap: nat,
                   ghost tag: map<Pixel, nat>)
    returns (root: nat, ghost tag': map<Pixel, nat>)
    requires forest.Valid() && overlap < |previous| && Touching(run, previous[overlap])
    requires Merging(mask, tag, forest.roots, forest.areas, y, run, previous, cursor, overlap)
    modifies forest
    ensures forest.Valid() && tag'.Keys == tag.Keys
    ensures Merging(mask, tag', forest.roots, forest.areas, y, run.(root := root), previous, cursor, overlap + 1)
    ensures Coarsens(tag, old(forest.roots), tag', forest.roots)
  {
    ghost var roots, areas := forest.roots, forest.areas;
    assert RunTagged(tag, roots, y - 1, previous[overlap]);
    root := forest.Union(run.root, previous[overlap].root);
    tag' := MergeStep(mask, tag, roots, areas, y, run, previous, cursor, overlap, root, forest.roots, forest.areas);
  }

  ghost function Boundary(spans: seq<(nat, nat)>, k: nat): nat
    requires k <= |spans|
  {
    if k == 0 then 0 else spans[k - 1].1 + 1
  }

  /** The sweep state before span `k` of row `y`. */
  ghost predicate Sweeping(mask: Mask, tag: map<Pixel, nat>, roots: seq<nat>, areas: seq<nat>, y: nat, previous: seq<Run>,
                           spans: seq<(nat, nat)>, current: seq<Run>, cursor: nat)
  {
    && Tracked(mask, tag, roots, areas) && ClosedUnderAdjacency(tag)
    && RowSwept(mask, tag, roots, y - 1, previous)
    && |current| <= |spans| && Spans(current) == spans[..|current|] && RunsTagged(tag, roots, y, current)
    && SweptUpTo(mask, tag, y, Boundary(spans, |current|))
    && cursor <= |previous|
    && (|current| < |spans| ==> forall i :: 0 <= i < cursor ==> previous[i].end + 1 < spans[|current|].0)
  }

  lemma RunSwept(mask: Mask, tag0: map<Pixel, nat>, roots0: seq<nat>, areas0: seq<nat>, tag: map<Pixel, nat>, roots: seq<nat>, areas: seq<nat>,
                 y: nat, previous: seq<Run>, spans: seq<(nat, nat)>, current: seq<Run>, run: Run, cursor0: nat, cursor: nat)
    requires y < |mask| && AreRuns(mask[y], spans) && |current| < |spans| && (run.start, run.end) == spans[|current|]
    requires Sweeping(mask, tag0, roots0, areas0, y, previous, spans, current, cursor0)
    requires Tracked(mask, tag, roots, areas) && ClosedUnderAdjacency(tag) && RunTagged(tag, roots, y, run)
    requires tag.Keys == tag0.Keys + RunPixels(y, run.start, run.end)
    requires Coarsens(tag0, roots0, tag, roots)
    requires cursor <= |previous| && forall i :: 0 <= i < cursor ==> previous[i].end + 1 < run.start
    ensures Sweeping(mask, tag, roots, areas, y, previous, spans, current + [run], cursor)
  {
    var k := |current|;
    CoarseningKeepsRuns(tag0, roots0, tag, roots, y - 1, previous);
    CoarseningKeepsRuns(tag0, roots0, tag, roots, y, current);
    SweptGrows(mask, tag0, tag, y, spans, k);
    assert Spans(current + [run]) == spans[..k + 1];
    if k + 1 < |spans| {
      NextSpan(mask, y, spans, k + 1);
    }
  }

  method SweepRow(forest: Forest, mask: Mask, y: nat, previous: seq<Run>, ghost before: map<Pixel, nat>)
    returns (current: seq<Run>, ghost tag: map<Pixel, nat>)
    requires y < |mask| && forest.Valid()
    requires Tracked(mask, before, forest.roots, forest.areas) && ClosedUnderAdjacency(before)
    requires SweptUpTo(mask, before, y, 0) && RowSwept(mask, before, forest.roots, y - 1, previous)
    modifies forest
    ensures forest.Valid()
    ensures Tracked(mask, tag, forest.roots, forest.areas) && ClosedUnderAdjacency(tag)
    ensures SweptUpTo(mask, tag, y + 1, 0) && RowSwept(mask, tag, forest.roots, y, current)
  {
    var spans := Runs(mask[y]);
    current, tag := [], before;
    var cursor: nat := 0;
    for k := 0 to |spans|
      invariant |current| == k && forest.Valid()
      invariant Sweeping(mask, tag, forest.roots, forest.areas, y, previous, spans, current, cursor)
    {
      ghost var tag0, roots0, areas0, cursor0 := tag, forest.roots, forest.areas, cursor;
      var run: Run;
      NextSpan(mask, y, spans, k);
      run, cursor, tag := AttachRun(forest, mask, y, spans[k].0, spans[k].1, previous, cursor, tag);
      RunSwept(mask, tag0, roots0, areas0, tag, forest.roots, forest.areas, y, previous, spans, current, run, cursor0, cursor);
      current := current + [run];
    }
    RowFinished(mask, tag, y, spans);
    assert Spans(current) == spans;
  }

  lemma NextSpan(mask: Mask, y: nat, spans: seq<(nat, nat)>, k: nat)
    requires y < |mask| && AreRuns(mask[y], spans) && k < |spans|
    ensures spans[k].0 <= spans[k].1
    ensures forall x :: spans[k].0 <= x <= spans[k].1 ==> IsSet(mask, Pixel(y, x))
    ensures Boundary(spans, k) < spans[k].0 || k == 0
    ensures k > 0 ==> spans[k - 1].0 < spans[k].0
  {
    forall x | spans[k].0 <= x <= spans[k].1
      ensures IsSet(mask, Pixel(y, x))
    {
      assert Covered(spans, x);
    }
    if k > 0 {
      assert spans[k - 1].0 <= spans[k - 1].1;
    }
  }

  lemma SweptGrows(mask: Mask, tag: map<Pixel, nat>, tag': map<Pixel, nat>, y: nat, spans: seq<(nat, nat)>, k: nat)
    requires y < |mask| && AreRuns(mask[y], spans) && k < |spans|
    requires SweptUpTo(mask, tag, y, Boundary(spans, k))
    requires tag'.Keys == tag.Keys + RunPixels(y, spans[k].0, spans[k].1)
    ensures SweptUpTo(mask, tag', y, Boundary(spans, k + 1))
  {
    NextSpan(mask, y, spans, k);
    forall p
      ensures p in tag' <==> IsSet(mask, p) && (p.y < y || (p.y == y && p.x < spans[k].1 + 1))
    {
      if IsSet(mask, p) && p.y == y && p.x < spans[k].1 + 1 && p !in tag {
        assert At(mask[y], p.x);
        var j :| 0 <= j < |spans| && spans[j].0 <= p.x <= spans[j].1;
        assert j == k;
        assert p == Pixel(y, p.x);
      }
    }
  }

  lemma RowFinished(mask: Mask, tag: map<Pixel, nat>, y: nat, spans: seq<(nat, nat)>)
    requires y < |mask| && AreRuns(mask[y], spans)
    requires SweptUpTo(mask, tag, y, Boundary(spans, |spans|))
    ensures SweptUpTo(mask, tag, y + 1, 0)
  {
    forall p | IsSet(mask, p) && p.y == y
      ensures p.x < Boundary(spans, |spans|)
    {
      assert At(mask[y], p.x);
      var j :| 0 <= j < |spans| && spans[j].0 <= p.x <= spans[j].1;
      assert j < |spans| - 1 ==> spans[j].1 + 1 < spans[|spans| - 1].0;
    }
  }

  lemma RootBlockIsComponent(mask: Mask, tag: map<Pixel, nat>, roots: seq<nat>, areas: seq<nat>, r: nat)
    requires Tracked(mask, tag, roots, areas) && ClosedUnderAdjacency(tag) && tag.Keys == Pixels(mask)
    requires r < |roots| && roots[r] == r && areas[r] > 0
    ensures |Block(tag, r)| == areas[r] && Block(tag, r) in Components(mask)
  {
    assert Block(tag, r) != {};
    var p :| p in Block(tag, r);
    BlockIsComponent(mask, tag, p);
  }

  lemma ComponentHasRoot(mask: Mask, tag: map<Pixel, nat>, roots: seq<nat>, areas: seq<nat>, c: set<Pixel>) returns (r: nat)
    requires Tracked(mask, tag, roots, areas) && ClosedUnderAdjacency(tag) && tag.Keys == Pixels(mask)
    requires c in Components(mask)
    ensures r < |roots| && roots[r] == r && Block(tag, r) == c
  {
    var p :| p in Pixels(mask) && c == Component(mask, p);
    BlockIsComponent(mask, tag, p);
    r := tag[p];
  }

  /** The classes are exactly the given sets of pixels, and `areas` holds their sizes. */
  ghost predicate RootsCover(tag: map<Pixel, nat>, roots: seq<nat>, areas: seq<nat>, components: set<set<Pixel>>) {
    && |roots| == |areas|
    && (forall r :: 0 <= r < |roots| && roots[r] == r ==> Block(tag, r) in components && |Block(tag, r)| == areas[r] > 0)
    && (forall c :: c in components ==> exists r :: 0 <= r < |roots| && roots[r] == r && Block(tag, r) == c)
  }

  ghost function Blocks(tag: map<Pixel, nat>, indices: seq<nat>): seq<set<Pixel>> {
    seq(|indices|, k requires 0 <= k < |indices| => Block(tag, indices[k]))
  }

  lemma ListedBlock(tag: map<Pixel, nat>, roots: seq<nat>, areas: seq<nat>, indices: seq<nat>, result: seq<nat>, components: set<set<Pixel>>, k: nat)
    requires RootsCover(tag, roots, areas, components) && ListsRoots(roots, areas, indices, result) && k < |indices|
    ensures Blocks(tag, indices)[k] in components && |Blocks(tag, indices)[k]| == result[k] > 0
  {
    assert indices[k] in indices;
  }

  lemma BlockListed(tag: map<Pixel, nat>, roots: seq<nat>, areas: seq<nat>, indices: seq<nat>, result: seq<nat>, components: set<set<Pixel>>, c: set<Pixel>)
    requires RootsCover(tag, roots, areas, components) && ListsRoots(roots, areas, indices, result) && c in components
    ensures c in Blocks(tag, indices)
  {
    var r :| 0 <= r < |roots| && roots[r] == r && Block(tag, r) == c;
    var k :| 0 <= k < |indices| && indices[k] == r;
    assert Blocks(tag, indices)[k] == c;
  }

  /** Listing the classes by their roots lists every component once. */
  lemma BlocksEnumerate(tag: map<Pixel, nat>, roots: seq<nat>, areas: seq<nat>, indices: seq<nat>, result: seq<nat>, components: set<set<Pixel>>)
    requires RootsCover(tag, roots, areas, components) && ListsRoots(roots, areas, indices, result)
    ensures Enumerates(Blocks(tag, indices), components) && Sizes(Blocks(tag, indices)) == result
  {
    var blocks := Blocks(tag, indices);
    forall k | 0 <= k < |blocks|
      ensures blocks[k] in components && |blocks[k]| == result[k] > 0
    {
      ListedBlock(tag, roots, areas, indices, result, components, k);
    }
    forall c | c in components
      ensures c in blocks
    {
      BlockListed(tag, roots, areas, indices, result, components, c);
    }
    BlocksAreDistinct(tag, indices, blocks);
  }

  lemma BlocksAreDistinct(tag: map<Pixel, nat>, indices: seq<nat>, blocks: seq<set<Pixel>>)
    requires |blocks| == |indices| && forall k :: 0 <= k < |blocks| ==> blocks[k] == Block(tag, indices[k]) && |blocks[k]| > 0
    requires forall j, k :: 0 <= j < k < |indices| ==> indices[j] < indices[k]
    ensures forall j, k :: 0 <= j < k < |blocks| ==> blocks[j] != blocks[k]
  {
    forall j, k | 0 <= j < k < |blocks|
      ensures blocks[j] != blocks[k]
    {
      assert blocks[j] != {};
      var p :| p in blocks[j];
      assert p !in blocks[k];
    }
  }

  lemma ClassesCoverComponents(mask: Mask, tag: map<Pixel, nat>, roots: seq<nat>, areas: seq<nat>)
    requires Tracked(mask, tag, roots, areas) && ClosedUnderAdjacency(tag) && SweptUpTo(mask, tag, |mask|, 0)
    requires forall r :: 0 <= r < |areas| ==> areas[r] > 0
    ensures RootsCover(tag, roots, areas, Components(mask))
  {
    assert tag.Keys == Pixels(mask);
    forall r | 0 <= r < |roots| && roots[r] == r
      ensures Block(tag, r) in Components(mask) && |Block(tag, r)| == areas[r]
    {
      RootBlockIsComponent(mask, tag, roots, areas, r);
    }
    forall c | c in Components(mask)
      ensures exists r :: 0 <= r < |roots| && roots[r] == r && Block(tag, r) == c
    {
      var r := ComponentHasRoot(mask, tag, roots, areas, c);
    }
  }

  /** The classes of a finished sweep are the connected components. */
  lemma ClassesAreComponents(mask: Mask, tag: map<Pixel, nat>, roots: seq<nat>, areas: seq<nat>, indices: seq<nat>, result: seq<nat>)
    requires Tracked(mask, tag, roots, areas) && ClosedUnderAdjacency(tag) && SweptUpTo(mask, tag, |mask|, 0)
    requires forall r :: 0 <= r < |areas| ==> areas[r] > 0
    requires ListsRoots(roots, areas, indices, result)
    ensures AreComponentAreas(mask, result)
  {
    ClassesCoverComponents(mask, tag, roots, areas);
    BlocksEnumerate(tag, roots, areas, indices, result, Components(mask));
  }

  /** For every mask, the result lists the area of each 8-connected component exactly once. */
  method ConnectedComponentAreas(mask: Mask) returns (areas: seq<nat>)
    ensures AreComponentAreas(mask, areas)
  {
    var forest := new Forest();
    var previous: seq<Run> := [];
    ghost var tag: map<Pixel, nat> := map[];
    for y := 0 to |mask|
      invariant forest.Valid()
      invariant Tracked(mask, tag, forest.roots, forest.areas) && ClosedUnderAdjacency(tag)
      invariant SweptUpTo(mask, tag, y, 0) && RowSwept(mask, tag, forest.roots, y - 1, previous)
    {
      previous, tag := SweepRow(forest, mask, y, previous, tag);
    }
    areas := forest.RootAreas();
    ghost var indices: seq<nat> :| ListsRoots(forest.roots, forest.areas, indices, areas);
    forall r | 0 <= r < |forest.areas|
      ensures forest.areas[r] > 0
    {
      assert NodeValid(forest.parents, forest.areas, forest.roots, r);
    }
    ClassesAreComponents(mask, tag, forest.roots, forest.areas, indices, areas);
  }
}
