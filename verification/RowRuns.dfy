/** Horizontal runs of a row, as found by differencing the zero-padded row. */
module RowRuns {
  /** `np.flatnonzero`: the indices of the true flags, in order. */
  function FlatNonZero(flags: seq<bool>): (r: seq<nat>) {
    if flags == [] then [] else
      var n := |flags| - 1;
      FlatNonZero(flags[..n]) + if flags[n] then [n] else []
  }

  predicate At(row: seq<bool>, i: int) {
    0 <= i < |row| && row[i]
  }

  /** Transition `i` of the padded row compares pixels `i - 1` and `i`. */
  function Rising(row: seq<bool>): (r: seq<bool>) {
    seq(|row| + 1, i => !At(row, i - 1) && At(row, i))
  }

  function Falling(row: seq<bool>): (r: seq<bool>) {
    seq(|row| + 1, i => At(row, i - 1) && !At(row, i))
  }

  /** `starts` and `ends` (exclusive) are the runs of the first `n` transitions of `row`; one run
      is still open when pixel `n - 1` is set. */
  ghost predicate RunsUpTo(row: seq<bool>, n: nat, starts: seq<nat>, ends: seq<nat>) {
    && |starts| == |ends| + (if At(row, n - 1) then 1 else 0)
    && (forall k :: 0 <= k < |ends| ==> starts[k] < ends[k] < n)
    && (forall k :: 0 <= k < |starts| ==> starts[k] < n)
    && (forall j, k :: 0 <= j < k < |starts| && j < |ends| ==> ends[j] < starts[k])
    && (forall i :: i < n ==> (At(row, i) <==> InRun(starts, ends, i)))
  }

  ghost predicate InRun(starts: seq<nat>, ends: seq<nat>, i: int) {
    exists k :: 0 <= k < |starts| && starts[k] <= i && (k < |ends| ==> i < ends[k])
  }

  lemma RunsMembership(row: seq<bool>, n: nat, s: seq<nat>, e: seq<nat>, s': seq<nat>, e': seq<nat>, i: int)
    requires 0 < n && i < n && RunsUpTo(row, n - 1, s, e)
    requires s' == if !At(row, n - 2) && At(row, n - 1) then s + [n - 1] else s
    requires e' == if At(row, n - 2) && !At(row, n - 1) then e + [n - 1] else e
    ensures At(row, i) <==> InRun(s', e', i)
  {
    if i < n - 1 {
      EarlierColumn(row, n, s, e, s', e', i);
    } else if At(row, i) {
      assert s'[|s'| - 1] <= i && |e'| == |s'| - 1;
    }
  }

  lemma EarlierColumn(row: seq<bool>, n: nat, s: seq<nat>, e: seq<nat>, s': seq<nat>, e': seq<nat>, i: int)
    requires 0 < n && i < n - 1 && RunsUpTo(row, n - 1, s, e)
    requires s' == s || s' == s + [n - 1]
    requires e' == e || e' == e + [n - 1]
    ensures At(row, i) <==> InRun(s', e', i)
  {
    if At(row, i) {
      var k :| 0 <= k < |s| && s[k] <= i && (k < |e| ==> i < e[k]);
      assert s'[k] == s[k];
    }
    if InRun(s', e', i) {
      var k :| 0 <= k < |s'| && s'[k] <= i && (k < |e'| ==> i < e'[k]);
      assert k < |s| && s[k] == s'[k];
      assert k < |e| ==> e[k] == e'[k];
    }
  }

  lemma RunsExtend(row: seq<bool>, n: nat, s: seq<nat>, e: seq<nat>, s': seq<nat>, e': seq<nat>)
    requires 0 < n && RunsUpTo(row, n - 1, s, e)
    requires s' == if !At(row, n - 2) && At(row, n - 1) then s + [n - 1] else s
    requires e' == if At(row, n - 2) && !At(row, n - 1) then e + [n - 1] else e
    ensures RunsUpTo(row, n, s', e')
  {
    forall i | i < n
      ensures At(row, i) <==> InRun(s', e', i)
    {
      RunsMembership(row, n, s, e, s', e', i);
    }
  }

  lemma {:induction false} RunsOfPrefix(row: seq<bool>, n: nat)
    requires n <= |row| + 1
    ensures RunsUpTo(row, n, FlatNonZero(Rising(row)[..n]), FlatNonZero(Falling(row)[..n]))
  {
    if n > 0 {
      RunsOfPrefix(row, n - 1);
      assert Rising(row)[..n][..n - 1] == Rising(row)[..n - 1];
      assert Falling(row)[..n][..n - 1] == Falling(row)[..n - 1];
      RunsExtend(row, n, FlatNonZero(Rising(row)[..n - 1]), FlatNonZero(Falling(row)[..n - 1]),
                 FlatNonZero(Rising(row)[..n]), FlatNonZero(Falling(row)[..n]));
    }
  }

  /** `zip` of starts and inclusive ends. */
  function Zip(starts: seq<nat>, ends: seq<nat>): (runs: seq<(nat, nat)>)
    requires |starts| == |ends| && forall k :: 0 <= k < |ends| ==> ends[k] > 0
  {
    seq(|starts|, k requires 0 <= k < |starts| => (starts[k], ends[k] - 1))
  }

  /** Maximal runs: ordered, separated by at least one clear pixel, covering exactly the set pixels. */
  ghost predicate AreRuns(row: seq<bool>, runs: seq<(nat, nat)>) {
    && (forall k :: 0 <= k < |runs| ==> runs[k].0 <= runs[k].1)
    && (forall j, k :: 0 <= j < k < |runs| ==> runs[j].1 + 1 < runs[k].0)
    && (forall i :: At(row, i) <==> Covered(runs, i))
  }

  ghost predicate Covered(runs: seq<(nat, nat)>, i: int) {
    exists k :: 0 <= k < |runs| && runs[k].0 <= i <= runs[k].1
  }

  lemma ZipCovers(row: seq<bool>, starts: seq<nat>, ends: seq<nat>, i: int)
    requires RunsUpTo(row, |row| + 1, starts, ends)
    ensures At(row, i) <==> Covered(Zip(starts, ends), i)
  {
    var runs := Zip(starts, ends);
    if At(row, i) {
      var k :| 0 <= k < |starts| && starts[k] <= i && (k < |ends| ==> i < ends[k]);
      assert runs[k].0 <= i <= runs[k].1;
    }
    if Covered(runs, i) {
      var k :| 0 <= k < |runs| && runs[k].0 <= i <= runs[k].1;
      assert starts[k] <= i < ends[k];
    }
  }

  /** Differencing the padded row yields as many starts as ends, and pairing them up gives the
      maximal runs. */
  lemma RunsOfRow(row: seq<bool>)
    ensures
      var starts, ends := FlatNonZero(Rising(row)), FlatNonZero(Falling(row));
      && |starts| == |ends|
      && (forall k :: 0 <= k < |ends| ==> ends[k] > 0)
      && AreRuns(row, Zip(starts, ends))
  {
    RunsOfPrefix(row, |row| + 1);
    assert Rising(row)[..|row| + 1] == Rising(row);
    assert Falling(row)[..|row| + 1] == Falling(row);
    var starts, ends := FlatNonZero(Rising(row)), FlatNonZero(Falling(row));
    forall i
      ensures At(row, i) <==> Covered(Zip(starts, ends), i)
    {
      ZipCovers(row, starts, ends, i);
    }
  }

  /** Inclusive column ranges of the runs of `row`, left to right. */
  function Runs(row: seq<bool>): (runs: seq<(nat, nat)>)
    ensures AreRuns(row, runs)
  {
    RunsOfRow(row);
    Zip(FlatNonZero(Rising(row)), FlatNonZero(Falling(row)))
  }
}
