/** Greedy, single-pass partitioning of a sequence into contiguous groups.

    Both the chunker (lines into chunks) and the summariser (file groups into
    request batches) walk their input once, appending each item to a current
    group and closing the group just before an item for which a split test
    fires. Such a partition is characterised by two facts: the split test
    holds at every boundary between groups, and fails at every position
    inside a group. `GreedyPartitionUnique` shows that the characterisation
    determines the partition completely. */
module Partition {

  function Flatten<T>(gs: seq<seq<T>>): seq<T> {
    if gs == [] then [] else gs[0] + Flatten(gs[1..])
  }

  /** Appending a group after the others appends its items. */
  lemma {:induction false} FlattenSnoc<T>(gs: seq<seq<T>>, g: seq<T>)
    ensures Flatten(gs + [g]) == Flatten(gs) + g
    decreases |gs|
  {
    if gs == [] {
      assert Flatten([g]) == g + Flatten([]);
    } else {
      assert (gs + [g])[1..] == gs[1..] + [g];
      FlattenSnoc(gs[1..], g);
    }
  }

  /** Extending a prefix by one item. */
  lemma PrefixSnoc<T>(xs: seq<T>, i: nat)
    requires i < |xs|
    ensures xs[..i + 1] == xs[..i] + [xs[i]]
  {
  }

  /** Item `k` of group `j` sits right after the items of the groups before it. */
  lemma {:induction false} FlattenAt<T>(t: seq<seq<T>>, j: nat, k: nat)
    requires j < |t| && k < |t[j]|
    ensures |Flatten(t[..j])| + k < |Flatten(t)|
    ensures Flatten(t)[|Flatten(t[..j])| + k] == t[j][k]
    decreases j
  {
    assert Flatten(t) == t[0] + Flatten(t[1..]);
    if j == 0 {
      assert t[..0] == [];
    } else {
      assert t[..j][1..] == t[1..][..j - 1] && t[..j][0] == t[0];
      assert Flatten(t[..j]) == t[0] + Flatten(t[1..][..j - 1]);
      FlattenAt(t[1..], j - 1, k);
    }
  }

  /** No position inside `g` is a split point: for every proper, non-empty
      prefix of `g`, the split test against the next item fails. */
  ghost predicate Cohesive<T>(g: seq<T>, splits: (seq<T>, T) -> bool) {
    forall k :: 0 < k < |g| ==> !splits(g[..k], g[k])
  }

  /** `gs` cuts `xs` into non-empty contiguous groups exactly at the split points. */
  ghost predicate IsGreedyPartition<T>(gs: seq<seq<T>>, xs: seq<T>, splits: (seq<T>, T) -> bool) {
    && Flatten(gs) == xs
    && (forall j :: 0 <= j < |gs| ==> gs[j] != [] && Cohesive(gs[j], splits))
    && (forall j :: 0 < j < |gs| ==> splits(gs[j - 1], gs[j][0]))
  }

  /** Appending an item at which no split is taken keeps a group cohesive. */
  lemma CohesiveExtend<T>(g: seq<T>, x: T, splits: (seq<T>, T) -> bool)
    requires Cohesive(g, splits)
    requires g != [] ==> !splits(g, x)
    ensures Cohesive(g + [x], splits)
  {
    var h := g + [x];
    forall k | 0 < k < |h|
      ensures !splits(h[..k], h[k])
    {
      if k < |g| {
        assert h[..k] == g[..k] && h[k] == g[k];
      } else {
        assert h[..k] == g && h[k] == x;
      }
    }
  }

  /** The first item of a non-empty partitioned sequence opens the first group. */
  lemma FirstGroupStarts<T>(gs: seq<seq<T>>, xs: seq<T>, splits: (seq<T>, T) -> bool)
    requires IsGreedyPartition(gs, xs, splits) && xs != []
    ensures gs != [] && gs[0][0] == xs[0]
  {
    if gs != [] {
      assert Flatten(gs) == gs[0] + Flatten(gs[1..]);
    }
  }

  /** Flush-before-add grouping: for each item, close the current group when
      it is non-empty and the split test fires, then add the item. */
  function Greedy<T>(xs: seq<T>, cur: seq<T>, splits: (seq<T>, T) -> bool): (gs: seq<seq<T>>)
    requires Cohesive(cur, splits)
    ensures IsGreedyPartition(gs, cur + xs, splits)
    decreases |xs|
  {
    if xs == [] then
      if cur == [] then [] else assert Flatten([cur]) == cur; [cur]
    else
      assert cur + xs == cur + [xs[0]] + xs[1..];
      if cur != [] && splits(cur, xs[0]) then
        var rest := Greedy(xs[1..], [xs[0]], splits);
        FirstGroupStarts(rest, [xs[0]] + xs[1..], splits);
        var gs := [cur] + rest;
        assert gs[1..] == rest;
        gs
      else
        CohesiveExtend(cur, xs[0], splits);
        Greedy(xs[1..], cur + [xs[0]], splits)
  }

  /** Dropping the first group leaves a greedy partition of the rest. */
  lemma PartitionTail<T>(gs: seq<seq<T>>, xs: seq<T>, splits: (seq<T>, T) -> bool)
    requires IsGreedyPartition(gs, xs, splits) && gs != []
    ensures |gs[0]| <= |xs| && xs[..|gs[0]|] == gs[0]
    ensures IsGreedyPartition(gs[1..], xs[|gs[0]|..], splits)
  {
    assert Flatten(gs) == gs[0] + Flatten(gs[1..]);
    var t := gs[1..];
    forall j | 0 < j < |t|
      ensures splits(t[j - 1], t[j][0])
    {
      assert t[j - 1] == gs[j] && t[j] == gs[j + 1];
    }
  }

  /** The boundaries and the cohesion of the groups determine the partition. */
  lemma {:induction false} GreedyPartitionUnique<T>(gs: seq<seq<T>>, hs: seq<seq<T>>, xs: seq<T>,
                                                   splits: (seq<T>, T) -> bool)
    requires IsGreedyPartition(gs, xs, splits) && IsGreedyPartition(hs, xs, splits)
    ensures gs == hs
    decreases |xs|
  {
    if xs == [] {
      if gs != [] { PartitionTail(gs, xs, splits); }
      if hs != [] { PartitionTail(hs, xs, splits); }
    } else {
      FirstGroupStarts(gs, xs, splits);
      FirstGroupStarts(hs, xs, splits);
      PartitionTail(gs, xs, splits);
      PartitionTail(hs, xs, splits);
      var g, h := gs[0], hs[0];
      if |g| < |h| {
        SplitAtBoundary(gs, xs, splits);
        NoSplitInside(hs, xs, |g|, splits);
        assert false;
      } else if |h| < |g| {
        SplitAtBoundary(hs, xs, splits);
        NoSplitInside(gs, xs, |h|, splits);
        assert false;
      } else {
        assert g == xs[..|g|] == h;
        GreedyPartitionUnique(gs[1..], hs[1..], xs[|g|..], splits);
        assert gs == [g] + gs[1..] && hs == [h] + hs[1..];
      }
    }
  }

  /** The item right after the first group is a split point for that group. */
  lemma SplitAtBoundary<T>(gs: seq<seq<T>>, xs: seq<T>, splits: (seq<T>, T) -> bool)
    requires IsGreedyPartition(gs, xs, splits) && gs != [] && |gs[0]| < |xs|
    ensures splits(xs[..|gs[0]|], xs[|gs[0]|])
  {
    PartitionTail(gs, xs, splits);
    FirstGroupStarts(gs[1..], xs[|gs[0]|..], splits);
    assert splits(gs[0], gs[1][0]);
  }

  /** No position inside the first group is a split point. */
  lemma NoSplitInside<T>(gs: seq<seq<T>>, xs: seq<T>, k: nat, splits: (seq<T>, T) -> bool)
    requires IsGreedyPartition(gs, xs, splits) && gs != [] && 0 < k < |gs[0]|
    ensures !splits(xs[..k], xs[k])
  {
    PartitionTail(gs, xs, splits);
    assert gs[0][..k] == xs[..k] && gs[0][k] == xs[k];
    assert Cohesive(gs[0], splits);
  }
}
