/** merge_clusters: each cluster collapses into one tile worth its first
    cell's value plus its size minus 2, placed on a target cell, unless that
    value reaches the cap. */
module Merge {
  import opened Board
  import opened Clusters

  // ---------------------------------------------------------------
  // Where the merged tile goes

  /** p comes no later than q under the key (-row, column): p is lower, or as
      low and no further right. */
  predicate LowerLeft(p: Coord, q: Coord) {
    p.0 > q.0 || (p.0 == q.0 && p.1 <= q.1)
  }

  /** min(cluster, key=lambda x: (-x[0], x[1])): the bottommost, then leftmost
      cell; on equal keys the earliest one, as Python's min keeps it. */
  function BottomLeft(cl: Cluster): (t: Coord)
    requires cl != []
    ensures t in cl
    ensures forall q :: q in cl ==> LowerLeft(t, q)
  {
    if |cl| == 1 then cl[0]
    else
      var t := BottomLeft(cl[1..]);
      assert forall q :: q in cl ==> q == cl[0] || q in cl[1..];
      if LowerLeft(cl[0], t) then cl[0] else t
  }

  /** The bottommost-then-leftmost cell is the only cell of the cluster that
      comes no later than all the others. */
  lemma BottomLeftUnique(cl: Cluster, t: Coord)
    requires cl != [] && t in cl
    requires forall q :: q in cl ==> LowerLeft(t, q)
    ensures t == BottomLeft(cl)
  {
    var b := BottomLeft(cl);
    assert LowerLeft(t, b) && LowerLeft(b, t);
  }

  /** The action, when there is one, names a cell on the board. */
  predicate ActionInBounds(action: Option<Action>) {
    action.Some? ==> InBounds(action.value.Cell())
  }

  /** The merged tile's cell: the acted-on cell on the first pass after an
      "add", otherwise the bottommost-then-leftmost cell of the cluster. */
  function Target(cl: Cluster, fall: int, action: Option<Action>): (t: Coord)
    requires cl != [] && ActionInBounds(action)
    ensures AllInBounds(cl) ==> InBounds(t)
    ensures action.Some? && action.value.Add? && fall == 0 ==> t == action.value.Cell()
    ensures !(action.Some? && action.value.Add? && fall == 0) ==>
      t in cl && forall q :: q in cl ==> LowerLeft(t, q)
  {
    if action.Some? && action.value.Add? && fall == 0 then action.value.Cell()
    else BottomLeft(cl)
  }

  // ---------------------------------------------------------------
  // Clearing and merging, as functions on the board's value

  predicate AllInBounds(cl: Cluster) {
    forall q :: q in cl ==> InBounds(q)
  }

  /** Every cell of cl is on the board and holds a tile. */
  predicate AllOccupied(g: Grid, cl: Cluster)
    requires IsGrid(g)
  {
    forall q :: q in cl ==> InBounds(q) && At(g, q).Some?
  }

  /** The board with every cell of cl emptied, one cell after the other. */
  function ClearAll(g: Grid, cl: Cluster): (g': Grid)
    requires IsGrid(g) && AllInBounds(cl)
    ensures IsGrid(g')
    ensures forall r, c :: 0 <= r < N && 0 <= c < N ==>
      g'[r][c] == if (r, c) in cl then None else g[r][c]
    decreases |cl|
  {
    if cl == [] then g
    else
      assert forall q :: q in cl <==> q == cl[0] || q in cl[1..];
      ClearAll(SetCell(g, cl[0], None), cl[1..])
  }

  /** The value the cluster's tiles merge into. */
  function NewValue(g: Grid, cl: Cluster): int
    requires IsGrid(g) && cl != [] && InBounds(cl[0]) && At(g, cl[0]).Some?
  {
    At(g, cl[0]).value + (|cl| - 2)
  }

  /** One iteration of merge_clusters' loop: clear the cluster, then place the
      new value on the target cell if it is below the cap. */
  function MergeOne(g: Grid, cl: Cluster, fall: int, action: Option<Action>, maxValue: int): (g': Grid)
    requires IsGrid(g) && cl != [] && AllOccupied(g, cl) && ActionInBounds(action)
    ensures IsGrid(g')
  {
    var cleared := ClearAll(g, cl);
    var nv := NewValue(g, cl);
    if nv < maxValue then SetCell(cleared, Target(cl, fall, action), Some(nv)) else cleared
  }

  /** What find_clusters hands to merge_clusters looks like: non-empty groups
      of distinct occupied cells, no two groups sharing a cell. */
  predicate Mergeable(g: Grid, cls: seq<Cluster>)
    requires IsGrid(g)
  {
    (forall k :: 0 <= k < |cls| ==> cls[k] != [] && NoDup(cls[k]) && AllOccupied(g, cls[k])) &&
    PairwiseDisjoint(cls)
  }

  /** merge_clusters on the board's value: the clusters merged in order. */
  function MergeAll(g: Grid, cls: seq<Cluster>, fall: int, action: Option<Action>, maxValue: int): (g': Grid)
    requires IsGrid(g) && Mergeable(g, cls) && ActionInBounds(action)
    ensures IsGrid(g')
    decreases |cls|
  {
    if cls == [] then g
    else
      MergeOneKeeps(g, cls, fall, action, maxValue);
      MergeAll(MergeOne(g, cls[0], fall, action, maxValue), cls[1..], fall, action, maxValue)
  }

  /** The number of cells merge_clusters consumes (scan.py's return value). */
  function SumSizes(cls: seq<Cluster>): nat {
    if cls == [] then 0 else |cls[0]| + SumSizes(cls[1..])
  }

  // ---------------------------------------------------------------
  // Properties

  /** After one merge every cell of the cluster is empty except the target,
      which holds the new value exactly when it is below the cap; cells
      outside the cluster other than the target are untouched. */
  lemma MergeOneCells(g: Grid, cl: Cluster, fall: int, action: Option<Action>, maxValue: int, q: Coord)
    requires IsGrid(g) && cl != [] && AllOccupied(g, cl) && ActionInBounds(action) && InBounds(q)
    ensures var g' := MergeOne(g, cl, fall, action, maxValue);
      var t := Target(cl, fall, action);
      var nv := At(g, cl[0]).value + |cl| - 2;
      (q == t && nv < maxValue ==> At(g', q) == Some(nv)) &&
      (q == t && nv >= maxValue && q in cl ==> At(g', q) == None) &&
      (q != t && q in cl ==> At(g', q) == None) &&
      (q !in cl && (q != t || nv >= maxValue) ==> At(g', q) == At(g, q))
  {
    var t := Target(cl, fall, action);
    if NewValue(g, cl) < maxValue {
      assert InBounds(t);
    }
  }

  /** Later clusters keep their tiles when an earlier one is merged: the
      merge only empties its own cells and only writes tiles. */
  lemma MergeOneKeeps(g: Grid, cls: seq<Cluster>, fall: int, action: Option<Action>, maxValue: int)
    requires IsGrid(g) && cls != [] && Mergeable(g, cls) && ActionInBounds(action)
    ensures Mergeable(MergeOne(g, cls[0], fall, action, maxValue), cls[1..])
  {
    var g' := MergeOne(g, cls[0], fall, action, maxValue);
    var rest := cls[1..];
    forall k | 0 <= k < |rest|
      ensures AllOccupied(g', rest[k])
    {
      assert rest[k] == cls[k + 1];
      assert Disjoint(cls[0], cls[k + 1]);
      forall q | q in rest[k]
        ensures InBounds(q) && At(g', q).Some?
      {
        MergeOneCells(g, cls[0], fall, action, maxValue, q);
      }
    }
    forall k1, k2 | 0 <= k1 < k2 < |rest|
      ensures Disjoint(rest[k1], rest[k2])
    {
      assert rest[k1] == cls[k1 + 1] && rest[k2] == cls[k2 + 1];
    }
  }

  /** Emptying n distinct tiles removes exactly n tiles. */
  lemma {:induction false} OccupiedClearAll(g: Grid, cl: Cluster)
    requires IsGrid(g) && NoDup(cl) && AllOccupied(g, cl)
    ensures Occupied(ClearAll(g, cl)) == Occupied(g) - |cl|
    decreases |cl|
  {
    if cl != [] {
      var g1 := SetCell(g, cl[0], None);
      OccupiedSetCell(g, cl[0], None);
      forall q | q in cl[1..]
        ensures InBounds(q) && At(g1, q).Some?
      {
        var k :| 0 <= k < |cl[1..]| && cl[1..][k] == q;
        assert cl[k + 1] != cl[0];
      }
      assert NoDup(cl[1..]);
      OccupiedClearAll(g1, cl[1..]);
    }
  }

  /** One merge removes at least |cl| - 1 tiles. */
  lemma OccupiedMergeOne(g: Grid, cl: Cluster, fall: int, action: Option<Action>, maxValue: int)
    requires IsGrid(g) && cl != [] && NoDup(cl) && AllOccupied(g, cl) && ActionInBounds(action)
    ensures Occupied(MergeOne(g, cl, fall, action, maxValue)) + |cl| <= Occupied(g) + 1
  {
    var cleared := ClearAll(g, cl);
    OccupiedClearAll(g, cl);
    if NewValue(g, cl) < maxValue {
      OccupiedSetCell(cleared, Target(cl, fall, action), Some(NewValue(g, cl)));
    }
  }

  /** A whole merge pass removes at least (size - 1) tiles per cluster. */
  lemma {:induction false} OccupiedMergeAll(g: Grid, cls: seq<Cluster>, fall: int, action: Option<Action>, maxValue: int)
    requires IsGrid(g) && Mergeable(g, cls) && ActionInBounds(action)
    ensures Occupied(MergeAll(g, cls, fall, action, maxValue)) + SumSizes(cls) <= Occupied(g) + |cls|
    decreases |cls|
  {
    if cls != [] {
      var g1 := MergeOne(g, cls[0], fall, action, maxValue);
      OccupiedMergeOne(g, cls[0], fall, action, maxValue);
      MergeOneKeeps(g, cls, fall, action, maxValue);
      OccupiedMergeAll(g1, cls[1..], fall, action, maxValue);
    }
  }

  /** Clusters of at least 3 cells consume at least 3 cells each. */
  lemma {:induction false} SumSizesAtLeast(cls: seq<Cluster>)
    requires forall k :: 0 <= k < |cls| ==> |cls[k]| >= 3
    ensures SumSizes(cls) >= 3 * |cls|
    decreases |cls|
  {
    if cls != [] {
      SumSizesAtLeast(cls[1..]);
    }
  }

  /** What find_clusters returns can be merged. */
  lemma FoundAreMergeable(g: Grid)
    requires IsGrid(g)
    ensures Mergeable(g, ClustersOf(g))
    ensures forall k :: 0 <= k < |ClustersOf(g)| ==> |ClustersOf(g)[k]| >= 3
  {
    ClustersSpec(g);
    var cls := ClustersOf(g);
    forall k | 0 <= k < |cls|
      ensures cls[k] != [] && NoDup(cls[k]) && AllOccupied(g, cls[k]) && |cls[k]| >= 3
    {
      assert IsCluster(g, cls[k]);
    }
  }

  /** A merge pass over the clusters of a board removes at least 2 tiles per
      cluster, so a pass with any cluster strictly shrinks the board. */
  lemma MergePassShrinks(g: Grid, fall: int, action: Option<Action>, maxValue: int)
    requires IsGrid(g) && ActionInBounds(action)
    ensures Mergeable(g, ClustersOf(g))
    ensures Occupied(MergeAll(g, ClustersOf(g), fall, action, maxValue)) + SumSizes(ClustersOf(g)) <= Occupied(g) + |ClustersOf(g)|
    ensures SumSizes(ClustersOf(g)) >= 3 * |ClustersOf(g)|
  {
    FoundAreMergeable(g);
    OccupiedMergeAll(g, ClustersOf(g), fall, action, maxValue);
    SumSizesAtLeast(ClustersOf(g));
  }

  // ---------------------------------------------------------------
  // The in-place method

  /** merge_clusters: for each cluster in turn, read its first tile, empty its
      cells, then write the merged tile; returns how many cells were merged. */
  method MergeClusters(board: array2<Cell>, clusters: seq<Cluster>, fall: int, action: Option<Action>, maxValue: int)
    returns (merged: nat)
    requires IsBoard(board) && Mergeable(Cells(board), clusters) && ActionInBounds(action)
    modifies board
    ensures Cells(board) == MergeAll(old(Cells(board)), clusters, fall, action, maxValue)
    ensures merged == SumSizes(clusters)
  {
    ghost var g0 := Cells(board);
    merged := 0;
    for i := 0 to |clusters|
      invariant Mergeable(Cells(board), clusters[i..])
      invariant MergeAll(Cells(board), clusters[i..], fall, action, maxValue) == MergeAll(g0, clusters, fall, action, maxValue)
      invariant merged + SumSizes(clusters[i..]) == SumSizes(clusters)
    {
      ghost var gi := Cells(board);
      assert clusters[i..][0] == clusters[i];
      MergeCluster(board, clusters[i], fall, action, maxValue);
      merged := merged + |clusters[i]|;
      MergeAdvance(gi, Cells(board), clusters, i, fall, action, maxValue);
    }
  }

  /** The body of merge_clusters' loop for one cluster: read the new value
      off its first cell, choose the target, empty every cell, then write the
      merged tile unless it reaches max_value. */
  method MergeCluster(board: array2<Cell>, cluster: Cluster, fall: int, action: Option<Action>, maxValue: int)
    requires IsBoard(board) && cluster != [] && AllOccupied(Cells(board), cluster) && ActionInBounds(action)
    modifies board
    ensures Cells(board) == MergeOne(old(Cells(board)), cluster, fall, action, maxValue)
  {
    ghost var g := Cells(board);
    assert cluster[0] in cluster;
    var base := board[cluster[0].0, cluster[0].1].value;
    var newValue := base + (|cluster| - 2);
    var target := Target(cluster, fall, action);
    for j := 0 to |cluster|
      invariant AllInBounds(cluster[j..])
      invariant ClearAll(Cells(board), cluster[j..]) == ClearAll(g, cluster)
    {
      ghost var gj := Cells(board);
      Write(board, cluster[j], None);
      ClearAdvance(gj, Cells(board), cluster, j);
    }
    assert cluster[|cluster|..] == [];
    assert newValue == NewValue(g, cluster);
    if newValue < maxValue {
      Write(board, target, Some(newValue));
    }
  }

  /** One cell of the clearing loop. */
  lemma ClearAdvance(g: Grid, g': Grid, cl: Cluster, j: int)
    requires IsGrid(g) && 0 <= j < |cl| && AllInBounds(cl[j..])
    requires g' == SetCell(g, cl[j], None)
    ensures AllInBounds(cl[j + 1..])
    ensures ClearAll(g', cl[j + 1..]) == ClearAll(g, cl[j..])
  {
    assert cl[j..][0] == cl[j] && cl[j..][1..] == cl[j + 1..];
  }

  /** One cluster of the merging loop: merging it, then the rest, is merging
      from it on. */
  lemma MergeAdvance(g: Grid, g': Grid, cls: seq<Cluster>, i: int, fall: int, action: Option<Action>, maxValue: int)
    requires IsGrid(g) && 0 <= i < |cls| && Mergeable(g, cls[i..]) && ActionInBounds(action)
    requires g' == MergeOne(g, cls[i], fall, action, maxValue)
    ensures Mergeable(g', cls[i + 1..])
    ensures MergeAll(g', cls[i + 1..], fall, action, maxValue) == MergeAll(g, cls[i..], fall, action, maxValue)
    ensures SumSizes(cls[i..]) == |cls[i]| + SumSizes(cls[i + 1..])
  {
    assert cls[i..][0] == cls[i] && cls[i..][1..] == cls[i + 1..];
    MergeOneKeeps(g, cls[i..], fall, action, maxValue);
  }
}
