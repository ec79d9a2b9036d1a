/** The chain loop of simulate, as a function of the board's value: find the
    clusters, merge them, let the tiles fall, and repeat until no cluster is
    left. Both variants of simulate share it; they differ in what happens
    between the action and the first pass. */
module Chain {
  import opened Board
  import opened Gravity
  import opened Clusters
  import opened Merge

  /** What a run of the chain loop produces: the number of passes (fall
      count), the number of merged cells, and the final board. */
  datatype Outcome = Outcome(falls: nat, merged: nat, board: Grid)

  /** One pass of the loop on a board with clusters: merge them all, then let
      the tiles fall. It leaves fewer tiles than it found. */
  function Pass(g: Grid, fall: nat, action: Option<Action>, maxValue: int): (g': Grid)
    requires IsGrid(g) && ActionInBounds(action)
    ensures IsGrid(g')
    ensures ClustersOf(g) != [] ==> Occupied(g') + 2 * |ClustersOf(g)| <= Occupied(g)
  {
    MergePassShrinks(g, fall, action, maxValue);
    var m := MergeAll(g, ClustersOf(g), fall, action, maxValue);
    GravityKeepsOccupied(m);
    GravityOf(m)
  }

  /** The number of cells one pass merges: the sizes of the board's clusters. */
  function PassMerged(g: Grid): nat
    requires IsGrid(g)
  {
    SumSizes(ClustersOf(g))
  }

  /** The loop from a board on which `fall` passes have already run: the
      final fall count, the cells merged from here on, and the board the loop
      stops on, which is the first one without clusters. */
  function Settle(g: Grid, action: Option<Action>, fall: nat, maxValue: int): (o: Outcome)
    requires IsGrid(g) && ActionInBounds(action)
    ensures IsGrid(o.board)
    decreases Occupied(g)
  {
    if ClustersOf(g) == [] then Outcome(fall, 0, g)
    else
      var rest := Settle(Pass(g, fall, action, maxValue), action, fall + 1, maxValue);
      Outcome(rest.falls, PassMerged(g) + rest.merged, rest.board)
  }

  /** main.py's simulate: the action, then the loop. */
  function SimulateMain(g: Grid, a: Action, maxValue: int): (o: Outcome)
    requires IsGrid(g) && ValidAction(g, a)
    ensures IsGrid(o.board)
  {
    Settle(ApplyAction(g, a), Some(a), 0, maxValue)
  }

  /** scan.py's simulate: the action, one fall, then the loop. */
  function SimulateScan(g: Grid, a: Action, maxValue: int): (o: Outcome)
    requires IsGrid(g) && ValidAction(g, a)
    ensures IsGrid(o.board)
  {
    Settle(GravityOf(ApplyAction(g, a)), Some(a), 0, maxValue)
  }

  // ---------------------------------------------------------------
  // Properties

  /** Whatever the board and the action, the chain ends on a board with no
      cluster of 3 or more, after at most half as many passes as there are
      tiles once the action is applied, having merged at least 3 cells per
      pass. */
  lemma SimulateMainBounds(g: Grid, a: Action, maxValue: int)
    requires IsGrid(g) && ValidAction(g, a)
    ensures ClustersOf(SimulateMain(g, a, maxValue).board) == []
    ensures 2 * SimulateMain(g, a, maxValue).falls <= Occupied(ApplyAction(g, a))
    ensures 3 * SimulateMain(g, a, maxValue).falls <= SimulateMain(g, a, maxValue).merged
  {
    SettleBounds(ApplyAction(g, a), Some(a), 0, maxValue);
  }

  /** The same bounds for scan.py's variant; the merged count never exceeds
      one and a half times the tiles that disappear. */
  lemma SimulateScanBounds(g: Grid, a: Action, maxValue: int)
    requires IsGrid(g) && ValidAction(g, a)
    ensures ClustersOf(SimulateScan(g, a, maxValue).board) == []
    ensures 2 * SimulateScan(g, a, maxValue).falls <= Occupied(ApplyAction(g, a))
    ensures 3 * SimulateScan(g, a, maxValue).falls <= SimulateScan(g, a, maxValue).merged
    ensures 2 * SimulateScan(g, a, maxValue).merged
         <= 3 * (Occupied(ApplyAction(g, a)) - Occupied(SimulateScan(g, a, maxValue).board))
  {
    GravityKeepsOccupied(ApplyAction(g, a));
    SettleBounds(GravityOf(ApplyAction(g, a)), Some(a), 0, maxValue);
  }

  /** What SettleBounds promises of an outcome o of the loop started on g
      after `fall` passes. */
  ghost predicate Bounded(g: Grid, fall: nat, o: Outcome)
    requires IsGrid(g) && IsGrid(o.board)
  {
    ClustersOf(o.board) == [] && o.falls >= fall &&
    Occupied(o.board) + 2 * (o.falls - fall) <= Occupied(g) &&
    3 * (o.falls - fall) <= o.merged &&
    2 * o.merged <= 3 * (Occupied(g) - Occupied(o.board))
  }

  /** The loop stops on a board without clusters, after at most one pass per
      two tiles that disappear, having merged at least 3 cells per pass and at
      most one and a half cells per tile that disappears. */
  lemma {:induction false} SettleBounds(g: Grid, action: Option<Action>, fall: nat, maxValue: int)
    requires IsGrid(g) && ActionInBounds(action)
    ensures Bounded(g, fall, Settle(g, action, fall, maxValue))
    decreases Occupied(g)
  {
    if ClustersOf(g) != [] {
      MergePassShrinks(g, fall, action, maxValue);
      var m := MergeAll(g, ClustersOf(g), fall, action, maxValue);
      GravityKeepsOccupied(m);
      var g' := GravityOf(m);
      SettleStep(g, m, g', action, fall, fall + 1, maxValue);
      SettleBounds(g', action, fall + 1, maxValue);
      var rest := Settle(g', action, fall + 1, maxValue);
      PassArith(Occupied(g), Occupied(g'), |ClustersOf(g)|, PassMerged(g),
                fall, rest.falls, rest.merged, Occupied(rest.board));
    }
  }

  /** The counting behind SettleBounds: a pass of n clusters of s cells in
      all takes the board from o to o' tiles, and the rest of the loop
      satisfies the bounds from o'. */
  lemma PassArith(o: int, o': int, n: int, s: int, fall: int, falls: int, merged: int, oEnd: int)
    requires n >= 1 && s >= 3 * n && o' + s <= o + n
    requires falls >= fall + 1 && oEnd + 2 * (falls - fall - 1) <= o'
    requires 3 * (falls - fall - 1) <= merged && 2 * merged <= 3 * (o' - oEnd)
    ensures oEnd + 2 * (falls - fall) <= o
    ensures 3 * (falls - fall) <= s + merged
    ensures 2 * (s + merged) <= 3 * (o - oEnd)
  {
  }

  /** One pass of the loop: the clusters merge, the tiles fall, the pass
      counter goes up by one and the clusters' sizes are added to the merged
      count. */
  lemma SettleStep(g: Grid, merged': Grid, fallen: Grid, action: Option<Action>, fall: nat, fall1: nat, maxValue: int)
    requires IsGrid(g) && ActionInBounds(action) && ClustersOf(g) != []
    requires Mergeable(g, ClustersOf(g))
    requires merged' == MergeAll(g, ClustersOf(g), fall, action, maxValue)
    requires fallen == GravityOf(merged')
    requires fall1 == fall + 1
    ensures Settle(g, action, fall, maxValue).falls == Settle(fallen, action, fall1, maxValue).falls
    ensures Settle(g, action, fall, maxValue).board == Settle(fallen, action, fall1, maxValue).board
    ensures Settle(g, action, fall, maxValue).merged == PassMerged(g) + Settle(fallen, action, fall1, maxValue).merged
    ensures Occupied(fallen) < Occupied(g)
  {
    SettleUnfold(g, action, fall, maxValue);
    assert fallen == Pass(g, fall, action, maxValue);
  }

  lemma SettleUnfold(g: Grid, action: Option<Action>, fall: nat, maxValue: int)
    requires IsGrid(g) && ActionInBounds(action) && ClustersOf(g) != []
    ensures var rest := Settle(Pass(g, fall, action, maxValue), action, fall + 1, maxValue);
      Settle(g, action, fall, maxValue) == Outcome(rest.falls, PassMerged(g) + rest.merged, rest.board)
  {
  }

  /** The loop makes no pass exactly when the board has no cluster; it then
      merges nothing and stops on that very board. */
  lemma SettleFallsIff(g: Grid, action: Option<Action>, fall: nat, maxValue: int)
    requires IsGrid(g) && ActionInBounds(action)
    ensures Settle(g, action, fall, maxValue).falls == fall <==> ClustersOf(g) == []
    ensures ClustersOf(g) == [] ==> Settle(g, action, fall, maxValue) == Outcome(fall, 0, g)
  {
    if ClustersOf(g) != [] {
      SettleUnfold(g, action, fall, maxValue);
      SettleBounds(Pass(g, fall, action, maxValue), action, fall + 1, maxValue);
    }
  }

  /** main.py's simulate reports no fall exactly when the move leaves no
      cluster; then nothing merges and the final board is the board after
      the move. */
  lemma SimulateMainNoChain(g: Grid, a: Action, maxValue: int)
    requires IsGrid(g) && ValidAction(g, a)
    ensures SimulateMain(g, a, maxValue).falls == 0 <==> ClustersOf(ApplyAction(g, a)) == []
    ensures ClustersOf(ApplyAction(g, a)) == [] ==> SimulateMain(g, a, maxValue) == Outcome(0, 0, ApplyAction(g, a))
  {
    SettleFallsIff(ApplyAction(g, a), Some(a), 0, maxValue);
  }

  /** scan.py's simulate reports no fall exactly when the board after the
      move and one fall has no cluster; then nothing merges and that board is
      the final one. */
  lemma SimulateScanNoChain(g: Grid, a: Action, maxValue: int)
    requires IsGrid(g) && ValidAction(g, a)
    ensures SimulateScan(g, a, maxValue).falls == 0 <==> ClustersOf(GravityOf(ApplyAction(g, a))) == []
    ensures ClustersOf(GravityOf(ApplyAction(g, a))) == [] ==>
      SimulateScan(g, a, maxValue) == Outcome(0, 0, GravityOf(ApplyAction(g, a)))
  {
    SettleFallsIff(GravityOf(ApplyAction(g, a)), Some(a), 0, maxValue);
  }

  /** A board without clusters is returned as it is, after no pass. */
  lemma SettleStable(g: Grid, action: Option<Action>, fall: nat, maxValue: int)
    requires IsGrid(g) && ActionInBounds(action) && ClustersOf(g) == []
    ensures Settle(g, action, fall, maxValue) == Outcome(fall, 0, g)
  {
  }

  /** "add" keeps which cells are occupied, so on a board where every column
      has already fallen, the extra fall scan.py makes changes nothing and both
      variants agree. */
  lemma AddOnSettledAgrees(g: Grid, a: Action, maxValue: int)
    requires IsGrid(g) && ValidAction(g, a) && a.Add?
    requires forall c :: 0 <= c < N ==> IsPacked(Column(g, c))
    ensures SimulateScan(g, a, maxValue) == SimulateMain(g, a, maxValue)
  {
    var g' := ApplyAction(g, a);
    forall c | 0 <= c < N
      ensures IsPacked(Column(g', c))
    {
      var col, col' := Column(g, c), Column(g', c);
      assert IsPacked(col);
      forall i, j | 0 <= i < j < N && col'[i].Some?
        ensures col'[j].Some?
      {
        assert col[i].Some?;
        assert col[j].Some?;
      }
    }
    SettledIsFixed(g');
  }

  // ---------------------------------------------------------------
  // The loop body, in place

  /** One round of simulate's loop on the working board: find the clusters;
      when there are none, report it and leave the board alone; otherwise
      merge them all, let the tiles fall, and return the merged cell count
      that scan.py's merge_clusters reports. */
  method MergeAndFall(board: array2<Cell>, fall: nat, action: Option<Action>, maxValue: int)
    returns (found: bool, merged: nat)
    requires IsBoard(board) && ActionInBounds(action)
    modifies board
    ensures found <==> ClustersOf(old(Cells(board))) != []
    ensures !found ==> Cells(board) == old(Cells(board))
    ensures found ==> Cells(board) == Pass(old(Cells(board)), fall, action, maxValue)
    ensures found ==> merged == PassMerged(old(Cells(board)))
    ensures found ==> Occupied(Cells(board)) < Occupied(old(Cells(board)))
  {
    ghost var g := Cells(board);
    var clusters := FindClusters(board);
    found := clusters != [];
    merged := 0;
    if found {
      FoundAreMergeable(g);
      merged := MergeClusters(board, clusters, fall, action, maxValue);
      ApplyGravity(board);
    }
  }
}
