/** scan.py's variant of the simulator: simulate lets the board fall once
    right after the action and also counts the merged cells; the input
    sliders give 0 for an empty cell, which is turned into None before the
    simulator sees the board. */
module ScanSimulator {
  import opened Board
  import opened Gravity
  import opened Chain

  // ---------------------------------------------------------------
  // Input normalisation

  /** The raw slider grid: N rows of N integers, 0 meaning "empty". */
  predicate IsRaw(raw: seq<seq<int>>) {
    |raw| == N && forall r :: 0 <= r < N ==> |raw[r]| == N
  }

  /** The slider values as board cells, before normalisation. */
  function Lift(raw: seq<seq<int>>): (g: Grid)
    requires IsRaw(raw)
    ensures IsGrid(g)
  {
    seq(N, r requires 0 <= r < N => seq(N, c requires 0 <= c < N => Some(raw[r][c])))
  }

  /** The slider value a cell shows: an empty cell shows 0. */
  function Lower(g: Grid): (raw: seq<seq<int>>)
    requires IsGrid(g)
    ensures IsRaw(raw)
  {
    seq(N, r requires 0 <= r < N => seq(N, c requires 0 <= c < N => if g[r][c].Some? then g[r][c].value else 0))
  }

  /** A cell after normalisation: a tile of value 0 becomes an empty cell. */
  function NormalCell(x: Cell): Cell {
    if x == Some(0) then None else x
  }

  /** The board after every 0 has been replaced by None. */
  function Normalised(g: Grid): (g': Grid)
    requires IsGrid(g)
    ensures IsGrid(g')
  {
    seq(N, r requires 0 <= r < N => seq(N, c requires 0 <= c < N => NormalCell(g[r][c])))
  }

  /** No tile of value 0 is left. */
  predicate NoZeroTile(g: Grid)
    requires IsGrid(g)
  {
    forall r, c :: 0 <= r < N && 0 <= c < N ==> g[r][c] != Some(0)
  }

  /** After normalisation no tile holds 0, every other tile keeps its value,
      and an empty cell stays empty. */
  lemma NormalisedSpec(g: Grid)
    requires IsGrid(g)
    ensures NoZeroTile(Normalised(g))
    ensures forall r, c :: 0 <= r < N && 0 <= c < N && g[r][c] != Some(0) ==> Normalised(g)[r][c] == g[r][c]
    ensures forall r, c :: 0 <= r < N && 0 <= c < N && g[r][c] == Some(0) ==> Normalised(g)[r][c] == None
  {
  }

  /** Normalisation leaves a board unchanged exactly when it has no 0 tile. */
  lemma NormalisedFixedIff(g: Grid)
    requires IsGrid(g)
    ensures Normalised(g) == g <==> NoZeroTile(g)
  {
    if NoZeroTile(g) {
      assert forall r | 0 <= r < N :: Normalised(g)[r] == g[r];
    } else {
      var r, c :| 0 <= r < N && 0 <= c < N && g[r][c] == Some(0);
      assert Normalised(g)[r][c] == None;
    }
  }

  /** Normalising twice is normalising once. */
  lemma NormalisedIdempotent(g: Grid)
    requires IsGrid(g)
    ensures Normalised(Normalised(g)) == Normalised(g)
  {
    NormalisedFixedIff(Normalised(g));
  }

  /** Reading the normalised board back as slider values gives the sliders:
      turning 0 into None loses nothing. */
  lemma NormalisedRoundTrip(raw: seq<seq<int>>)
    requires IsRaw(raw)
    ensures Lower(Normalised(Lift(raw))) == raw
  {
    assert forall r | 0 <= r < N :: Lower(Normalised(Lift(raw)))[r] == raw[r];
  }

  /** The normalisation loop: every cell holding 0 is set to None, in place. */
  method ZerosToNone(board: array2<Cell>)
    requires IsBoard(board)
    modifies board
    ensures Cells(board) == Normalised(old(Cells(board)))
  {
    ghost var g := Cells(board);
    ghost var g' := Normalised(g);
    for r := 0 to N
      invariant forall r', c :: 0 <= r' < r && 0 <= c < N ==> board[r', c] == g'[r'][c]
      invariant forall r', c :: r <= r' < N && 0 <= c < N ==> board[r', c] == g[r'][c]
    {
      for c := 0 to N
        invariant forall r', c' :: 0 <= r' < r && 0 <= c' < N ==> board[r', c'] == g'[r'][c']
        invariant forall c' :: 0 <= c' < c ==> board[r, c'] == g'[r][c']
        invariant forall r', c' :: r <= r' < N && 0 <= c' < N && (r' != r || c' >= c) ==> board[r', c'] == g[r'][c']
      {
        if board[r, c] == Some(0) {
          board[r, c] := None;
        }
      }
    }
    CellsEqual(board, g');
  }

  // ---------------------------------------------------------------
  // The class

  class MergeGameSimulator {
    /** The initial board; never written. */
    const board: array2<Cell>

    constructor(board: array2<Cell>)
      requires IsBoard(board)
      ensures this.board == board
    {
      this.board := board;
    }

    /** simulate: copy the board, apply the action, let the tiles fall once,
        then find, merge and let fall until no cluster is left, adding up the
        merged cells. The initial board is not modified. */
    method Simulate(action: Action, maxValue: int) returns (fallCount: nat, totalMerged: nat, final: array2<Cell>)
      requires IsBoard(board) && ValidAction(Cells(board), action)
      ensures fresh(final) && IsBoard(final)
      ensures fallCount == SimulateScan(old(Cells(board)), action, maxValue).falls
      ensures totalMerged == SimulateScan(old(Cells(board)), action, maxValue).merged
      ensures Cells(final) == SimulateScan(old(Cells(board)), action, maxValue).board
    {
      ghost var g := Cells(board);
      final := Copy(board);
      Act(final, action);
      ghost var outcome := SimulateScan(g, action, maxValue);
      fallCount, totalMerged := 0, 0;
      ApplyGravity(final);
      while true
        invariant fresh(final) && IsBoard(final)
        invariant Settle(Cells(final), Some(action), fallCount, maxValue).falls == outcome.falls
        invariant Settle(Cells(final), Some(action), fallCount, maxValue).board == outcome.board
        invariant totalMerged + Settle(Cells(final), Some(action), fallCount, maxValue).merged == outcome.merged
        decreases Occupied(Cells(final))
      {
        ghost var gi := Cells(final);
        var found, merged := MergeAndFall(final, fallCount, Some(action), maxValue);
        if !found {
          SettleStable(gi, Some(action), fallCount, maxValue);
          assert fallCount == outcome.falls && Cells(final) == outcome.board && totalMerged == outcome.merged;
          break;
        }
        SettleUnfold(gi, Some(action), fallCount, maxValue);
        totalMerged := totalMerged + merged;
        fallCount := fallCount + 1;
      }
    }
  }
}
