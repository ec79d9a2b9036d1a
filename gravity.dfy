/** apply_gravity: every column's tiles fall to the bottom, keeping their order. */
module Gravity {
  import opened Board

  function Nones(n: nat): (s: seq<Cell>)
    ensures |s| == n && forall i :: 0 <= i < n ==> s[i] == None
  {
    seq(n, i => None)
  }

  /** A column after the fall: its empty cells on top, then its tiles in order. */
  function Packed(s: seq<Cell>): (p: seq<Cell>)
    ensures |p| == |s|
  {
    Nones(|s| - |Filled(s)|) + Filled(s)
  }

  /** No empty cell lies below a tile. */
  predicate IsPacked(s: seq<Cell>) {
    forall i, j :: 0 <= i < j < |s| && s[i].Some? ==> s[j].Some?
  }

  /** The whole board after gravity, column by column. */
  function GravityOf(g: Grid): (g': Grid)
    requires IsGrid(g)
    ensures IsGrid(g')
  {
    seq(N, r requires 0 <= r < N => seq(N, c requires 0 <= c < N => Packed(Column(g, c))[r]))
  }

  // ---------------------------------------------------------------
  // Properties

  lemma FilledOfNones(n: nat)
    ensures Filled(Nones(n)) == []
  {
    if n > 0 {
      assert Nones(n)[..n - 1] == Nones(n - 1);
      FilledOfNones(n - 1);
    }
  }

  lemma {:induction false} FilledOfFilled(s: seq<Cell>)
    ensures Filled(Filled(s)) == Filled(s)
    decreases |s|
  {
    if s != [] {
      var n := |s| - 1;
      FilledOfFilled(s[..n]);
      var tail: seq<Cell> := if s[n].Some? then [s[n]] else [];
      FilledAppend(Filled(s[..n]), tail);
      assert Filled(tail) == tail by {
        if tail != [] {
          assert tail[..0] == [];
        }
      }
    }
  }

  /** Gravity keeps a column's tiles and their top-to-bottom order. */
  lemma PackedKeepsTiles(s: seq<Cell>)
    ensures Filled(Packed(s)) == Filled(s)
  {
    FilledAppend(Nones(|s| - |Filled(s)|), Filled(s));
    FilledOfNones(|s| - |Filled(s)|);
    FilledOfFilled(s);
  }

  /** After gravity no empty cell is below a tile. */
  lemma PackedIsPacked(s: seq<Cell>)
    ensures IsPacked(Packed(s))
  {
  }

  lemma {:induction false} FilledOfEmpties(t: seq<Cell>)
    requires forall i :: 0 <= i < |t| ==> t[i] == None
    ensures Filled(t) == []
    decreases |t|
  {
    if t != [] {
      FilledOfEmpties(t[..|t| - 1]);
    }
  }

  /** A packed column is its empties followed by exactly its tiles. */
  lemma {:induction false} PackedShape(t: seq<Cell>)
    requires IsPacked(t)
    ensures forall i :: 0 <= i < |t| ==> (t[i].Some? <==> i >= |t| - |Filled(t)|)
    ensures Filled(t) == t[|t| - |Filled(t)|..]
    decreases |t|
  {
    if t != [] {
      var n := |t| - 1;
      var u := t[..n];
      assert IsPacked(u);
      PackedShape(u);
      if t[n].None? {
        assert forall i :: 0 <= i < |t| ==> t[i] == None;
        FilledOfEmpties(t);
      } else {
        assert Filled(t) == Filled(u) + [t[n]];
        assert t[|t| - |Filled(t)|..] == u[|u| - |Filled(u)|..] + [t[n]];
      }
    }
  }

  /** A packed column of the right length with the same tiles is the fall's
      result: gravity's outcome is fully determined by "packed" and "same tiles". */
  lemma PackedUnique(s: seq<Cell>, t: seq<Cell>)
    requires |t| == |s| && IsPacked(t) && Filled(t) == Filled(s)
    ensures t == Packed(s)
  {
    PackedShape(t);
    var k := |t| - |Filled(t)|;
    assert t == t[..k] + t[k..];
    assert t[..k] == Nones(k);
  }

  /** Column c of the board after gravity is that column, packed. */
  lemma GravityColumn(g: Grid, c: int)
    requires IsGrid(g) && 0 <= c < N
    ensures Column(GravityOf(g), c) == Packed(Column(g, c))
  {
  }

  lemma {:induction false} GravityKeepsOccupiedFrom(g: Grid, c: int)
    requires IsGrid(g) && 0 <= c
    ensures OccupiedFrom(GravityOf(g), c) == OccupiedFrom(g, c)
    decreases N - c
  {
    if c < N {
      GravityColumn(g, c);
      PackedKeepsTiles(Column(g, c));
      GravityKeepsOccupiedFrom(g, c + 1);
    }
  }

  /** Gravity neither creates nor destroys tiles. */
  lemma GravityKeepsOccupied(g: Grid)
    requires IsGrid(g)
    ensures Occupied(GravityOf(g)) == Occupied(g)
  {
    GravityKeepsOccupiedFrom(g, 0);
  }

  /** Every column after gravity holds the same tiles in the same order, with
      no empty cell below a tile. */
  lemma GravitySettles(g: Grid)
    requires IsGrid(g)
    ensures forall c :: 0 <= c < N ==>
      Filled(Column(GravityOf(g), c)) == Filled(Column(g, c)) && IsPacked(Column(GravityOf(g), c))
  {
    forall c | 0 <= c < N
      ensures Filled(Column(GravityOf(g), c)) == Filled(Column(g, c)) && IsPacked(Column(GravityOf(g), c))
    {
      GravityColumn(g, c);
      PackedKeepsTiles(Column(g, c));
    }
  }

  /** A board whose columns are all packed does not move under gravity. */
  lemma SettledIsFixed(g: Grid)
    requires IsGrid(g)
    requires forall c :: 0 <= c < N ==> IsPacked(Column(g, c))
    ensures GravityOf(g) == g
  {
    forall r, c | 0 <= r < N && 0 <= c < N
      ensures GravityOf(g)[r][c] == g[r][c]
    {
      PackedUnique(Column(g, c), Column(g, c));
    }
    assert forall r | 0 <= r < N :: GravityOf(g)[r] == g[r];
  }

  /** Applying gravity twice is the same as applying it once. */
  lemma GravityIdempotent(g: Grid)
    requires IsGrid(g)
    ensures GravityOf(GravityOf(g)) == GravityOf(g)
  {
    GravitySettles(g);
    SettledIsFixed(GravityOf(g));
  }

  // ---------------------------------------------------------------
  // The in-place method

  lemma PackedAt(s: seq<Cell>, i: int)
    requires 0 <= i < |s|
    ensures Packed(s)[i] == if i >= |s| - |Filled(s)| then Filled(s)[i - (|s| - |Filled(s)|)] else None
  {
  }

  /** The cell the bottom-up rewrite puts at row r: the last tile not yet
      placed, or None once all of them are. */
  lemma FallStep(col: seq<Cell>, column: seq<Cell>, r: int)
    requires |col| == N && 0 <= r < N
    requires |column| == if |Filled(col)| >= N - 1 - r then |Filled(col)| - (N - 1 - r) else 0
    requires column == Filled(col)[..|column|]
    ensures Packed(col)[r] == if column != [] then column[|column| - 1] else None
    ensures var rest := if column != [] then column[..|column| - 1] else column;
      |rest| == (if |Filled(col)| >= N - r then |Filled(col)| - (N - r) else 0) &&
      rest == Filled(col)[..|rest|]
  {
    PackedAt(col, r);
  }

  /** The tiles of column c, top to bottom, as apply_gravity collects them. */
  method ColumnTiles(board: array2<Cell>, c: int) returns (column: seq<Cell>)
    requires IsBoard(board) && 0 <= c < N
    ensures column == Filled(Column(Cells(board), c))
  {
    ghost var col := Column(Cells(board), c);
    column := [];
    for r := 0 to N
      invariant column == Filled(col[..r])
    {
      assert col[..r + 1][..r] == col[..r];
      if board[r, c] != None {
        column := column + [board[r, c]];
      }
    }
    assert col[..N] == col;
  }

  /** One column of apply_gravity: collect the column's tiles top to bottom,
      then rewrite it bottom-up, popping tiles and padding with None. */
  method FallColumn(board: array2<Cell>, c: int)
    requires IsBoard(board) && 0 <= c < N
    modifies board
    ensures forall r :: 0 <= r < N ==> board[r, c] == Packed(Column(old(Cells(board)), c))[r]
    ensures forall r, c' :: 0 <= r < N && 0 <= c' < N && c' != c ==> board[r, c'] == old(board[r, c'])
  {
    ghost var col := Column(Cells(board), c);
    var column := ColumnTiles(board, c);
    ghost var k := |Filled(col)|;
    var r := N - 1;
    while r >= 0
      invariant -1 <= r < N
      invariant |column| == if k >= N - 1 - r then k - (N - 1 - r) else 0
      invariant column == Filled(col)[..|column|]
      invariant forall r' :: r < r' < N ==> board[r', c] == Packed(col)[r']
      invariant forall r', c' :: 0 <= r' < N && 0 <= c' < N && c' != c ==> board[r', c'] == old(board[r', c'])
    {
      FallStep(col, column, r);
      var v := if column != [] then column[|column| - 1] else None;
      assert v == Packed(col)[r];
      board[r, c] := v;
      if column != [] {
        column := column[..|column| - 1];
      }
      r := r - 1;
    }
  }

  /** apply_gravity: every column falls, one after the other. */
  method ApplyGravity(board: array2<Cell>)
    requires IsBoard(board)
    modifies board
    ensures Cells(board) == GravityOf(old(Cells(board)))
  {
    ghost var g0 := Cells(board);
    ghost var g1 := GravityOf(g0);
    for c := 0 to N
      invariant forall r, c' :: 0 <= r < N && 0 <= c' < c ==> board[r, c'] == g1[r][c']
      invariant forall r, c' :: 0 <= r < N && c <= c' < N ==> board[r, c'] == g0[r][c']
    {
      assert Column(Cells(board), c) == Column(g0, c);
      FallColumn(board, c);
      GravityColumn(g0, c);
    }
    CellsEqual(board, g1);
  }
}
