/** The 5x5 board shared by both simulator variants: cells, coordinates,
    actions, point updates, columns and the count of occupied cells. */
module Board {

  /** BOARD_SIZE */
  const N: int := 5

  datatype Option<T> = None | Some(value: T)

  /** A cell holds a tile value or is empty (Python's None). */
  type Cell = Option<int>

  /** (row, column), 0-based, row 0 at the top. */
  type Coord = (int, int)

  /** A board as a value: a list of N rows of N cells. */
  type Grid = seq<seq<Cell>>

  predicate IsGrid(g: Grid) {
    |g| == N && forall r :: 0 <= r < N ==> |g[r]| == N
  }

  predicate InBounds(p: Coord) {
    0 <= p.0 < N && 0 <= p.1 < N
  }

  function At(g: Grid, p: Coord): Cell
    requires IsGrid(g) && InBounds(p)
  {
    g[p.0][p.1]
  }

  /** The four steps the flood fill tries, in its order: up, down, left, right. */
  function Dirs(): seq<(int, int)> {
    [(-1, 0), (1, 0), (0, -1), (0, 1)]
  }

  function Step(p: Coord, d: (int, int)): Coord {
    (p.0 + d.0, p.1 + d.1)
  }

  /** 4-directional adjacency: no diagonals. */
  predicate Adjacent(p: Coord, q: Coord) {
    q == (p.0 - 1, p.1) || q == (p.0 + 1, p.1) || q == (p.0, p.1 - 1) || q == (p.0, p.1 + 1)
  }

  /** A cell with a new content, every other cell as before. */
  function SetCell(g: Grid, p: Coord, v: Cell): (g': Grid)
    requires IsGrid(g) && InBounds(p)
    ensures IsGrid(g')
    ensures At(g', p) == v
    ensures forall r, c :: 0 <= r < N && 0 <= c < N && (r, c) != p ==> g'[r][c] == g[r][c]
  {
    g[p.0 := g[p.0][p.1 := v]]
  }

  /** Column c read top to bottom. */
  function Column(g: Grid, c: int): (col: seq<Cell>)
    requires IsGrid(g) && 0 <= c < N
    ensures |col| == N && forall r :: 0 <= r < N ==> col[r] == g[r][c]
  {
    seq(N, r requires 0 <= r < N => g[r][c])
  }

  /** The non-empty cells of a sequence, in their order. */
  function Filled(s: seq<Cell>): (f: seq<Cell>)
    ensures |f| <= |s|
    ensures forall i :: 0 <= i < |f| ==> f[i].Some?
  {
    if s == [] then []
    else Filled(s[..|s| - 1]) + (if s[|s| - 1].Some? then [s[|s| - 1]] else [])
  }

  /** Number of occupied cells in columns c..N-1. */
  function OccupiedFrom(g: Grid, c: int): nat
    requires IsGrid(g) && 0 <= c
    decreases N - c
  {
    if c >= N then 0 else |Filled(Column(g, c))| + OccupiedFrom(g, c + 1)
  }

  /** Number of occupied cells on the board. */
  function Occupied(g: Grid): nat
    requires IsGrid(g)
  {
    OccupiedFrom(g, 0)
  }

  /** The move a player makes: "add" (one more on an occupied tile) or "remove". */
  datatype Action = Add(r: int, c: int) | Remove(r: int, c: int)
  {
    function Cell(): Coord { (r, c) }
  }

  /** What simulate needs of an action: an in-range cell, occupied for "add"
      (incrementing an empty cell raises a TypeError in the source). */
  predicate ValidAction(g: Grid, a: Action)
    requires IsGrid(g)
  {
    InBounds(a.Cell()) && (a.Add? ==> At(g, a.Cell()).Some?)
  }

  /** The board after the user's move. */
  function ApplyAction(g: Grid, a: Action): (g': Grid)
    requires IsGrid(g) && ValidAction(g, a)
    ensures IsGrid(g')
    ensures a.Add? ==> At(g', a.Cell()) == Some(At(g, a.Cell()).value + 1)
    ensures a.Remove? ==> At(g', a.Cell()) == None
    ensures forall r, c :: 0 <= r < N && 0 <= c < N && (r, c) != a.Cell() ==> g'[r][c] == g[r][c]
  {
    match a
    case Add(r, c) => SetCell(g, (r, c), Some(g[r][c].value + 1))
    case Remove(r, c) => SetCell(g, (r, c), None)
  }

  // ---------------------------------------------------------------
  // Counting occupied cells

  lemma {:induction false} FilledUpdate(s: seq<Cell>, i: int, v: Cell)
    requires 0 <= i < |s|
    ensures |Filled(s[i := v])| == |Filled(s)| - (if s[i].Some? then 1 else 0) + (if v.Some? then 1 else 0)
    decreases |s|
  {
    var t := s[i := v];
    var n := |s| - 1;
    assert t[..n] == if i < n then s[..n][i := v] else s[..n];
    if i < n {
      FilledUpdate(s[..n], i, v);
    }
  }

  lemma {:induction false} FilledAppend(a: seq<Cell>, b: seq<Cell>)
    ensures Filled(a + b) == Filled(a) + Filled(b)
    decreases |b|
  {
    if b != [] {
      var n := |b| - 1;
      assert (a + b)[..|a + b| - 1] == a + b[..n];
      FilledAppend(a, b[..n]);
    } else {
      assert a + b == a;
    }
  }

  lemma {:induction false} OccupiedFromSetCell(g: Grid, p: Coord, v: Cell, c: int)
    requires IsGrid(g) && InBounds(p) && 0 <= c
    ensures OccupiedFrom(SetCell(g, p, v), c)
         == OccupiedFrom(g, c) - (if c <= p.1 && At(g, p).Some? then 1 else 0) + (if c <= p.1 && v.Some? then 1 else 0)
    decreases N - c
  {
    if c < N {
      var g' := SetCell(g, p, v);
      OccupiedFromSetCell(g, p, v, c + 1);
      if c == p.1 {
        assert Column(g', c) == Column(g, c)[p.0 := v];
        FilledUpdate(Column(g, c), p.0, v);
      } else {
        assert Column(g', c) == Column(g, c);
      }
    }
  }

  /** Writing one cell changes the occupied count by at most one, as its old
      and new contents say. */
  lemma OccupiedSetCell(g: Grid, p: Coord, v: Cell)
    requires IsGrid(g) && InBounds(p)
    ensures Occupied(SetCell(g, p, v))
         == Occupied(g) - (if At(g, p).Some? then 1 else 0) + (if v.Some? then 1 else 0)
  {
    OccupiedFromSetCell(g, p, v, 0);
  }

  // ---------------------------------------------------------------
  // The working board: a 5x5 array updated in place

  predicate IsBoard(b: array2<Cell>) {
    b.Length0 == N && b.Length1 == N
  }

  /** The value a board array holds. */
  ghost function Cells(b: array2<Cell>): (g: Grid)
    reads b
    requires IsBoard(b)
    ensures IsGrid(g)
    ensures forall r, c :: 0 <= r < N && 0 <= c < N ==> g[r][c] == b[r, c]
  {
    seq(N, r requires 0 <= r < N reads b =>
      seq(N, c requires 0 <= c < N reads b => b[r, c]))
  }

  lemma CellsEqual(b: array2<Cell>, g: Grid)
    requires IsBoard(b) && IsGrid(g)
    requires forall r, c :: 0 <= r < N && 0 <= c < N ==> b[r, c] == g[r][c]
    ensures Cells(b) == g
  {
    forall r | 0 <= r < N
      ensures Cells(b)[r] == g[r]
    {
    }
  }

  /** board[r][c] = v */
  method Write(b: array2<Cell>, p: Coord, v: Cell)
    requires IsBoard(b) && InBounds(p)
    modifies b
    ensures Cells(b) == SetCell(old(Cells(b)), p, v)
  {
    ghost var before := Cells(b);
    b[p.0, p.1] := v;
    CellsEqual(b, SetCell(before, p, v));
  }

  /** The user's move, in place: board[r][c] += 1 for "add", None for "remove". */
  method Act(b: array2<Cell>, a: Action)
    requires IsBoard(b) && ValidAction(Cells(b), a)
    modifies b
    ensures Cells(b) == ApplyAction(old(Cells(b)), a)
  {
    var (r, c) := a.Cell();
    if a.Add? {
      Write(b, (r, c), Some(b[r, c].value + 1));
    } else {
      Write(b, (r, c), None);
    }
  }

  /** copy.deepcopy of a board: a fresh array with the same cells. */
  method Copy(src: array2<Cell>) returns (dst: array2<Cell>)
    requires IsBoard(src)
    ensures fresh(dst) && IsBoard(dst)
    ensures Cells(dst) == Cells(src)
  {
    dst := new Cell[N, N]((r, c) requires 0 <= r < N && 0 <= c < N reads src => src[r, c]);
    CellsEqual(dst, Cells(src));
  }
}
