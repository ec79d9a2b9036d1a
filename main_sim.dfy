/** main.py's MergeGameSimulator: simulate one action on a copy of the board,
    and search every "add" and "remove" on an occupied cell for the one that
    gives the most falls. */
module MainSimulator {
  import opened Board
  import opened Clusters
  import opened Chain

  // ---------------------------------------------------------------
  // The order in which find_best_action tries actions

  /** The column indices from `top` down to 0, as range(top, -1, -1). */
  function Descending(top: int): (cs: seq<int>)
    requires top >= -1
    ensures |cs| == top + 1
    ensures top >= 0 ==> cs[0] == top && cs[|cs| - 1] == 0
    ensures forall k :: 0 < k < |cs| ==> cs[k] == cs[k - 1] - 1
  {
    seq(top + 1, k => top - k)
  }

  /** The k-th column of range(top, -1, -1) is top - k. */
  lemma {:induction false} DescendingAt(top: int, k: int)
    requires top >= 0 && 0 <= k <= top
    ensures Descending(top)[k] == top - k
    decreases k
  {
    if k > 0 {
      DescendingAt(top, k - 1);
    }
  }

  /** The two actions tried on a cell: none on an empty cell, else "add"
      then "remove". */
  function CellCandidates(g: Grid, r: int, c: int): (acts: seq<Action>)
    requires IsGrid(g) && 0 <= r < N && 0 <= c < N
    ensures forall a :: a in acts ==> ValidAction(g, a) && a.Cell() == (r, c) && g[r][c].Some?
    ensures g[r][c].Some? ==> Add(r, c) in acts && Remove(r, c) in acts
  {
    if g[r][c].Some? then [Add(r, c), Remove(r, c)] else []
  }

  /** The actions tried in row r on its first k columns, right to left. */
  function RowCandidates(g: Grid, r: int, k: int): (acts: seq<Action>)
    requires IsGrid(g) && 0 <= r < N && 0 <= k <= N
    ensures forall a :: a in acts ==> ValidAction(g, a) && a.r == r && N - k <= a.c && At(g, a.Cell()).Some?
    ensures forall c :: N - k <= c < N && g[r][c].Some? ==> Add(r, c) in acts && Remove(r, c) in acts
  {
    if k == 0 then [] else RowCandidates(g, r, k - 1) + CellCandidates(g, r, N - k)
  }

  /** The actions tried in rows 0 .. r - 1. */
  function RowsCandidates(g: Grid, r: int): (acts: seq<Action>)
    requires IsGrid(g) && 0 <= r <= N
    ensures forall a :: a in acts ==> ValidAction(g, a) && a.r < r && At(g, a.Cell()).Some?
    ensures forall r', c :: 0 <= r' < r && 0 <= c < N && g[r'][c].Some? ==> Add(r', c) in acts && Remove(r', c) in acts
  {
    if r == 0 then [] else RowsCandidates(g, r - 1) + RowCandidates(g, r - 1, N)
  }

  /** Every action find_best_action tries, in its order: rows top to bottom,
      columns right to left, "add" before "remove". */
  function Candidates(g: Grid): (acts: seq<Action>)
    requires IsGrid(g)
    ensures forall a :: a in acts ==> ValidAction(g, a) && InBounds(a.Cell()) && At(g, a.Cell()).Some?
    ensures forall r, c :: 0 <= r < N && 0 <= c < N && g[r][c].Some? ==> Add(r, c) in acts && Remove(r, c) in acts
  {
    RowsCandidates(g, N)
  }

  // ---------------------------------------------------------------
  // Keeping the best

  /** An action and the fall count simulating it gives. */
  type Scored = (Action, nat)

  /** The fall count main.py's simulate gives each action it can take (0 for
      any other action, which the search never tries). */
  function FallsOf(g: Grid, maxValue: int): Action -> nat
    requires IsGrid(g)
  {
    a => if ValidAction(g, a) then SimulateMain(g, a, maxValue).falls else 0
  }

  lemma FallsOfValid(g: Grid, a: Action, maxValue: int)
    requires IsGrid(g) && ValidAction(g, a)
    ensures FallsOf(g, maxValue)(a) == SimulateMain(g, a, maxValue).falls
  {
  }

  /** The score of every candidate, in order. */
  function ScoreAll(acts: seq<Action>, score: Action -> nat): (s: seq<Scored>)
    ensures |s| == |acts|
    ensures forall i :: 0 <= i < |s| ==> s[i] == (acts[i], score(acts[i]))
  {
    seq(|acts|, i requires 0 <= i < |acts| => (acts[i], score(acts[i])))
  }

  /** What the search keeps: the best fall count so far and its action. */
  datatype Best = Best(maxFall: nat, action: Option<Action>)

  /** One comparison of find_best_action: an "add" wins ties (>=), a
      "remove" must do strictly better (>). */
  function Consider(b: Best, e: Scored): Best {
    if e.0.Add? && e.1 >= b.maxFall then Best(e.1, Some(e.0))
    else if e.0.Remove? && e.1 > b.maxFall then Best(e.1, Some(e.0))
    else b
  }

  /** The comparisons over a whole list, from max_fall_count = 0 and no action. */
  function Pick(s: seq<Scored>): Best {
    if s == [] then Best(0, None) else Consider(Pick(s[..|s| - 1]), s[|s| - 1])
  }

  // An independent description of the winner.

  /** The largest fall count in the list, or 0. */
  function MaxFall(s: seq<Scored>): (m: nat)
    ensures forall i :: 0 <= i < |s| ==> s[i].1 <= m
    ensures m == 0 || exists i :: 0 <= i < |s| && s[i].1 == m
  {
    if s == [] then 0
    else
      var m := MaxFall(s[..|s| - 1]);
      assert forall i :: 0 <= i < |s| - 1 ==> s[..|s| - 1][i] == s[i];
      if s[|s| - 1].1 > m then s[|s| - 1].1 else m
  }

  /** No "add" after entry i has fall count m. */
  predicate NoAddAfter(s: seq<Scored>, i: int, m: nat) {
    forall j :: 0 <= i < j < |s| ==> !(s[j].0.Add? && s[j].1 == m)
  }

  /** No "remove" before entry i has fall count m. */
  predicate NoRemoveBefore(s: seq<Scored>, i: int, m: nat) {
    forall j :: 0 <= j < i && j < |s| ==> !(s[j].0.Remove? && s[j].1 == m)
  }

  /** The last "add" in the list with fall count m. */
  function LastAddWith(s: seq<Scored>, m: nat): (a: Option<Action>)
    ensures a.Some? ==> exists i :: 0 <= i < |s| && s[i] == (a.value, m) && a.value.Add? && NoAddAfter(s, i, m)
    ensures a.Some? <==> exists i :: 0 <= i < |s| && s[i].0.Add? && s[i].1 == m
  {
    if s == [] then None
    else if s[|s| - 1].0.Add? && s[|s| - 1].1 == m then Some(s[|s| - 1].0)
    else
      var a := LastAddWith(s[..|s| - 1], m);
      assert forall i :: 0 <= i < |s| - 1 ==> s[..|s| - 1][i] == s[i];
      a
  }

  /** The first "remove" in the list with fall count m. */
  function FirstRemoveWith(s: seq<Scored>, m: nat): (a: Option<Action>)
    ensures a.Some? ==> exists i :: 0 <= i < |s| && s[i] == (a.value, m) && a.value.Remove? && NoRemoveBefore(s, i, m)
    ensures a.Some? <==> exists i :: 0 <= i < |s| && s[i].0.Remove? && s[i].1 == m
  {
    if s == [] then None
    else
      var a := FirstRemoveWith(s[..|s| - 1], m);
      assert forall i :: 0 <= i < |s| - 1 ==> s[..|s| - 1][i] == s[i];
      if a.Some? then a
      else if s[|s| - 1].0.Remove? && s[|s| - 1].1 == m then Some(s[|s| - 1].0)
      else None
  }

  /** The winner: the largest fall count; the last "add" reaching it; if no
      "add" does, the first "remove" reaching it, provided it beats 0. */
  function Winner(s: seq<Scored>): Best {
    var m := MaxFall(s);
    var add := LastAddWith(s, m);
    Best(m, if add.Some? then add else if m > 0 then FirstRemoveWith(s, m) else None)
  }

  /** The comparisons of find_best_action select exactly the winner. */
  lemma {:induction false} PickIsWinner(s: seq<Scored>)
    ensures Pick(s) == Winner(s)
    decreases |s|
  {
    if s != [] {
      var n := |s| - 1;
      assert s == s[..n] + [s[n]];
      PickIsWinner(s[..n]);
      WinnerSnoc(s[..n], s[n]);
    }
  }

  /** One more entry changes the winner exactly as one more comparison does. */
  lemma WinnerSnoc(s: seq<Scored>, e: Scored)
    ensures Winner(s + [e]) == Consider(Winner(s), e)
  {
    var t := s + [e];
    assert t[..|t| - 1] == s;
    var m := MaxFall(s);
    if e.0.Remove? && e.1 <= m && m > 0 && LastAddWith(s, m).None? {
      // the maximum of s is reached, and not by an "add": by a "remove"
      var i :| 0 <= i < |s| && s[i].1 == m;
      assert s[i].0.Remove?;
    }
  }

  /** max_fall_count is at least the fall count of every candidate, and is
      reached by the chosen action when there is one. */
  lemma PickBounds(s: seq<Scored>)
    ensures forall i :: 0 <= i < |s| ==> s[i].1 <= Pick(s).maxFall
    ensures Pick(s).action.Some? ==> (Pick(s).action.value, Pick(s).maxFall) in s
    ensures Pick(s).action.None? ==> Pick(s).maxFall == 0
  {
    PickIsWinner(s);
    var w := Winner(s);
    if w.action.Some? {
      var i :| 0 <= i < |s| && s[i] == (w.action.value, w.maxFall);
    }
  }

  /** An occupied cell offers an "add" with fall count >= 0, so the search
      picks an action exactly when the board has a tile. */
  lemma PickSomeIffAdd(s: seq<Scored>)
    ensures Pick(s).action.Some? <==> exists i :: 0 <= i < |s| && (s[i].0.Add? || s[i].1 > 0)
  {
    PickIsWinner(s);
    var m := MaxFall(s);
    if exists i :: 0 <= i < |s| && (s[i].0.Add? || s[i].1 > 0) {
      var i :| 0 <= i < |s| && (s[i].0.Add? || s[i].1 > 0);
      if m == 0 {
        assert s[i].0.Add? && s[i].1 == m;
      }
    }
  }

  // ---------------------------------------------------------------
  // The human-readable form

  /** ("add" | "remove", row from the top, column from the left), counted
      from 1. */
  datatype Readable = Readable(kind: string, fromTop: int, fromLeft: int)

  function ToReadable(a: Action): (h: Readable)
  {
    Readable(if a.Add? then "add" else "remove", a.r + 1, a.c + 1)
  }

  function FromReadable(h: Readable): (a: Action)
  {
    if h.kind == "add" then Add(h.fromTop - 1, h.fromLeft - 1) else Remove(h.fromTop - 1, h.fromLeft - 1)
  }

  /** The readable form loses nothing: the action is recovered from it. */
  lemma ReadableRoundTrip(a: Action)
    ensures FromReadable(ToReadable(a)) == a
    ensures ToReadable(a).fromTop == a.r + 1 && ToReadable(a).fromLeft == a.c + 1
  {
    assert "add" != "remove" by {
      assert "add"[0] != "remove"[0];
    }
  }

  function ReadableOf(a: Option<Action>): Option<Readable> {
    if a.Some? then Some(ToReadable(a.value)) else None
  }

  // ---------------------------------------------------------------
  // The column scan as written

  /** main.py walks the columns as range(BOARD_SIZE, -1, -1): its first probe
      is board[0][5], one past the last column, so every call raises before
      trying any action. */
  lemma ColumnsAsWrittenOverrun()
    ensures Descending(N)[0] == N
    ensures !InBounds((0, Descending(N)[0]))
  {
  }

  /** With range(BOARD_SIZE - 1, -1, -1) every column is probed once, right to
      left, as the scan below does. */
  lemma ColumnsCorrected(cs: seq<int>)
    requires cs == Descending(N - 1)
    ensures |cs| == N && NoDup(cs)
    ensures forall c :: 0 <= c < N <==> c in cs
  {
    forall k | 0 <= k < N
      ensures cs[k] == N - 1 - k
    {
      DescendingAt(N - 1, k);
    }
    forall c | 0 <= c < N
      ensures c in cs
    {
      assert cs[N - 1 - c] == c;
    }
  }

  /** The actions tried before row r, column N - 1 - k is reached. */
  function Probed(g: Grid, r: int, k: int): (acts: seq<Action>)
    requires IsGrid(g) && 0 <= r <= N && 0 <= k <= N && (r == N ==> k == 0)
    ensures forall a :: a in acts ==> ValidAction(g, a)
  {
    RowsCandidates(g, r) + if r < N then RowCandidates(g, r, k) else []
  }

  /** What the search holds at that point. */
  function Searched(g: Grid, r: int, k: int, score: Action -> nat): Best
    requires IsGrid(g) && 0 <= r <= N && 0 <= k <= N && (r == N ==> k == 0)
  {
    Pick(ScoreAll(Probed(g, r, k), score))
  }

  /** Scoring a list of candidates scores each part of it in turn. */
  lemma ScoreAllAppend(acts: seq<Action>, more: seq<Action>, score: Action -> nat)
    ensures ScoreAll(acts + more, score) == ScoreAll(acts, score) + ScoreAll(more, score)
  {
  }

  /** Two more entries are two more comparisons at the end. */
  lemma PickTwoMore(s: seq<Scored>, e1: Scored, e2: Scored)
    ensures Pick(s + [e1, e2]) == Consider(Consider(Pick(s), e1), e2)
  {
    assert (s + [e1, e2])[..|s| + 1] == s + [e1];
    assert (s + [e1])[..|s|] == s;
  }

  /** Probing the cell at column N - 1 - k compares its "add", then its
      "remove", when it holds a tile, and nothing otherwise. */
  lemma SearchStep(g: Grid, r: int, k: int, score: Action -> nat, before: Best, after: Best)
    requires IsGrid(g) && 0 <= r < N && 0 <= k < N
    requires before == Searched(g, r, k, score)
    requires var c := N - 1 - k;
      after == if g[r][c].Some? then
        Consider(Consider(before, (Add(r, c), score(Add(r, c)))), (Remove(r, c), score(Remove(r, c))))
      else before
    ensures after == Searched(g, r, k + 1, score)
  {
    var c := N - 1 - k;
    var s := ScoreAll(Probed(g, r, k), score);
    assert ScoreAll(Probed(g, r, k + 1), score) == s + ScoreAll(CellCandidates(g, r, c), score) by {
      ProbedStep(g, r, k);
      ScoreAllAppend(Probed(g, r, k), CellCandidates(g, r, c), score);
    }
    ScoreCell(g, r, c, score);
    if g[r][c].Some? {
      PickTwoMore(s, (Add(r, c), score(Add(r, c))), (Remove(r, c), score(Remove(r, c))));
    } else {
      assert s + [] == s;
    }
  }

  /** The scored candidates of one cell: "add" then "remove" on a tile, none
      on an empty cell. */
  lemma ScoreCell(g: Grid, r: int, c: int, score: Action -> nat)
    requires IsGrid(g) && 0 <= r < N && 0 <= c < N
    ensures ScoreAll(CellCandidates(g, r, c), score)
         == if g[r][c].Some? then [(Add(r, c), score(Add(r, c))), (Remove(r, c), score(Remove(r, c)))] else []
  {
  }

  /** Moving one column left adds that cell's candidates at the end. */
  lemma ProbedStep(g: Grid, r: int, k: int)
    requires IsGrid(g) && 0 <= r < N && 0 <= k < N
    ensures Probed(g, r, k + 1) == Probed(g, r, k) + CellCandidates(g, r, N - 1 - k)
  {
    var rows, row, cell := RowsCandidates(g, r), RowCandidates(g, r, k), CellCandidates(g, r, N - 1 - k);
    assert RowCandidates(g, r, k + 1) == row + cell;
    assert rows + (row + cell) == (rows + row) + cell;
  }

  /** The end of a row is the start of the next one. */
  lemma SearchRowEnd(g: Grid, r: int, score: Action -> nat)
    requires IsGrid(g) && 0 <= r < N
    ensures Searched(g, r, N, score) == Searched(g, r + 1, 0, score)
  {
    assert Probed(g, r + 1, 0) == Probed(g, r, N);
  }

  // ---------------------------------------------------------------
  // The class

  class MergeGameSimulator {
    /** The initial board; never written. */
    const board: array2<Cell>

    constructor(board: array2<Cell>)
      requires IsBoard(board)
      ensures this.board == board
    {
      this.board := board;
    }

    /** simulate: copy the board, apply the action, then find, merge and let
        fall until no cluster is left. The initial board is not modified. */
    method Simulate(action: Action, maxValue: int) returns (fallCount: nat, final: array2<Cell>)
      requires IsBoard(board) && ValidAction(Cells(board), action)
      ensures fresh(final) && IsBoard(final)
      ensures fallCount == SimulateMain(old(Cells(board)), action, maxValue).falls
      ensures Cells(final) == SimulateMain(old(Cells(board)), action, maxValue).board
    {
      ghost var g := Cells(board);
      final := Copy(board);
      Act(final, action);
      ghost var outcome := SimulateMain(g, action, maxValue);
      fallCount := 0;
      while true
        invariant fresh(final) && IsBoard(final)
        invariant Settle(Cells(final), Some(action), fallCount, maxValue).falls == outcome.falls
        invariant Settle(Cells(final), Some(action), fallCount, maxValue).board == outcome.board
        decreases Occupied(Cells(final))
      {
        ghost var gi := Cells(final);
        var found, _ := MergeAndFall(final, fallCount, Some(action), maxValue);
        if !found {
          SettleStable(gi, Some(action), fallCount, maxValue);
          assert fallCount == outcome.falls && Cells(final) == outcome.board;
          break;
        }
        SettleUnfold(gi, Some(action), fallCount, maxValue);
        fallCount := fallCount + 1;
      }
    }

    /** The body of find_best_action's scan at one cell: on a tile, simulate
        "add" and keep it on a fall count at least the best so far, then
        simulate "remove" and keep it on a strictly larger one. */
    method ProbeCell(r: int, c: int, maxValue: int, maxFall: nat, best: Option<Action>, human: Option<Readable>)
      returns (maxFall': nat, best': Option<Action>, human': Option<Readable>)
      requires IsBoard(board) && 0 <= r < N && 0 <= c < N
      ensures var g, score := Cells(board), FallsOf(Cells(board), maxValue);
        Best(maxFall', best') == if g[r][c].Some? then
          Consider(Consider(Best(maxFall, best), (Add(r, c), score(Add(r, c)))), (Remove(r, c), score(Remove(r, c))))
        else Best(maxFall, best)
      ensures human == ReadableOf(best) ==> human' == ReadableOf(best')
    {
      maxFall', best', human' := maxFall, best, human;
      if board[r, c] != None {
        FallsOfValid(Cells(board), Add(r, c), maxValue);
        FallsOfValid(Cells(board), Remove(r, c), maxValue);
        var addCount, _ := Simulate(Add(r, c), maxValue);
        if addCount >= maxFall' {
          maxFall' := addCount;
          best' := Some(Add(r, c));
          human' := Some(ToReadable(Add(r, c)));
        }
        ghost var afterAdd := Best(maxFall', best');
        assert afterAdd == Consider(Best(maxFall, best), (Add(r, c), addCount));
        var removeCount, _ := Simulate(Remove(r, c), maxValue);
        if removeCount > maxFall' {
          maxFall' := removeCount;
          best' := Some(Remove(r, c));
          human' := Some(ToReadable(Remove(r, c)));
        }
        assert Best(maxFall', best') == Consider(afterAdd, (Remove(r, c), removeCount));
      }
    }

    /** find_best_action with the column scan corrected to run from the last
        column down to 0: tries "add" then "remove" on every occupied cell and
        keeps the winner of the comparisons. */
    method FindBestAction(maxValue: int) returns (bestAction: Option<Action>, human: Option<Readable>, maxFallCount: nat)
      requires IsBoard(board)
      ensures Best(maxFallCount, bestAction) == Pick(ScoreAll(Candidates(Cells(board)), FallsOf(Cells(board), maxValue)))
      ensures Best(maxFallCount, bestAction) == Winner(ScoreAll(Candidates(Cells(board)), FallsOf(Cells(board), maxValue)))
      ensures human == ReadableOf(bestAction)
    {
      ghost var g := Cells(board);
      ghost var score := FallsOf(g, maxValue);
      maxFallCount := 0;
      bestAction := None;
      human := None;
      assert Probed(g, 0, 0) == [];
      for r := 0 to N
        invariant Best(maxFallCount, bestAction) == Searched(g, r, 0, score)
        invariant human == ReadableOf(bestAction)
      {
        var k := 0;
        while k < N
          invariant 0 <= k <= N
          invariant Best(maxFallCount, bestAction) == Searched(g, r, k, score)
          invariant human == ReadableOf(bestAction)
        {
          ghost var before := Best(maxFallCount, bestAction);
          maxFallCount, bestAction, human := ProbeCell(r, N - 1 - k, maxValue, maxFallCount, bestAction, human);
          SearchStep(g, r, k, score, before, Best(maxFallCount, bestAction));
          k := k + 1;
        }
        SearchRowEnd(g, r, score);
      }
      assert Probed(g, N, 0) == Candidates(g);
      PickIsWinner(ScoreAll(Candidates(g), score));
    }
  }
}
