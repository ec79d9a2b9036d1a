/** find_clusters and its nested dfs: maximal 4-connected groups of equal,
    non-empty cells, kept when they have at least 3 cells. */
module Clusters {
  import opened Board

  type Cluster = seq<Coord>

  function AllCoords(): set<Coord> {
    set r, c | 0 <= r < N && 0 <= c < N :: (r, c)
  }

  lemma InAllCoords(p: Coord)
    requires InBounds(p)
    ensures p in AllCoords()
  {
    assert p == (p.0, p.1);
  }

  // ---------------------------------------------------------------
  // The flood fill as functions: the visited grid is the set `visited`,
  // threaded through the calls as the source's shared grid is.

  /** dfs(r, c, value): nothing for a cell off the board, already visited or
      holding another value; otherwise the cell, then what the fill finds
      through its four neighbours in the order up, down, left, right. */
  function Dfs(g: Grid, p: Coord, v: int, visited: set<Coord>): (res: (Cluster, set<Coord>))
    requires IsGrid(g)
    ensures visited <= res.1
    decreases AllCoords() - visited, 0
  {
    if !InBounds(p) then ([], visited)
    else if p in visited || At(g, p) != Some(v) then ([], visited)
    else
      InAllCoords(p);
      var (rest, visited') := DfsDirs(g, p, v, visited + {p}, Dirs());
      ([p] + rest, visited')
  }

  /** The fill through the neighbours of p in the directions `dirs`, in order. */
  function DfsDirs(g: Grid, p: Coord, v: int, visited: set<Coord>, dirs: seq<(int, int)>): (res: (Cluster, set<Coord>))
    requires IsGrid(g)
    ensures visited <= res.1
    decreases AllCoords() - visited, |dirs|
  {
    if dirs == [] then ([], visited)
    else
      var (a, visited1) := Dfs(g, Step(p, dirs[0]), v, visited);
      var (b, visited2) := DfsDirs(g, p, v, visited1, dirs[1..]);
      (a + b, visited2)
  }

  /** Row-major position (r, c) is at or before p. */
  predicate AtOrAfter(p: Coord, r: int, c: int) {
    p.0 > r || (p.0 == r && p.1 >= c)
  }

  /** The outer loops of find_clusters from position (r, c) on: every occupied,
      unvisited cell starts a fill, whose result is kept if it has >= 3 cells. */
  function Scan(g: Grid, r: int, c: int, visited: set<Coord>): seq<Cluster>
    requires IsGrid(g) && 0 <= r && 0 <= c
    decreases N - r, N - c
  {
    if r >= N then []
    else if c >= N then Scan(g, r + 1, 0, visited)
    else if g[r][c].Some? && (r, c) !in visited then
      var (cl, visited') := Dfs(g, (r, c), g[r][c].value, visited);
      (if |cl| >= 3 then [cl] else []) + Scan(g, r, c + 1, visited')
    else Scan(g, r, c + 1, visited)
  }

  /** What find_clusters returns for a board. */
  function ClustersOf(g: Grid): seq<Cluster>
    requires IsGrid(g)
  {
    Scan(g, 0, 0, {})
  }

  // ---------------------------------------------------------------
  // What a cluster is

  predicate NoDup<T(==)>(s: seq<T>) {
    forall i, j :: 0 <= i < j < |s| ==> s[i] != s[j]
  }

  /** Every cell is on the board and holds v. */
  predicate Valued(g: Grid, cl: Cluster, v: int)
    requires IsGrid(g)
  {
    forall q :: q in cl ==> InBounds(q) && At(g, q) == Some(v)
  }

  /** Every cell after the first is adjacent to an earlier one: the cells are
      reached one 4-directional step at a time. */
  predicate Linked(cl: Cluster) {
    forall k :: 0 < k < |cl| ==> StepsFromEarlier(cl, k)
  }

  /** Cell k is one step from an earlier cell. */
  predicate StepsFromEarlier(cl: Cluster, k: int)
    requires 0 <= k < |cl|
  {
    exists j :: 0 <= j < k && Adjacent(cl[j], cl[k])
  }

  /** Every same-valued neighbour of a cell is itself a cell: the group cannot
      be extended. */
  ghost predicate SelfClosed(g: Grid, cl: Cluster)
    requires IsGrid(g)
  {
    forall q, q' :: q in cl && Adjacent(q, q') && InBounds(q) && InBounds(q') && At(g, q').Some? && At(g, q') == At(g, q)
      ==> q' in cl
  }

  /** A maximal 4-connected group of cells that all hold the same tile value. */
  ghost predicate Component(g: Grid, cl: Cluster)
    requires IsGrid(g)
  {
    cl != [] && InBounds(cl[0]) && At(g, cl[0]).Some? &&
    Valued(g, cl, At(g, cl[0]).value) && NoDup(cl) && Linked(cl) && SelfClosed(g, cl)
  }

  /** A cluster find_clusters keeps. */
  ghost predicate IsCluster(g: Grid, cl: Cluster)
    requires IsGrid(g)
  {
    |cl| >= 3 && Component(g, cl)
  }

  predicate Disjoint(a: Cluster, b: Cluster) {
    forall q :: q in a ==> q !in b
  }

  /** Every same-valued neighbour of a visited tile is visited. */
  ghost predicate Closed(g: Grid, visited: set<Coord>)
    requires IsGrid(g)
  {
    forall q, q' :: q in visited && Adjacent(q, q') && InBounds(q) && InBounds(q') && At(g, q).Some? && At(g, q') == At(g, q)
      ==> q' in visited
  }

  // ---------------------------------------------------------------
  // Facts about one fill

  lemma NoDupAppend(a: Cluster, b: Cluster)
    requires NoDup(a) && NoDup(b) && Disjoint(a, b)
    ensures NoDup(a + b)
  {
    forall i, j | 0 <= i < j < |a + b|
      ensures (a + b)[i] != (a + b)[j]
    {
      if i < |a| && j >= |a| {
        assert (a + b)[i] in a && (a + b)[j] in b;
      }
    }
  }

  /** DfsDirs' cells, each adjacent to p or to an earlier one of them. */
  predicate LinkedTo(p: Coord, cl: Cluster) {
    forall k :: 0 <= k < |cl| ==> Adjacent(p, cl[k]) || StepsFromEarlier(cl, k)
  }

  lemma LinkedToAppend(p: Coord, a: Cluster, b: Cluster)
    requires a == [] || (Adjacent(p, a[0]) && Linked(a))
    requires LinkedTo(p, b)
    ensures LinkedTo(p, a + b)
  {
    if a == [] {
      assert a + b == b;
    } else {
      forall k | 0 <= k < |a + b|
        ensures Adjacent(p, (a + b)[k]) || StepsFromEarlier(a + b, k)
      {
        if k < |a| {
          ShiftHead(p, a, b, k);
        } else {
          ShiftTail(p, a, b, k - |a|);
        }
      }
    }
  }

  /** Cell k of a, the first next to p and the others each next to an
      earlier one, keeps that property when b is put after a. */
  lemma ShiftHead(p: Coord, a: Cluster, b: Cluster, k: int)
    requires 0 <= k < |a| && Adjacent(p, a[0]) && Linked(a)
    ensures Adjacent(p, (a + b)[k]) || StepsFromEarlier(a + b, k)
  {
    if k == 0 {
      assert (a + b)[0] == a[0];
    } else {
      assert StepsFromEarlier(a, k);
      ShiftEarlier(a, b, [], k);
      assert [] + a + b == a + b;
    }
  }

  /** Cell k of b keeps its earlier neighbour when b is put after a. */
  lemma ShiftTail(p: Coord, a: Cluster, b: Cluster, k: int)
    requires 0 <= k < |b| && (Adjacent(p, b[k]) || StepsFromEarlier(b, k))
    ensures Adjacent(p, (a + b)[|a| + k]) || StepsFromEarlier(a + b, |a| + k)
  {
    if !Adjacent(p, b[k]) {
      ShiftEarlier(b, [], a, k);
      assert a + b + [] == a + b;
    }
  }

  /** A cell's earlier neighbour in b stays earlier in pre + b + post. */
  lemma ShiftEarlier(b: Cluster, post: Cluster, pre: Cluster, k: int)
    requires 0 <= k < |b| && StepsFromEarlier(b, k)
    ensures StepsFromEarlier(pre + b + post, |pre| + k)
  {
    var j :| 0 <= j < k && Adjacent(b[j], b[k]);
    var cl := pre + b + post;
    assert cl[|pre| + j] == b[j] && cl[|pre| + k] == b[k];
  }

  lemma LinkedCons(p: Coord, rest: Cluster)
    requires LinkedTo(p, rest)
    ensures Linked([p] + rest)
  {
    forall k | 0 < k < |[p] + rest|
      ensures StepsFromEarlier([p] + rest, k)
    {
      ConsStep(p, rest, k - 1);
    }
  }

  /** Cell k of rest, next to p or to an earlier cell of rest, steps from an
      earlier cell once p is put in front. */
  lemma ConsStep(p: Coord, rest: Cluster, k: int)
    requires 0 <= k < |rest| && (Adjacent(p, rest[k]) || StepsFromEarlier(rest, k))
    ensures StepsFromEarlier([p] + rest, k + 1)
  {
    var cl := [p] + rest;
    assert cl[k + 1] == rest[k];
    if Adjacent(p, rest[k]) {
      assert Adjacent(cl[0], cl[k + 1]);
    } else {
      ShiftEarlier(rest, [], [p], k);
      assert [p] + rest + [] == cl;
    }
  }

  lemma AdjacentIsStep(p: Coord, q: Coord)
    requires Adjacent(p, q)
    ensures exists i :: 0 <= i < |Dirs()| && q == Step(p, Dirs()[i])
  {
    if q == (p.0 - 1, p.1) { assert q == Step(p, Dirs()[0]); }
    else if q == (p.0 + 1, p.1) { assert q == Step(p, Dirs()[1]); }
    else if q == (p.0, p.1 - 1) { assert q == Step(p, Dirs()[2]); }
    else { assert q == Step(p, Dirs()[3]); }
  }

  /** The cells of cl are exactly those marked after and not before. */
  ghost predicate Newly(cl: Cluster, before: set<Coord>, after: set<Coord>) {
    forall q :: q in cl <==> q in after && q !in before
  }

  /** Every neighbour holding v of a cell of cl is marked. */
  ghost predicate Encloses(g: Grid, cl: Cluster, v: int, marked: set<Coord>)
    requires IsGrid(g)
  {
    forall q, q' :: q in cl && Adjacent(q, q') && InBounds(q') && At(g, q') == Some(v) ==> q' in marked
  }

  /** The neighbours of p in the directions dirs that hold v are marked. */
  ghost predicate MarksDirs(g: Grid, p: Coord, v: int, dirs: seq<(int, int)>, marked: set<Coord>)
    requires IsGrid(g)
  {
    forall i :: 0 <= i < |dirs| && InBounds(Step(p, dirs[i])) && At(g, Step(p, dirs[i])) == Some(v)
      ==> Step(p, dirs[i]) in marked
  }

  /** One fill from p: it returns exactly the cells it newly marks, each once,
      all holding v; it starts at p and moves by 4-directional steps; and it
      marks every neighbour of its cells that holds v. */
  lemma {:induction false} DfsFacts(g: Grid, p: Coord, v: int, visited: set<Coord>)
    requires IsGrid(g)
    ensures Newly(Dfs(g, p, v, visited).0, visited, Dfs(g, p, v, visited).1)
    ensures NoDup(Dfs(g, p, v, visited).0)
    ensures Valued(g, Dfs(g, p, v, visited).0, v)
    ensures Dfs(g, p, v, visited).0 == [] <==> !InBounds(p) || p in visited || At(g, p) != Some(v)
    ensures Dfs(g, p, v, visited).0 != [] ==> Dfs(g, p, v, visited).0[0] == p && Linked(Dfs(g, p, v, visited).0)
    ensures Encloses(g, Dfs(g, p, v, visited).0, v, Dfs(g, p, v, visited).1)
    ensures InBounds(p) && At(g, p) == Some(v) ==> p in Dfs(g, p, v, visited).1
    decreases AllCoords() - visited, 0
  {
    if InBounds(p) && p !in visited && At(g, p) == Some(v) {
      InAllCoords(p);
      var res := DfsDirs(g, p, v, visited + {p}, Dirs());
      var rest, visited' := res.0, res.1;
      DfsDirsFacts(g, p, v, visited + {p}, Dirs());
      var cl := [p] + rest;
      assert Dfs(g, p, v, visited) == (cl, visited');
      assert Disjoint([p], rest);
      NoDupAppend([p], rest);
      LinkedCons(p, rest);
      forall q, q' | q in cl && Adjacent(q, q') && InBounds(q') && At(g, q') == Some(v)
        ensures q' in visited'
      {
        if q == p {
          AdjacentIsStep(p, q');
        } else {
          assert q in rest;
        }
      }
    }
  }

  lemma {:induction false} DfsDirsFacts(g: Grid, p: Coord, v: int, visited: set<Coord>, dirs: seq<(int, int)>)
    requires IsGrid(g)
    requires forall d :: d in dirs ==> d in Dirs()
    ensures Newly(DfsDirs(g, p, v, visited, dirs).0, visited, DfsDirs(g, p, v, visited, dirs).1)
    ensures NoDup(DfsDirs(g, p, v, visited, dirs).0)
    ensures Valued(g, DfsDirs(g, p, v, visited, dirs).0, v)
    ensures LinkedTo(p, DfsDirs(g, p, v, visited, dirs).0)
    ensures Encloses(g, DfsDirs(g, p, v, visited, dirs).0, v, DfsDirs(g, p, v, visited, dirs).1)
    ensures MarksDirs(g, p, v, dirs, DfsDirs(g, p, v, visited, dirs).1)
    decreases AllCoords() - visited, |dirs|
  {
    if dirs != [] {
      var ra := Dfs(g, Step(p, dirs[0]), v, visited);
      var a, visited1 := ra.0, ra.1;
      var rb := DfsDirs(g, p, v, visited1, dirs[1..]);
      var b, visited2 := rb.0, rb.1;
      assert DfsDirs(g, p, v, visited, dirs) == (a + b, visited2);
      DfsFacts(g, Step(p, dirs[0]), v, visited);
      DfsDirsFacts(g, p, v, visited1, dirs[1..]);
      assert Newly(a + b, visited, visited2);
      assert Disjoint(a, b);
      NoDupAppend(a, b);
      assert dirs[0] in Dirs();
      assert Adjacent(p, Step(p, dirs[0]));
      LinkedToAppend(p, a, b);
      assert Valued(g, a + b, v);
      assert Encloses(g, a + b, v, visited2);
      forall i | 0 <= i < |dirs| && InBounds(Step(p, dirs[i])) && At(g, Step(p, dirs[i])) == Some(v)
        ensures Step(p, dirs[i]) in visited2
      {
        if i > 0 {
          assert dirs[i] == dirs[1..][i - 1];
        }
      }
    }
  }

  // ---------------------------------------------------------------
  // Facts about the scan

  /** A fill started at an unvisited tile on a closed visited set yields a
      maximal group and leaves the visited set closed. */
  lemma DfsFromClosed(g: Grid, p: Coord, visited: set<Coord>)
    requires IsGrid(g) && InBounds(p) && At(g, p).Some? && p !in visited
    requires Closed(g, visited)
    ensures Component(g, Dfs(g, p, At(g, p).value, visited).0)
    ensures Dfs(g, p, At(g, p).value, visited).0[0] == p
    ensures Closed(g, Dfs(g, p, At(g, p).value, visited).1)
    ensures Newly(Dfs(g, p, At(g, p).value, visited).0, visited, Dfs(g, p, At(g, p).value, visited).1)
  {
    var v := At(g, p).value;
    var res := Dfs(g, p, v, visited);
    var cl, visited' := res.0, res.1;
    DfsFacts(g, p, v, visited);
    FillSelfClosed(g, cl, v, visited, visited');
    FillKeepsClosed(g, cl, v, visited, visited');
  }

  /** The cells newly marked by a fill on a closed visited set, all holding
      v and with their neighbours holding v marked, form a group that cannot
      be extended. */
  lemma FillSelfClosed(g: Grid, cl: Cluster, v: int, visited: set<Coord>, visited': set<Coord>)
    requires IsGrid(g) && Closed(g, visited) && Newly(cl, visited, visited')
    requires Valued(g, cl, v) && Encloses(g, cl, v, visited')
    ensures SelfClosed(g, cl)
  {
    forall q, q' | q in cl && Adjacent(q, q') && InBounds(q) && InBounds(q') && At(g, q').Some? && At(g, q') == At(g, q)
      ensures q' in cl
    {
      assert At(g, q) == Some(v);
      assert q' in visited';
      if q' in visited {
        // q' is a marked tile holding v next to q, so q would be marked too
        assert Adjacent(q', q);
        assert false;
      }
    }
  }

  /** Such a fill leaves the visited set closed. */
  lemma FillKeepsClosed(g: Grid, cl: Cluster, v: int, visited: set<Coord>, visited': set<Coord>)
    requires IsGrid(g) && Closed(g, visited) && visited <= visited' && Newly(cl, visited, visited')
    requires Valued(g, cl, v) && Encloses(g, cl, v, visited')
    ensures Closed(g, visited')
  {
    forall q, q' | q in visited' && Adjacent(q, q') && InBounds(q) && InBounds(q') && At(g, q).Some? && At(g, q') == At(g, q)
      ensures q' in visited'
    {
      if q !in visited {
        assert q in cl;
      }
    }
  }

  ghost predicate AllClusters(g: Grid, out: seq<Cluster>)
    requires IsGrid(g)
  {
    forall k :: 0 <= k < |out| ==> IsCluster(g, out[k])
  }

  ghost predicate Avoids(out: seq<Cluster>, visited: set<Coord>) {
    forall k, q :: 0 <= k < |out| && q in out[k] ==> q !in visited
  }

  predicate PairwiseDisjoint(out: seq<Cluster>) {
    forall k1, k2 :: 0 <= k1 < k2 < |out| ==> Disjoint(out[k1], out[k2])
  }

  predicate InNone(p: Coord, out: seq<Cluster>) {
    forall k :: 0 <= k < |out| ==> p !in out[k]
  }

  /** p lies in a maximal same-valued group of fewer than 3 cells. */
  ghost predicate InSmallGroup(g: Grid, p: Coord)
    requires IsGrid(g)
  {
    exists w :: p in w && |w| < 3 && Component(g, w)
  }

  /** Keeping (or dropping) a freshly filled group in front of the rest of the
      scan keeps the scan's guarantees. */
  lemma KeepFront(g: Grid, cl: Cluster, tail: seq<Cluster>, visited: set<Coord>, visited': set<Coord>)
    requires IsGrid(g)
    requires Newly(cl, visited, visited') && visited <= visited'
    requires Component(g, cl)
    requires AllClusters(g, tail) && Avoids(tail, visited') && PairwiseDisjoint(tail)
    ensures AllClusters(g, (if |cl| >= 3 then [cl] else []) + tail)
    ensures Avoids((if |cl| >= 3 then [cl] else []) + tail, visited)
    ensures PairwiseDisjoint((if |cl| >= 3 then [cl] else []) + tail)
  {
    var head: seq<Cluster> := if |cl| >= 3 then [cl] else [];
    var out := head + tail;
    forall k | 0 <= k < |out|
      ensures IsCluster(g, out[k])
    {
      if k >= |head| { assert out[k] == tail[k - |head|]; }
    }
    forall k, q | 0 <= k < |out| && q in out[k]
      ensures q !in visited
    {
      if k >= |head| { assert out[k] == tail[k - |head|]; }
    }
    forall k1, k2 | 0 <= k1 < k2 < |out|
      ensures Disjoint(out[k1], out[k2])
    {
      assert out[k2] == tail[k2 - |head|];
      if k1 >= |head| {
        assert out[k1] == tail[k1 - |head|];
      }
    }
  }

  /** The scan from (r, c): every kept group is a cluster, none meets what was
      visited before, and no two share a cell. */
  lemma {:induction false} ScanValid(g: Grid, r: int, c: int, visited: set<Coord>)
    requires IsGrid(g) && 0 <= r && 0 <= c
    requires Closed(g, visited)
    ensures AllClusters(g, Scan(g, r, c, visited))
    ensures Avoids(Scan(g, r, c, visited), visited)
    ensures PairwiseDisjoint(Scan(g, r, c, visited))
    decreases N - r, N - c
  {
    if r >= N {
    } else if c >= N {
      assert Scan(g, r, c, visited) == Scan(g, r + 1, 0, visited);
      ScanValid(g, r + 1, 0, visited);
    } else if g[r][c].Some? && (r, c) !in visited {
      var res := Dfs(g, (r, c), g[r][c].value, visited);
      DfsFromClosed(g, (r, c), visited);
      assert Scan(g, r, c, visited) == (if |res.0| >= 3 then [res.0] else []) + Scan(g, r, c + 1, res.1);
      ScanValid(g, r, c + 1, res.1);
      KeepFront(g, res.0, Scan(g, r, c + 1, res.1), visited, res.1);
    } else {
      ScanValid(g, r, c + 1, visited);
    }
  }

  /** Every tile at or after (r, c) that is neither visited nor in a group of
      out lies in a maximal group of fewer than 3 cells. */
  ghost predicate Covered(g: Grid, out: seq<Cluster>, visited: set<Coord>, r: int, c: int)
    requires IsGrid(g)
  {
    forall p ::
      (InBounds(p) && At(g, p).Some? && p !in visited && AtOrAfter(p, r, c) && InNone(p, out))
      ==> InSmallGroup(g, p)
  }

  /** Tiles the front group or the rest of the scan accounts for are accounted for. */
  lemma CoverFront(g: Grid, r: int, c: int, cl: Cluster, tail: seq<Cluster>, visited: set<Coord>, visited': set<Coord>)
    requires IsGrid(g) && 0 <= r < N && 0 <= c < N
    requires Newly(cl, visited, visited') && visited <= visited'
    requires Component(g, cl) && cl[0] == (r, c)
    requires Covered(g, tail, visited', r, c + 1)
    ensures Covered(g, (if |cl| >= 3 then [cl] else []) + tail, visited, r, c)
  {
    var head: seq<Cluster> := if |cl| >= 3 then [cl] else [];
    var out := head + tail;
    if |cl| >= 3 {
      assert out[0] == cl;
      forall p | InBounds(p) && At(g, p).Some? && p !in visited && AtOrAfter(p, r, c) && InNone(p, out)
        ensures InSmallGroup(g, p)
      {
        assert p !in out[0];
        assert p !in visited';
        forall k | 0 <= k < |tail| ensures p !in tail[k] {
          assert tail[k] == out[k + 1];
        }
      }
    } else {
      assert out == tail;
      forall p | InBounds(p) && At(g, p).Some? && p !in visited && AtOrAfter(p, r, c) && InNone(p, out)
        ensures InSmallGroup(g, p)
      {
        if p in cl {
          assert p in cl && |cl| < 3 && Component(g, cl);
        } else {
          assert p !in visited';
        }
      }
    }
  }

  /** The scan from (r, c): every tile at or after (r, c) that was not visited
      and is in no kept group lies in a maximal group of fewer than 3 cells. */
  lemma {:induction false} ScanComplete(g: Grid, r: int, c: int, visited: set<Coord>)
    requires IsGrid(g) && 0 <= r && 0 <= c
    requires Closed(g, visited)
    ensures Covered(g, Scan(g, r, c, visited), visited, r, c)
    decreases N - r, N - c
  {
    if r >= N {
      CoverPastEnd(g, Scan(g, r, c, visited), visited, r, c);
    } else if c >= N {
      var out := Scan(g, r + 1, 0, visited);
      assert Scan(g, r, c, visited) == out;
      ScanComplete(g, r + 1, 0, visited);
      CoverRowEnd(g, out, visited, r, c);
    } else if g[r][c].Some? && (r, c) !in visited {
      var res := Dfs(g, (r, c), g[r][c].value, visited);
      DfsFromClosed(g, (r, c), visited);
      ScanComplete(g, r, c + 1, res.1);
      CoverFront(g, r, c, res.0, Scan(g, r, c + 1, res.1), visited, res.1);
      ScanFill(g, r, c, visited, res.0, res.1);
    } else {
      var out := Scan(g, r, c + 1, visited);
      assert Scan(g, r, c, visited) == out;
      ScanComplete(g, r, c + 1, visited);
      CoverSkip(g, out, visited, r, c);
    }
  }

  /** Past the last row there is no cell left to cover. */
  lemma CoverPastEnd(g: Grid, out: seq<Cluster>, visited: set<Coord>, r: int, c: int)
    requires IsGrid(g) && r >= N
    ensures Covered(g, out, visited, r, c)
  {
  }

  /** Past the last column, covering from the next row is covering from here. */
  lemma CoverRowEnd(g: Grid, out: seq<Cluster>, visited: set<Coord>, r: int, c: int)
    requires IsGrid(g) && c >= N && Covered(g, out, visited, r + 1, 0)
    ensures Covered(g, out, visited, r, c)
  {
  }

  /** A cell the scan skips, empty or already visited, needs no covering. */
  lemma CoverSkip(g: Grid, out: seq<Cluster>, visited: set<Coord>, r: int, c: int)
    requires IsGrid(g) && 0 <= r < N && 0 <= c < N && !(g[r][c].Some? && (r, c) !in visited)
    requires Covered(g, out, visited, r, c + 1)
    ensures Covered(g, out, visited, r, c)
  {
  }

  /** At an unvisited tile the scan keeps the fill's group if it has 3 or
      more cells and goes on with the fill's visited set. */
  lemma ScanFill(g: Grid, r: int, c: int, visited: set<Coord>, cl: Cluster, visited': set<Coord>)
    requires IsGrid(g) && 0 <= r < N && 0 <= c < N && g[r][c].Some? && (r, c) !in visited
    requires (cl, visited') == Dfs(g, (r, c), g[r][c].value, visited)
    ensures Scan(g, r, c, visited) == (if |cl| >= 3 then [cl] else []) + Scan(g, r, c + 1, visited')
  {
  }

  /** find_clusters returns exactly the maximal same-valued 4-connected groups
      of at least 3 tiles: each is such a group, no two share a cell, and every
      tile outside them lies in a maximal group of fewer than 3 cells. */
  lemma ClustersSpec(g: Grid)
    requires IsGrid(g)
    ensures AllClusters(g, ClustersOf(g))
    ensures PairwiseDisjoint(ClustersOf(g))
    ensures forall p :: InBounds(p) && At(g, p).Some? && InNone(p, ClustersOf(g)) ==> InSmallGroup(g, p)
  {
    ScanComplete(g, 0, 0, {});
    assert Covered(g, ClustersOf(g), {}, 0, 0);
    ScanValid(g, 0, 0, {});
  }

  // ---------------------------------------------------------------
  // The in-place version: a visited grid of booleans

  /** The visited grid marks exactly the coordinates in V. */
  ghost predicate Tracks(visited: array2<bool>, V: set<Coord>)
    reads visited
  {
    visited.Length0 == N && visited.Length1 == N &&
    forall r, c :: 0 <= r < N && 0 <= c < N ==> (visited[r, c] <==> (r, c) in V)
  }

  /** dfs(r, c, value) at p = (r, c), marking the shared visited grid as it
      goes. */
  method Fill(board: array2<Cell>, visited: array2<bool>, p: Coord, value: int, ghost V: set<Coord>)
    returns (cluster: Cluster)
    requires IsBoard(board) && Tracks(visited, V)
    modifies visited
    ensures cluster == Dfs(Cells(board), p, value, V).0
    ensures Tracks(visited, Dfs(Cells(board), p, value, V).1)
    decreases AllCoords() - V
  {
    ghost var g := Cells(board);
    var (r, c) := p;
    if r < 0 || r >= N || c < 0 || c >= N {
      return [];
    }
    if visited[r, c] || board[r, c] != Some(value) {
      return [];
    }
    visited[r, c] := true;
    ghost var cur := V + {p};
    InAllCoords(p);
    cluster := [p];
    var dirs := Dirs();
    for i := 0 to |dirs|
      invariant Tracks(visited, cur) && V + {p} <= cur
      invariant cluster + DfsDirs(g, p, value, cur, dirs[i..]).0 == Dfs(g, p, value, V).0
      invariant DfsDirs(g, p, value, cur, dirs[i..]).1 == Dfs(g, p, value, V).1
    {
      ghost var (cur0, cluster0) := (cur, cluster);
      var found := Fill(board, visited, Step(p, dirs[i]), value, cur);
      assert Cells(board) == g;
      cluster := cluster + found;
      cur := Dfs(g, Step(p, dirs[i]), value, cur).1;
      FillAdvance(g, p, value, dirs, i, cur0, cur, cluster0, cluster);
    }
    assert dirs[|dirs|..] == [];
  }

  /** One direction of the fill: what has been found so far plus what the
      remaining directions find does not change when direction i is done. */
  lemma FillAdvance(g: Grid, p: Coord, v: int, dirs: seq<(int, int)>, i: int,
                    cur: set<Coord>, cur': set<Coord>, kept: Cluster, kept': Cluster)
    requires IsGrid(g) && 0 <= i < |dirs|
    requires cur' == Dfs(g, Step(p, dirs[i]), v, cur).1
    requires kept' == kept + Dfs(g, Step(p, dirs[i]), v, cur).0
    ensures kept + DfsDirs(g, p, v, cur, dirs[i..]).0 == kept' + DfsDirs(g, p, v, cur', dirs[i + 1..]).0
    ensures DfsDirs(g, p, v, cur, dirs[i..]).1 == DfsDirs(g, p, v, cur', dirs[i + 1..]).1
  {
    assert dirs[i..][1..] == dirs[i + 1..];
  }

  /** One step of the scan: the groups kept so far plus what the rest of the
      scan keeps do not change when the cell at (r, c) is handled. */
  lemma ScanAdvance(g: Grid, r: int, c: int, V: set<Coord>, V': set<Coord>, kept: seq<Cluster>, kept': seq<Cluster>)
    requires IsGrid(g) && 0 <= r < N && 0 <= c < N
    requires g[r][c].Some? && (r, c) !in V ==>
      var res := Dfs(g, (r, c), g[r][c].value, V);
      V' == res.1 && kept' == kept + if |res.0| >= 3 then [res.0] else []
    requires !(g[r][c].Some? && (r, c) !in V) ==> V' == V && kept' == kept
    ensures kept + Scan(g, r, c, V) == kept' + Scan(g, r, c + 1, V')
  {
  }

  /** find_clusters: scan the board row by row, start a fill at every tile not
      yet visited, and keep the groups of at least 3 cells. */
  method FindClusters(board: array2<Cell>) returns (clusters: seq<Cluster>)
    requires IsBoard(board)
    ensures clusters == ClustersOf(Cells(board))
  {
    ghost var g := Cells(board);
    var visited := new bool[N, N]((_, _) => false);
    ghost var V: set<Coord> := {};
    clusters := [];
    for r := 0 to N
      invariant Tracks(visited, V)
      invariant clusters + Scan(g, r, 0, V) == ClustersOf(g)
    {
      for c := 0 to N
        invariant Tracks(visited, V)
        invariant clusters + Scan(g, r, c, V) == ClustersOf(g)
      {
        ghost var (V0, kept0) := (V, clusters);
        if board[r, c] != None && !visited[r, c] {
          var cluster := Fill(board, visited, (r, c), board[r, c].value, V);
          V := Dfs(g, (r, c), g[r][c].value, V).1;
          if |cluster| >= 3 {
            clusters := clusters + [cluster];
          }
        }
        ScanAdvance(g, r, c, V0, V, kept0, clusters);
      }
      assert Scan(g, r, N, V) == Scan(g, r + 1, 0, V);
    }
  }
}
