/** The depth-first backtracker's carve steps and what they amount to: a
    spanning tree of the grid rooted at (0, 0). */
module Carving {
  import opened Cells
  import opened Grids

  /** One carve step: the wall pair between `from` and its neighbour `to` on
      side `dir` is taken down. */
  datatype Carve = Carve(from: Pos, dir: Direction, to: Pos)

  /** Both sides of every wall opened by the carve steps `cs`. */
  function CarveWalls(cs: seq<Carve>): (s: set<Wall>)
    ensures forall k :: 0 <= k < |cs| ==>
      Wall(cs[k].from, cs[k].dir) in s && Wall(cs[k].to, Opposite(cs[k].dir)) in s
  {
    if |cs| == 0 then {}
    else
      var last := cs[|cs| - 1];
      CarveWalls(cs[..|cs| - 1]) + {Wall(last.from, last.dir), Wall(last.to, Opposite(last.dir))}
  }

  /** One more carve step adds its two walls. */
  lemma CarveWallsGrow(cs: seq<Carve>, cv: Carve)
    ensures CarveWalls(cs + [cv]) == CarveWalls(cs) + {Wall(cv.from, cv.dir)} + {Wall(cv.to, Opposite(cv.dir))}
  {
    assert (cs + [cv])[..|cs|] == cs;
  }

  /** Each carve step joins an in-bounds cell to its in-bounds neighbour. */
  ghost predicate Adjacent(cs: seq<Carve>, width: nat, height: nat)
  {
    forall k :: 0 <= k < |cs| ==>
      && InBounds(cs[k].from, width, height)
      && InBounds(cs[k].to, width, height)
      && cs[k].to == Step(cs[k].from, cs[k].dir)
  }

  /** Every wall opened by adjacent carve steps comes with its other side and
      lies between two in-bounds cells. */
  lemma {:induction false} CarveWallsShape(cs: seq<Carve>, width: nat, height: nat)
    requires Adjacent(cs, width, height)
    ensures Paired(CarveWalls(cs), width, height)
    ensures forall w :: w in CarveWalls(cs) ==>
      InBounds(w.at, width, height) && InBounds(Step(w.at, w.side), width, height)
  {
    if |cs| > 0 {
      var last := cs[|cs| - 1];
      CarveWallsShape(cs[..|cs| - 1], width, height);
      StepBack(last.from, last.dir);
      OppositeInvolution(last.dir);
    }
  }

  /** Carving never opens an outer boundary wall. */
  lemma CarveWallsInside(cs: seq<Carve>, width: nat, height: nat, w: Wall)
    requires Adjacent(cs, width, height)
    requires OnBoundary(w, width, height)
    ensures w !in CarveWalls(cs)
  {
    CarveWallsShape(cs, width, height);
  }

  /** `order` lists the cells in the order the backtracker first visits them,
      starting at (0, 0); carve step k reaches `order[k + 1]`, a cell not seen
      before, from a cell already visited. */
  ghost predicate Tree(order: seq<Pos>, cs: seq<Carve>, width: nat, height: nat)
  {
    && |order| == |cs| + 1
    && order[0] == Origin
    && Adjacent(cs, width, height)
    && forall k :: 0 <= k < |cs| ==>
         && cs[k].to == order[k + 1]
         && cs[k].from in order[..k + 1]
         && cs[k].to !in order[..k + 1]
  }

  /** A tree that reaches every cell of the grid with one carve step per cell
      beyond the first. */
  ghost predicate Spanning(order: seq<Pos>, cs: seq<Carve>, width: nat, height: nat)
  {
    && Tree(order, cs, width, height)
    && |cs| == width * height - 1
    && forall p :: InBounds(p, width, height) ==> p in order
  }

  /** Every visited cell is reached from (0, 0) through walls that the carve
      steps opened. */
  lemma {:induction false} PathToVisited(g0: Grid, g: Grid, removed: set<Wall>, order: seq<Pos>,
                                         cs: seq<Carve>, width: nat, height: nat, i: nat)
    returns (path: seq<Pos>)
    requires width >= 1 && height >= 1
    requires WallsRemoved(g0, g, removed, width, height)
    requires CarveWalls(cs) <= removed
    requires Tree(order, cs, width, height)
    requires i < |order|
    ensures IsPath(g, width, height, path)
    ensures path[0] == Origin && path[|path| - 1] == order[i]
    decreases i
  {
    if i == 0 {
      path := [Origin];
    } else {
      var cv := cs[i - 1];
      assert cv.from in order[..i];
      var j :| 0 <= j < i && order[j] == cv.from;
      var prefix := PathToVisited(g0, g, removed, order, cs, width, height, j);
      assert Wall(cv.from, cv.dir) in removed && Wall(cv.to, Opposite(cv.dir)) in removed;
      assert Passage(g, width, height, cv.from, cv.dir);
      assert Linked(g, width, height, prefix[|prefix| - 1], order[i]) by {
        match cv.dir
        case Top =>
        case Right =>
        case Bottom =>
        case Left =>
      }
      PathExtend(g, width, height, prefix, order[i]);
      path := prefix + [order[i]];
    }
  }

  /** Connectivity: in a grid whose removed walls include a spanning carve,
      every cell is reachable from (0, 0). */
  lemma PathFromOrigin(g0: Grid, g: Grid, removed: set<Wall>, order: seq<Pos>,
                       cs: seq<Carve>, width: nat, height: nat, p: Pos)
    returns (path: seq<Pos>)
    requires width >= 1 && height >= 1
    requires WallsRemoved(g0, g, removed, width, height)
    requires CarveWalls(cs) <= removed
    requires Spanning(order, cs, width, height)
    requires InBounds(p, width, height)
    ensures IsPath(g, width, height, path)
    ensures path[0] == Origin && path[|path| - 1] == p
  {
    var i :| 0 <= i < |order| && order[i] == p;
    path := PathToVisited(g0, g, removed, order, cs, width, height, i);
  }

  // ----- the `visited` matrix of the backtracker -----

  predicate ShapedFlags(m: seq<seq<bool>>, width: nat, height: nat)
  {
    |m| == height && forall r :: 0 <= r < height ==> |m[r]| == width
  }

  predicate Seen(m: seq<seq<bool>>, p: Pos, width: nat, height: nat)
    requires ShapedFlags(m, width, height) && InBounds(p, width, height)
  {
    m[p.row][p.col]
  }

  /** Every in-bounds neighbour of `p` is marked. */
  predicate NeighborsSeen(m: seq<seq<bool>>, p: Pos, width: nat, height: nat)
    requires ShapedFlags(m, width, height)
  {
    forall d :: InBounds(Step(p, d), width, height) ==> Seen(m, Step(p, d), width, height)
  }

  function CountRow(row: seq<bool>): nat
  {
    if |row| == 0 then 0
    else CountRow(row[..|row| - 1]) + (if row[|row| - 1] then 1 else 0)
  }

  /** Number of marked entries. */
  function CountMarked(m: seq<seq<bool>>): nat
  {
    if |m| == 0 then 0
    else CountMarked(m[..|m| - 1]) + CountRow(m[|m| - 1])
  }

  lemma {:induction false} CountRowBounds(row: seq<bool>)
    ensures CountRow(row) <= |row|
    ensures (forall i :: 0 <= i < |row| ==> row[i]) ==> CountRow(row) == |row|
    ensures (forall i :: 0 <= i < |row| ==> !row[i]) ==> CountRow(row) == 0
  {
    if |row| > 0 {
      CountRowBounds(row[..|row| - 1]);
    }
  }

  lemma {:induction false} CountMarkedBounds(m: seq<seq<bool>>, width: nat)
    requires forall r :: 0 <= r < |m| ==> |m[r]| == width
    ensures CountMarked(m) <= |m| * width
    ensures (forall r, c :: 0 <= r < |m| && 0 <= c < width ==> m[r][c]) ==> CountMarked(m) == |m| * width
    ensures (forall r, c :: 0 <= r < |m| && 0 <= c < width ==> !m[r][c]) ==> CountMarked(m) == 0
  {
    if |m| > 0 {
      var n := |m| - 1;
      CountMarkedBounds(m[..n], width);
      CountRowBounds(m[n]);
      assert (|m| - 1) * width + width == |m| * width;
    }
  }

  lemma {:induction false} CountRowMark(row: seq<bool>, c: nat)
    requires c < |row| && !row[c]
    ensures CountRow(row[c := true]) == CountRow(row) + 1
  {
    var n := |row| - 1;
    if c < n {
      assert row[c := true][..n] == row[..n][c := true];
      CountRowMark(row[..n], c);
    } else {
      assert row[c := true][..n] == row[..n];
    }
  }

  /** Marking one unmarked entry raises the count by exactly one. */
  lemma {:induction false} CountMark(m: seq<seq<bool>>, r: nat, c: nat)
    requires r < |m| && c < |m[r]| && !m[r][c]
    ensures CountMarked(m[r := m[r][c := true]]) == CountMarked(m) + 1
  {
    var n := |m| - 1;
    var m' := m[r := m[r][c := true]];
    if r < n {
      assert m'[..n] == m[..n][r := m[r][c := true]];
      CountMark(m[..n], r, c);
    } else {
      assert m'[..n] == m[..n];
      CountRowMark(m[r], c);
    }
  }

  lemma {:induction false} ColumnZeroSeen(m: seq<seq<bool>>, width: nat, height: nat, r: nat)
    requires ShapedFlags(m, width, height) && width >= 1 && r < height
    requires m[0][0]
    requires forall i, j :: 0 <= i < height && 0 <= j < width && m[i][j] ==>
      NeighborsSeen(m, Pos(i, j), width, height)
    ensures m[r][0]
  {
    if r > 0 {
      ColumnZeroSeen(m, width, height, r - 1);
      assert Step(Pos(r - 1, 0), Bottom) == Pos(r, 0);
    }
  }

  lemma {:induction false} RowSeen(m: seq<seq<bool>>, width: nat, height: nat, r: nat, c: nat)
    requires ShapedFlags(m, width, height) && r < height && c < width
    requires m[0][0]
    requires forall i, j :: 0 <= i < height && 0 <= j < width && m[i][j] ==>
      NeighborsSeen(m, Pos(i, j), width, height)
    ensures m[r][c]
  {
    if c == 0 {
      ColumnZeroSeen(m, width, height, r);
    } else {
      RowSeen(m, width, height, r, c - 1);
      assert Step(Pos(r, c - 1), Right) == Pos(r, c);
    }
  }

  /** A marked set that contains (0, 0) and every neighbour of each of its
      cells is the whole grid. */
  lemma ClosedMarksAll(m: seq<seq<bool>>, width: nat, height: nat)
    requires ShapedFlags(m, width, height) && width >= 1 && height >= 1
    requires m[0][0]
    requires forall i, j :: 0 <= i < height && 0 <= j < width && m[i][j] ==>
      NeighborsSeen(m, Pos(i, j), width, height)
    ensures forall i, j :: 0 <= i < height && 0 <= j < width ==> m[i][j]
  {
    forall i, j | 0 <= i < height && 0 <= j < width
      ensures m[i][j]
    {
      RowSeen(m, width, height, i, j);
    }
  }

  /** `m` with the entry for `p` marked. */
  function Mark(m: seq<seq<bool>>, p: Pos, width: nat, height: nat): (m': seq<seq<bool>>)
    requires ShapedFlags(m, width, height) && InBounds(p, width, height)
    ensures ShapedFlags(m', width, height)
    ensures forall q :: InBounds(q, width, height) ==> (Seen(m', q, width, height) <==> Seen(m, q, width, height) || q == p)
  {
    m[p.row := m[p.row][p.col := true]]
  }

  /** The invariant of the backtracker's loop: `visited` marks exactly the
      cells of `order`; the stack holds visited cells; a visited cell off the
      stack has no unvisited neighbour; and the marks are counted. */
  ghost predicate Backtracking(visited: seq<seq<bool>>, stack: seq<Pos>, order: seq<Pos>, cs: seq<Carve>,
                               width: nat, height: nat)
  {
    && ShapedFlags(visited, width, height)
    && Tree(order, cs, width, height)
    && (forall i :: 0 <= i < |order| ==> InBounds(order[i], width, height))
    && (forall p :: InBounds(p, width, height) ==> (Seen(visited, p, width, height) <==> p in order))
    && (forall i :: 0 <= i < |stack| ==> InBounds(stack[i], width, height) && stack[i] in order)
    && (forall p :: InBounds(p, width, height) && Seen(visited, p, width, height) && p !in stack ==>
          NeighborsSeen(visited, p, width, height))
    && CountMarked(visited) == |order|
  }

  /** The state right after (0, 0) is marked and pushed. */
  lemma BacktrackingStart(width: nat, height: nat)
    requires width >= 1 && height >= 1
    ensures var none := seq(height, _ => seq(width, _ => false));
      && Backtracking(Mark(none, Origin, width, height), [Origin], [Origin], [], width, height)
      && CountMarked(Mark(none, Origin, width, height)) <= width * height
  {
    var none := seq(height, _ => seq(width, _ => false));
    CountMarkedBounds(none, width);
    CountMark(none, 0, 0);
    var m := Mark(none, Origin, width, height);
    forall p | InBounds(p, width, height) && Seen(m, p, width, height)
      ensures p == Origin
    {
    }
    assert 1 <= width * height;
  }

  /** Popping a cell whose neighbours are all visited keeps the invariant. */
  lemma BacktrackingPop(visited: seq<seq<bool>>, stack: seq<Pos>, order: seq<Pos>, cs: seq<Carve>,
                        width: nat, height: nat)
    requires Backtracking(visited, stack, order, cs, width, height)
    requires |stack| > 0
    requires NeighborsSeen(visited, stack[|stack| - 1], width, height)
    ensures Backtracking(visited, stack[..|stack| - 1], order, cs, width, height)
  {
    var rest := stack[..|stack| - 1];
    forall p | InBounds(p, width, height) && Seen(visited, p, width, height) && p !in rest
      ensures NeighborsSeen(visited, p, width, height)
    {
      if p != stack[|stack| - 1] {
        assert p !in stack;
      }
    }
  }

  /** Carving from the top of the stack into an unvisited neighbour, marking
      it and pushing it keeps the invariant and adds one mark. */
  lemma BacktrackingPush(visited: seq<seq<bool>>, stack: seq<Pos>, order: seq<Pos>, cs: seq<Carve>,
                         cv: Carve, width: nat, height: nat)
    requires Backtracking(visited, stack, order, cs, width, height)
    requires |stack| > 0 && cv.from == stack[|stack| - 1]
    requires InBounds(cv.to, width, height) && cv.to == Step(cv.from, cv.dir)
    requires !Seen(visited, cv.to, width, height)
    ensures Backtracking(Mark(visited, cv.to, width, height), stack + [cv.to], order + [cv.to], cs + [cv],
                         width, height)
    ensures CountMarked(Mark(visited, cv.to, width, height)) == CountMarked(visited) + 1 <= width * height
  {
    var m := Mark(visited, cv.to, width, height);
    var stack', order', cs' := stack + [cv.to], order + [cv.to], cs + [cv];
    TreeGrow(order, cs, cv, width, height);
    CountMark(visited, cv.to.row, cv.to.col);
    CountMarkedBounds(m, width);
    forall p | InBounds(p, width, height) && Seen(m, p, width, height) && p !in stack'
      ensures NeighborsSeen(m, p, width, height)
    {
      assert p !in stack;
      assert NeighborsSeen(visited, p, width, height);
    }
    forall i | 0 <= i < |stack'|
      ensures InBounds(stack'[i], width, height) && stack'[i] in order'
    {
      if i < |stack| {
        assert stack'[i] == stack[i];
      }
    }
  }

  /** A tree step extended by a carve from a visited cell to a new one. */
  lemma TreeGrow(order: seq<Pos>, cs: seq<Carve>, cv: Carve, width: nat, height: nat)
    requires Tree(order, cs, width, height)
    requires InBounds(cv.from, width, height) && InBounds(cv.to, width, height)
    requires cv.to == Step(cv.from, cv.dir)
    requires cv.from in order && cv.to !in order
    ensures Tree(order + [cv.to], cs + [cv], width, height)
  {
    var order', cs' := order + [cv.to], cs + [cv];
    forall k | 0 <= k < |cs'|
      ensures cs'[k].to == order'[k + 1] && cs'[k].from in order'[..k + 1] && cs'[k].to !in order'[..k + 1]
    {
      if k < |cs| {
        assert order'[..k + 1] == order[..k + 1];
      } else {
        assert order'[..k + 1] == order;
      }
    }
  }

  /** When the stack is empty every cell has been visited, once each: the
      carve steps form a spanning tree. */
  lemma BacktrackingDone(visited: seq<seq<bool>>, order: seq<Pos>, cs: seq<Carve>, width: nat, height: nat)
    requires width >= 1 && height >= 1
    requires Backtracking(visited, [], order, cs, width, height)
    ensures Spanning(order, cs, width, height)
  {
    assert Seen(visited, Origin, width, height);
    ClosedMarksAll(visited, width, height);
    CountMarkedBounds(visited, width);
    forall p | InBounds(p, width, height)
      ensures p in order
    {
      assert Seen(visited, p, width, height);
    }
  }

  /** The unvisited in-bounds neighbours of `p`, in the order Top, Right,
      Bottom, Left, each as the carve step that would reach it. */
  function UnvisitedNeighbors(m: seq<seq<bool>>, p: Pos, width: nat, height: nat): (ns: seq<Carve>)
    requires ShapedFlags(m, width, height) && InBounds(p, width, height)
    ensures |ns| <= 4
    ensures forall k :: 0 <= k < |ns| ==>
      && ns[k].from == p
      && ns[k].to == Step(p, ns[k].dir)
      && InBounds(ns[k].to, width, height)
      && !Seen(m, ns[k].to, width, height)
    ensures |ns| == 0 <==> NeighborsSeen(m, p, width, height)
  {
    var row, col := p.row, p.col;
    var top := if row > 0 && !m[row - 1][col] then [Carve(p, Top, Pos(row - 1, col))] else [];
    var right := if col + 1 < width && !m[row][col + 1] then [Carve(p, Right, Pos(row, col + 1))] else [];
    var bottom := if row + 1 < height && !m[row + 1][col] then [Carve(p, Bottom, Pos(row + 1, col))] else [];
    var left := if col > 0 && !m[row][col - 1] then [Carve(p, Left, Pos(row, col - 1))] else [];
    assert NeighborsSeen(m, p, width, height) <==> |top| == |right| == |bottom| == |left| == 0 by {
      assert Step(p, Top) == Pos(row - 1, col) && Step(p, Right) == Pos(row, col + 1);
      assert Step(p, Bottom) == Pos(row + 1, col) && Step(p, Left) == Pos(row, col - 1);
    }
    top + right + bottom + left
  }

  /** Every in-bounds unvisited neighbour of `p` is among the candidates. */
  lemma UnvisitedNeighborsComplete(m: seq<seq<bool>>, p: Pos, width: nat, height: nat, d: Direction)
    requires ShapedFlags(m, width, height) && InBounds(p, width, height)
    requires InBounds(Step(p, d), width, height) && !Seen(m, Step(p, d), width, height)
    ensures Carve(p, d, Step(p, d)) in UnvisitedNeighbors(m, p, width, height)
  {
  }
}
