/** A maze room: a `height` x `width` grid of cells that the backtracker carves
    and whose boundary gets exits punched. */
module Mazes {
  import opened Errors
  import opened Cells
  import opened Grids
  import opened Carving
  import opened Exits

  class Maze {
    const width: nat
    const height: nat
    var grid: Grid

    ghost predicate Valid()
      reads this
    {
      Shaped(grid, width, height)
    }

    /** `Maze::new`: `height` rows of `width` fresh cells. */
    constructor (width: nat, height: nat)
      ensures this.width == width && this.height == height
      ensures grid == FreshGrid(width, height)
      ensures Valid()
    {
      this.width := width;
      this.height := height;
      grid := FreshGrid(width, height);
    }

    /** A copy with the same dimensions and cells (the derived `Clone`). */
    constructor Copy(source: Maze)
      ensures width == source.width && height == source.height && grid == source.grid
    {
      width := source.width;
      height := source.height;
      grid := source.grid;
    }

    /** The four wall flags of a cell in the order (Top, Right, Bottom, Left),
        or an out-of-range error. */
    function GetCellWalls(row: nat, col: nat): (r: Result<(bool, bool, bool, bool)>)
      reads this
      requires Valid()
      ensures r.Ok? <==> row < height && col < width
      ensures r.Err? ==> r.error == OutOfRange
      ensures r.Ok? ==> r.value == (HasWall(grid[row][col], Top), HasWall(grid[row][col], Right),
                                    HasWall(grid[row][col], Bottom), HasWall(grid[row][col], Left))
    {
      if row >= height || col >= width then Err(OutOfRange)
      else
        var cell := grid[row][col];
        Ok((cell.walls[0], cell.walls[1], cell.walls[2], cell.walls[3]))
    }

    method SetCellVisited(row: nat, col: nat) returns (r: Outcome)
      requires Valid()
      modifies this`grid
      ensures Valid()
      ensures r.Pass? <==> row < height && col < width
      ensures r.Fail? ==> r.error == OutOfRange && grid == old(grid)
      ensures r.Pass? ==> grid == old(grid)[row := old(grid)[row][col := SetVisited(old(grid)[row][col])]]
    {
      if row >= height || col >= width {
        return Fail(OutOfRange);
      }
      grid := grid[row := grid[row][col := SetVisited(grid[row][col])]];
      r := Pass;
    }

    /** Takes down one side of one cell. The neighbour's facing wall is left
        as it is. A bad direction index is reported as out of range. */
    method RemoveWall(row: nat, col: nat, dir: nat) returns (r: Outcome)
      requires Valid()
      modifies this`grid
      ensures Valid()
      ensures r.Pass? <==> row < height && col < width && dir < 4
      ensures r.Fail? ==> r.error == OutOfRange && grid == old(grid)
      ensures r.Pass? ==> WallsRemoved(old(grid), grid, {Wall(Pos(row, col), FromIndex(dir).value)}, width, height)
    {
      if row >= height || col >= width {
        return Fail(OutOfRange);
      }
      var direction := FromIndex(dir);
      if direction.None? {
        return Fail(OutOfRange);
      }
      WallsRemovedNothing(grid, width, height);
      WallsRemovedStep(grid, grid, {}, Pos(row, col), direction.value, width, height);
      assert {} + {Wall(Pos(row, col), direction.value)} == {Wall(Pos(row, col), direction.value)};
      grid := grid[row := grid[row][col := Cells.RemoveWall(grid[row][col], direction.value)]];
      r := Pass;
    }

    /** Carves a spanning-tree maze with a randomized depth-first backtracker,
        then punches the named exits (all four when none are given). The
        random choice among unvisited neighbours is left arbitrary. `order`
        and `carves` record the visit order and the carve steps. */
    method GenerateMaze(exits: Option<seq<string>>)
      returns (r: Outcome, ghost order: seq<Pos>, ghost carves: seq<Carve>)
      requires Valid() && width >= 1 && height >= 1
      modifies this`grid
      ensures Valid()
      ensures Spanning(order, carves, width, height)
      ensures var names := if exits.Some? then exits.value else DefaultExits;
        && (r.Pass? <==> ValidPrefix(names) == |names|)
        && (r.Fail? ==> r.error == InvalidArgument)
        && WallsRemoved(old(grid), grid,
                        CarveWalls(carves) + ExitWalls(names[..ValidPrefix(names)], width, height),
                        width, height)
    {
      var names := if exits.Some? then exits.value else DefaultExits;
      order, carves := Backtrack();
      ghost var carved := grid;
      r := AddExits(names);
      WallsRemovedCompose(old(grid), carved, grid, CarveWalls(carves),
                          ExitWalls(names[..ValidPrefix(names)], width, height), width, height);
    }

    /** The carving loop of `GenerateMaze`: a depth-first backtracker over an
        explicit stack and a `visited` matrix. Each step either carves from
        the top cell into one of its unvisited neighbours, chosen arbitrarily,
        or pops the top cell when it has none. */
    method Backtrack() returns (ghost order: seq<Pos>, ghost carves: seq<Carve>)
      requires Valid() && width >= 1 && height >= 1
      modifies this`grid
      ensures Valid()
      ensures Spanning(order, carves, width, height)
      ensures WallsRemoved(old(grid), grid, CarveWalls(carves), width, height)
    {
      var stack := [];
      var visited: seq<seq<bool>> := seq(height, _ => seq(width, _ => false));
      BacktrackingStart(width, height);
      stack := stack + [Origin];
      visited := visited[0 := visited[0][0 := true]];
      order, carves := [Origin], [];
      ghost var g0 := grid;
      ghost var cells := width * height;
      WallsRemovedNothing(grid, width, height);

      while |stack| > 0
        invariant Valid()
        invariant Backtracking(visited, stack, order, carves, width, height)
        invariant WallsRemoved(g0, grid, CarveWalls(carves), width, height)
        invariant CountMarked(visited) <= cells
        decreases cells - CountMarked(visited), |stack|
      {
        visited, stack, order, carves := BacktrackStep(visited, stack, order, carves, g0);
      }

      BacktrackingDone(visited, order, carves, width, height);
    }

    /** One pass of the backtracker's loop: pop the top cell; if it has
        unvisited neighbours, push it back, carve into one of them (an
        arbitrary one), mark it visited and push it. */
    method BacktrackStep(visited: seq<seq<bool>>, stack: seq<Pos>, ghost order: seq<Pos>,
                         ghost carves: seq<Carve>, ghost g0: Grid)
      returns (visited': seq<seq<bool>>, stack': seq<Pos>, ghost order': seq<Pos>, ghost carves': seq<Carve>)
      requires Valid() && |stack| > 0
      requires Backtracking(visited, stack, order, carves, width, height)
      requires WallsRemoved(g0, grid, CarveWalls(carves), width, height)
      modifies this`grid
      ensures Valid()
      ensures Backtracking(visited', stack', order', carves', width, height)
      ensures WallsRemoved(g0, grid, CarveWalls(carves'), width, height)
      ensures || (CountMarked(visited') == CountMarked(visited) + 1 <= width * height)
              || (CountMarked(visited') == CountMarked(visited) && |stack'| < |stack|)
      ensures var ns := UnvisitedNeighbors(visited, stack[|stack| - 1], width, height);
        if |ns| == 0 then
          stack' == stack[..|stack| - 1] && visited' == visited && order' == order && carves' == carves
        else
          exists k :: 0 <= k < |ns| && stack' == stack + [ns[k].to]
                      && visited' == Mark(visited, ns[k].to, width, height)
                      && order' == order + [ns[k].to] && carves' == carves + [ns[k]]
    {
      stack' := stack;
      var cur := stack'[|stack'| - 1];
      stack' := stack'[..|stack'| - 1];
      var neighbors := UnvisitedNeighbors(visited, cur, width, height);
      if |neighbors| > 0 {
        stack' := stack' + [cur];
        PopPush(stack);
        var k :| 0 <= k < |neighbors|;
        var cv := neighbors[k];
        visited', stack' := Advance(visited, stack', order, carves, g0, cv);
        order', carves' := order + [cv.to], carves + [cv];
        assert stack' == stack + [neighbors[k].to] && carves' == carves + [neighbors[k]];
      } else {
        BacktrackingPop(visited, stack, order, carves, width, height);
        visited', order', carves' := visited, order, carves;
      }
    }

    /** The carving branch of the backtracker's loop: carve from the top of
        the stack into the unvisited neighbour `cv.to`, mark it visited and
        push it. */
    method Advance(visited: seq<seq<bool>>, stack: seq<Pos>, ghost order: seq<Pos>,
                   ghost carves: seq<Carve>, ghost g0: Grid, cv: Carving.Carve)
      returns (visited': seq<seq<bool>>, stack': seq<Pos>)
      requires Valid() && |stack| > 0
      requires Backtracking(visited, stack, order, carves, width, height)
      requires WallsRemoved(g0, grid, CarveWalls(carves), width, height)
      requires cv.from == stack[|stack| - 1] && cv.to == Step(cv.from, cv.dir)
      requires InBounds(cv.to, width, height) && !Seen(visited, cv.to, width, height)
      modifies this`grid
      ensures Valid()
      ensures visited' == Mark(visited, cv.to, width, height) && stack' == stack + [cv.to]
      ensures Backtracking(visited', stack', order + [cv.to], carves + [cv], width, height)
      ensures WallsRemoved(g0, grid, CarveWalls(carves + [cv]), width, height)
      ensures CountMarked(visited') == CountMarked(visited) + 1 <= width * height
    {
      CarvePassage(cv, g0, carves);
      BacktrackingPush(visited, stack, order, carves, cv, width, height);
      visited' := visited[cv.to.row := visited[cv.to.row][cv.to.col := true]];
      stack' := stack + [cv.to];
    }

    /** One carve step: the wall of `cv.from` on side `cv.dir` and the facing
        wall of `cv.to` come down together. */
    method CarvePassage(cv: Carving.Carve, ghost g0: Grid, ghost carves: seq<Carving.Carve>)
      requires Valid()
      requires InBounds(cv.from, width, height) && InBounds(cv.to, width, height)
      requires WallsRemoved(g0, grid, CarveWalls(carves), width, height)
      modifies this`grid
      ensures Valid()
      ensures WallsRemoved(g0, grid, CarveWalls(carves + [cv]), width, height)
    {
      OpenWall(Wall(cv.from, cv.dir), g0, CarveWalls(carves));
      OpenWall(Wall(cv.to, Opposite(cv.dir)), g0, CarveWalls(carves) + {Wall(cv.from, cv.dir)});
      CarveWallsGrow(carves, cv);
    }

    /** Takes down one wall of a cell, adding it to the walls removed so far. */
    method OpenWall(w: Wall, ghost g0: Grid, ghost removed: set<Wall>)
      requires Valid() && InBounds(w.at, width, height)
      requires WallsRemoved(g0, grid, removed, width, height)
      modifies this`grid
      ensures Valid()
      ensures WallsRemoved(g0, grid, removed + {w}, width, height)
    {
      var p := w.at;
      WallsRemovedStep(g0, grid, removed, p, w.side, width, height);
      grid := grid[p.row := grid[p.row][p.col := Cells.RemoveWall(grid[p.row][p.col], w.side)]];
    }

    /** Opens the exit named by each entry of `exits`, in order; stops with an
        invalid-argument error at the first unrecognised name, keeping the
        exits already opened. */
    method AddExits(exits: seq<string>) returns (r: Outcome)
      requires Valid() && width >= 1 && height >= 1
      modifies this`grid
      ensures Valid()
      ensures r.Pass? <==> ValidPrefix(exits) == |exits|
      ensures r.Fail? ==> r.error == InvalidArgument
      ensures WallsRemoved(old(grid), grid, ExitWalls(exits[..ValidPrefix(exits)], width, height), width, height)
    {
      WallsRemovedNothing(grid, width, height);
      var i := 0;
      while i < |exits|
        invariant Valid()
        invariant i <= ValidPrefix(exits)
        invariant WallsRemoved(old(grid), grid, ExitWalls(exits[..i], width, height), width, height)
      {
        var known := OpenExit(exits, i, old(grid));
        if !known {
          return Fail(InvalidArgument);
        }
        i := i + 1;
      }
      assert exits[..i] == exits;
      r := Pass;
    }

    /** One iteration of `add_exits`: opens the midpoint wall of the side
        that `exits[i]` names on top of the exits before it, or reports that
        the name is not an exit and changes nothing. */
    method OpenExit(exits: seq<string>, i: nat, ghost g0: Grid) returns (known: bool)
      requires Valid() && width >= 1 && height >= 1
      requires i < |exits| && i <= ValidPrefix(exits)
      requires WallsRemoved(g0, grid, ExitWalls(exits[..i], width, height), width, height)
      modifies this`grid
      ensures Valid()
      ensures known <==> IsExitName(exits[i])
      ensures known ==> i + 1 <= ValidPrefix(exits)
      ensures known ==> WallsRemoved(g0, grid, ExitWalls(exits[..i + 1], width, height), width, height)
      ensures !known ==> ValidPrefix(exits) == i && grid == old(grid)
    {
      match ExitWall(exits[i], width, height)
      case None =>
        known := false;
      case Some(w) =>
        OpenWall(w, g0, ExitWalls(exits[..i], width, height));
        ExitWallsGrow(exits, i, width, height);
        ValidPrefixStep(exits, i);
        known := true;
    }

    /** True when the cell exists, the direction index is valid and that side
        of the cell has no wall. */
    function CanMove(row: nat, col: nat, dir: nat): (b: bool)
      reads this
      requires Valid()
      ensures b <==> row < height && col < width && dir < 4 && !HasWall(grid[row][col], FromIndex(dir).value)
    {
      if row >= height || col >= width then false
      else
        match FromIndex(dir)
        case None => false
        case Some(direction) => !HasWall(grid[row][col], direction)
    }
  }

  /** `g` is a maze that `GenerateMaze` can produce from a fresh grid with
      the recognised exit list `exits`: a spanning carve of the grid plus the
      exit walls. */
  ghost predicate Generated(g: Grid, width: nat, height: nat, exits: seq<string>)
    requires width >= 1 && height >= 1
  {
    exists order: seq<Pos>, cs: seq<Carve> ::
      && Spanning(order, cs, width, height)
      && WallsRemoved(FreshGrid(width, height), g, CarveWalls(cs) + ExitWalls(exits, width, height), width, height)
  }

  /** Full connectivity: every cell of a generated maze is reachable from
      (0, 0) through open walls. */
  lemma GeneratedConnected(g: Grid, width: nat, height: nat, exits: seq<string>, p: Pos)
    returns (path: seq<Pos>)
    requires width >= 1 && height >= 1
    requires Generated(g, width, height, exits)
    requires InBounds(p, width, height)
    ensures Shaped(g, width, height)
    ensures IsPath(g, width, height, path)
    ensures path[0] == Origin && path[|path| - 1] == p
  {
    var order, cs :| && Spanning(order, cs, width, height)
                     && WallsRemoved(FreshGrid(width, height), g, CarveWalls(cs) + ExitWalls(exits, width, height),
                                     width, height);
    path := PathFromOrigin(FreshGrid(width, height), g, CarveWalls(cs) + ExitWalls(exits, width, height),
                           order, cs, width, height, p);
  }

  /** Wall symmetry: every interior wall of a generated maze is open from both
      sides or from neither. */
  lemma GeneratedSymmetric(g: Grid, width: nat, height: nat, exits: seq<string>)
    requires width >= 1 && height >= 1
    requires Generated(g, width, height, exits)
    ensures Shaped(g, width, height)
    ensures Symmetric(g, width, height)
  {
    var order, cs :| && Spanning(order, cs, width, height)
                     && WallsRemoved(FreshGrid(width, height), g, CarveWalls(cs) + ExitWalls(exits, width, height),
                                     width, height);
    var removed := CarveWalls(cs) + ExitWalls(exits, width, height);
    CarveWallsShape(cs, width, height);
    assert Paired(removed, width, height);
    FreshGridSymmetric(width, height);
    SymmetryPreserved(FreshGrid(width, height), g, removed, width, height);
  }

  /** The outer boundary of a generated maze is closed except at its exits. */
  lemma GeneratedBoundary(g: Grid, width: nat, height: nat, exits: seq<string>, w: Wall)
    requires width >= 1 && height >= 1
    requires Generated(g, width, height, exits)
    requires OnBoundary(w, width, height)
    ensures Shaped(g, width, height)
    ensures !HasWall(At(g, w.at, width, height), w.side) <==> w in ExitWalls(exits, width, height)
  {
    var order, cs :| && Spanning(order, cs, width, height)
                     && WallsRemoved(FreshGrid(width, height), g, CarveWalls(cs) + ExitWalls(exits, width, height),
                                     width, height);
    CarveWallsInside(cs, width, height, w);
  }

  /** What `GenerateMaze` leaves behind on a fresh maze with a recognised exit
      list is a generated maze. */
  lemma GenerateMazeGenerated(g: Grid, width: nat, height: nat, exits: seq<string>,
                              order: seq<Pos>, cs: seq<Carve>)
    requires width >= 1 && height >= 1
    requires ValidPrefix(exits) == |exits|
    requires Spanning(order, cs, width, height)
    requires WallsRemoved(FreshGrid(width, height), g,
                          CarveWalls(cs) + ExitWalls(exits[..ValidPrefix(exits)], width, height), width, height)
    ensures Generated(g, width, height, exits)
  {
    assert exits[..ValidPrefix(exits)] == exits;
  }

  /** In a symmetric maze a move between two neighbouring cells is allowed in
      one direction exactly when the move back is. */
  lemma CanMoveBothWays(m: Maze, p: Pos, d: Direction)
    requires m.Valid() && Symmetric(m.grid, m.width, m.height)
    requires InBounds(p, m.width, m.height) && InBounds(Step(p, d), m.width, m.height)
    ensures m.CanMove(p.row as nat, p.col as nat, Index(d)) ==
            m.CanMove(Step(p, d).row as nat, Step(p, d).col as nat, Index(Opposite(d)))
  {
    IndexRoundTrip(d, d);
    IndexRoundTrip(Opposite(d), d);
    assert HasWall(At(m.grid, p, m.width, m.height), d) ==
           HasWall(At(m.grid, Step(p, d), m.width, m.height), Opposite(d));
  }

  /** Popping the top of a stack and pushing it back gives the same stack. */
  lemma PopPush<T>(s: seq<T>)
    requires |s| > 0
    ensures s[..|s| - 1] + [s[|s| - 1]] == s
  {
  }
}
