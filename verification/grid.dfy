/** Geometry of a maze grid: positions, the neighbour in each direction,
    whole-grid wall relations and paths through open walls. The grid is row
    major: row index = y, column index = x. */
module Grids {
  import opened Cells

  datatype Pos = Pos(row: int, col: int)

  const Origin := Pos(0, 0)

  /** The neighbouring position on side `d` (it may lie outside the grid). */
  function Step(p: Pos, d: Direction): Pos
  {
    match d
    case Top => Pos(p.row - 1, p.col)
    case Right => Pos(p.row, p.col + 1)
    case Bottom => Pos(p.row + 1, p.col)
    case Left => Pos(p.row, p.col - 1)
  }

  /** A step moves one cell: up or down a row for Top and Bottom, left or
      right a column for Left and Right; distinct sides lead to distinct
      neighbours. */
  lemma StepOffsets(p: Pos, d: Direction, e: Direction)
    ensures d == Top || d == Bottom ==>
      Step(p, d).col == p.col && Step(p, d).row == p.row + (if d == Top then -1 else 1)
    ensures d == Left || d == Right ==>
      Step(p, d).row == p.row && Step(p, d).col == p.col + (if d == Left then -1 else 1)
    ensures Step(p, d) == Step(p, e) ==> d == e
  {
  }

  /** Stepping out and back through the opposite side returns to the start. */
  lemma StepBack(p: Pos, d: Direction)
    ensures Step(Step(p, d), Opposite(d)) == p
  {
  }

  predicate InBounds(p: Pos, width: nat, height: nat)
  {
    0 <= p.row < height && 0 <= p.col < width
  }

  type Grid = seq<seq<Cell>>

  /** `height` rows of `width` cells each. */
  predicate Shaped(g: Grid, width: nat, height: nat)
  {
    |g| == height && forall r :: 0 <= r < height ==> |g[r]| == width
  }

  function At(g: Grid, p: Pos, width: nat, height: nat): Cell
    requires Shaped(g, width, height) && InBounds(p, width, height)
  {
    g[p.row][p.col]
  }

  /** The grid built by `Maze::new`: every cell a fresh cell. */
  function FreshGrid(width: nat, height: nat): (g: Grid)
    ensures Shaped(g, width, height)
    ensures forall r, c :: 0 <= r < height && 0 <= c < width ==> g[r][c] == NewCell()
  {
    seq(height, _ => seq(width, _ => NewCell()))
  }

  /** One side of one cell. */
  datatype Wall = Wall(at: Pos, side: Direction)

  /** A wall on the outer boundary: its cell is inside, the cell beyond is not. */
  predicate OnBoundary(w: Wall, width: nat, height: nat)
  {
    InBounds(w.at, width, height) && !InBounds(Step(w.at, w.side), width, height)
  }

  /** `c` (the cell at `p`) with every wall of `removed` that belongs to `p`
      taken down. */
  function Strip(c: Cell, p: Pos, removed: set<Wall>): (r: Cell)
    ensures forall d :: HasWall(r, d) == (HasWall(c, d) && Wall(p, d) !in removed)
    ensures r.visited == c.visited
  {
    Cell([c.walls[0] && Wall(p, Top) !in removed,
          c.walls[1] && Wall(p, Right) !in removed,
          c.walls[2] && Wall(p, Bottom) !in removed,
          c.walls[3] && Wall(p, Left) !in removed], c.visited)
  }

  /** `g` is `g0` with exactly the walls of `removed` taken down: same shape,
      same visitation flags, and a wall stands in `g` iff it stood in `g0` and
      is not in `removed`. */
  ghost predicate WallsRemoved(g0: Grid, g: Grid, removed: set<Wall>, width: nat, height: nat)
  {
    && Shaped(g0, width, height) && Shaped(g, width, height)
    && forall r, c :: 0 <= r < height && 0 <= c < width ==>
         g[r][c] == Strip(g0[r][c], Pos(r, c), removed)
  }

  lemma StripNothing(c: Cell, p: Pos)
    ensures Strip(c, p, {}) == c
  {
    CellsEqual(Strip(c, p, {}), c);
  }

  lemma StripTwice(c: Cell, p: Pos, s: set<Wall>, t: set<Wall>)
    ensures Strip(Strip(c, p, s), p, t) == Strip(c, p, s + t)
  {
    CellsEqual(Strip(Strip(c, p, s), p, t), Strip(c, p, s + t));
  }

  lemma StripRemoveWall(c: Cell, p: Pos, s: set<Wall>, d: Direction)
    ensures RemoveWall(Strip(c, p, s), d) == Strip(c, p, s + {Wall(p, d)})
  {
    CellsEqual(RemoveWall(Strip(c, p, s), d), Strip(c, p, s + {Wall(p, d)}));
  }

  /** Removing nothing leaves the grid as it is. */
  lemma WallsRemovedNothing(g: Grid, width: nat, height: nat)
    requires Shaped(g, width, height)
    ensures WallsRemoved(g, g, {}, width, height)
  {
    forall r, c | 0 <= r < height && 0 <= c < width
      ensures g[r][c] == Strip(g[r][c], Pos(r, c), {})
    {
      StripNothing(g[r][c], Pos(r, c));
    }
  }

  /** Removing `s` and then `t` removes `s + t`. */
  lemma WallsRemovedCompose(g0: Grid, g1: Grid, g2: Grid, s: set<Wall>, t: set<Wall>, width: nat, height: nat)
    requires WallsRemoved(g0, g1, s, width, height)
    requires WallsRemoved(g1, g2, t, width, height)
    ensures WallsRemoved(g0, g2, s + t, width, height)
  {
    forall r, c | 0 <= r < height && 0 <= c < width
      ensures g2[r][c] == Strip(g0[r][c], Pos(r, c), s + t)
    {
      StripTwice(g0[r][c], Pos(r, c), s, t);
    }
  }

  /** Clearing one wall of an in-bounds cell extends the removed set by that
      wall. */
  lemma WallsRemovedStep(g0: Grid, g: Grid, s: set<Wall>, p: Pos, d: Direction, width: nat, height: nat)
    requires WallsRemoved(g0, g, s, width, height)
    requires InBounds(p, width, height)
    ensures WallsRemoved(g0, g[p.row := g[p.row][p.col := RemoveWall(g[p.row][p.col], d)]],
                         s + {Wall(p, d)}, width, height)
  {
    var g' := g[p.row := g[p.row][p.col := RemoveWall(g[p.row][p.col], d)]];
    forall r, c | 0 <= r < height && 0 <= c < width
      ensures g'[r][c] == Strip(g0[r][c], Pos(r, c), s + {Wall(p, d)})
    {
      if Pos(r, c) == p {
        StripRemoveWall(g0[r][c], p, s, d);
      } else {
        CellsEqual(g'[r][c], Strip(g0[r][c], Pos(r, c), s + {Wall(p, d)}));
      }
    }
  }

  /** Every wall between two in-bounds neighbours is seen the same from both
      sides. */
  ghost predicate Symmetric(g: Grid, width: nat, height: nat)
    requires Shaped(g, width, height)
  {
    forall p, d :: InBounds(p, width, height) && InBounds(Step(p, d), width, height) ==>
      HasWall(At(g, p, width, height), d) == HasWall(At(g, Step(p, d), width, height), Opposite(d))
  }

  /** A set of walls that holds both sides of every interior wall it holds. */
  ghost predicate Paired(s: set<Wall>, width: nat, height: nat)
  {
    forall w :: w in s && InBounds(w.at, width, height) && InBounds(Step(w.at, w.side), width, height) ==>
      Wall(Step(w.at, w.side), Opposite(w.side)) in s
  }

  /** Taking down a paired set of walls keeps a symmetric grid symmetric. */
  lemma SymmetryPreserved(g0: Grid, g: Grid, s: set<Wall>, width: nat, height: nat)
    requires WallsRemoved(g0, g, s, width, height)
    requires Symmetric(g0, width, height)
    requires Paired(s, width, height)
    ensures Symmetric(g, width, height)
  {
    forall p, d | InBounds(p, width, height) && InBounds(Step(p, d), width, height)
      ensures HasWall(At(g, p, width, height), d) == HasWall(At(g, Step(p, d), width, height), Opposite(d))
    {
      var q := Step(p, d);
      StepBack(p, d);
      OppositeInvolution(d);
      assert Wall(p, d) in s ==> Wall(q, Opposite(d)) in s;
      assert Wall(q, Opposite(d)) in s ==> Wall(p, d) in s;
    }
  }

  /** A fresh grid has every wall standing, so it is symmetric. */
  lemma FreshGridSymmetric(width: nat, height: nat)
    ensures Symmetric(FreshGrid(width, height), width, height)
  {
  }

  /** Side `d` of `p` is open from both sides and leads to an in-bounds cell. */
  predicate Passage(g: Grid, width: nat, height: nat, p: Pos, d: Direction)
    requires Shaped(g, width, height)
  {
    && InBounds(p, width, height) && InBounds(Step(p, d), width, height)
    && !HasWall(At(g, p, width, height), d)
    && !HasWall(At(g, Step(p, d), width, height), Opposite(d))
  }

  /** `q` is the neighbour of `p` through an open wall. */
  predicate Linked(g: Grid, width: nat, height: nat, p: Pos, q: Pos)
    requires Shaped(g, width, height)
  {
    || (q == Step(p, Top) && Passage(g, width, height, p, Top))
    || (q == Step(p, Right) && Passage(g, width, height, p, Right))
    || (q == Step(p, Bottom) && Passage(g, width, height, p, Bottom))
    || (q == Step(p, Left) && Passage(g, width, height, p, Left))
  }

  /** A walk through in-bounds cells, each step through an open wall. */
  ghost predicate IsPath(g: Grid, width: nat, height: nat, path: seq<Pos>)
    requires Shaped(g, width, height)
  {
    && |path| > 0
    && InBounds(path[0], width, height)
    && forall i :: 0 <= i < |path| - 1 ==> Linked(g, width, height, path[i], path[i + 1])
  }

  /** A path followed by one more open step is a path. */
  lemma PathExtend(g: Grid, width: nat, height: nat, path: seq<Pos>, q: Pos)
    requires Shaped(g, width, height)
    requires IsPath(g, width, height, path)
    requires Linked(g, width, height, path[|path| - 1], q)
    ensures IsPath(g, width, height, path + [q])
  {
    var path' := path + [q];
    forall i | 0 <= i < |path'| - 1
      ensures Linked(g, width, height, path'[i], path'[i + 1])
    {
      if i < |path| - 1 {
        assert path'[i] == path[i] && path'[i + 1] == path[i + 1];
      }
    }
  }
}
