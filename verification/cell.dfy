/** A single maze cell: four wall flags and a visitation flag. */
module Cells {
  import opened Errors

  /** The four sides of a cell, with the discriminants Top=0 .. Left=3. */
  datatype Direction = Top | Right | Bottom | Left

  /** The discriminant of a direction, which is also its index in `walls`. */
  function Index(d: Direction): (i: nat)
    ensures i < 4
  {
    match d
    case Top => 0
    case Right => 1
    case Bottom => 2
    case Left => 3
  }

  /** Decoding of a direction index, as done by `remove_wall` and `can_move`. */
  function FromIndex(i: nat): (d: Option<Direction>)
    ensures d.Some? <==> i < 4
    ensures d.Some? ==> Index(d.value) == i
  {
    if i == 0 then Some(Top)
    else if i == 1 then Some(Right)
    else if i == 2 then Some(Bottom)
    else if i == 3 then Some(Left)
    else None
  }

  /** Encoding then decoding a direction gives it back, and distinct
      directions have distinct discriminants. */
  lemma IndexRoundTrip(d: Direction, e: Direction)
    ensures FromIndex(Index(d)) == Some(d)
    ensures Index(d) == Index(e) ==> d == e
  {
    match d
    case Top =>
    case Right =>
    case Bottom =>
    case Left =>
  }

  /** The side a neighbour sees: Top<->Bottom and Right<->Left. */
  function Opposite(d: Direction): (o: Direction)
    ensures o != d
    ensures Index(o) == (Index(d) + 2) % 4
  {
    match d
    case Top => Bottom
    case Right => Left
    case Bottom => Top
    case Left => Right
  }

  lemma OppositeInvolution(d: Direction)
    ensures Opposite(Opposite(d)) == d
  {
  }

  /** Exactly four wall flags, in the order [Top, Right, Bottom, Left]. */
  type Walls = s: seq<bool> | |s| == 4 witness [true, true, true, true]

  datatype Cell = Cell(walls: Walls, visited: bool)

  /** True when the cell has a wall on side `d`. */
  function HasWall(c: Cell, d: Direction): bool
  {
    c.walls[Index(d)]
  }

  /** The wall flags are read in the order [Top, Right, Bottom, Left]. */
  lemma HasWallOrder(c: Cell)
    ensures HasWall(c, Top) == c.walls[0] && HasWall(c, Right) == c.walls[1]
    ensures HasWall(c, Bottom) == c.walls[2] && HasWall(c, Left) == c.walls[3]
  {
  }

  /** Two cells are equal exactly when they agree on every wall and on the
      visitation flag. */
  lemma CellsEqual(a: Cell, b: Cell)
    requires forall d :: HasWall(a, d) == HasWall(b, d)
    requires a.visited == b.visited
    ensures a == b
  {
    assert HasWall(a, Top) == HasWall(b, Top);
    assert HasWall(a, Right) == HasWall(b, Right);
    assert HasWall(a, Bottom) == HasWall(b, Bottom);
    assert HasWall(a, Left) == HasWall(b, Left);
    assert a.walls == b.walls;
  }

  /** A fresh cell: all four walls standing and not visited (the body of
      `Cell::new` is not part of this model; this is its assumed meaning). */
  function NewCell(): (c: Cell)
    ensures forall d :: HasWall(c, d)
    ensures !c.visited
  {
    Cell([true, true, true, true], false)
  }

  /** Clears the wall on side `d` and nothing else (assumed meaning of
      `Cell::remove_wall`). */
  function RemoveWall(c: Cell, d: Direction): (r: Cell)
    ensures !HasWall(r, d)
    ensures forall e :: e != d ==> HasWall(r, e) == HasWall(c, e)
    ensures r.visited == c.visited
  {
    Cell(c.walls[Index(d) := false], c.visited)
  }

  /** Sets the visitation flag and keeps the walls (assumed meaning of
      `Cell::set_visited`). */
  function SetVisited(c: Cell): (r: Cell)
    ensures r.visited
    ensures forall d :: HasWall(r, d) == HasWall(c, d)
  {
    Cell(c.walls, true)
  }
}
