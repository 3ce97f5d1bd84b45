/** Exit punching: a named exit opens the outer wall at the midpoint cell of
    one edge of the maze. */
module Exits {
  import opened Errors
  import opened Cells
  import opened Grids

  /** The exits opened when no list is given. */
  const DefaultExits: seq<string> := ["top", "right", "bottom", "left"]

  predicate IsExitName(name: string)
  {
    name == "top" || name == "bottom" || name == "left" || name == "right"
  }

  /** The exit name of each side. */
  function SideName(d: Direction): (name: string)
    ensures IsExitName(name)
  {
    match d
    case Top => "top"
    case Right => "right"
    case Bottom => "bottom"
    case Left => "left"
  }

  /** Different sides have different names. */
  lemma SideNameInjective(d: Direction, e: Direction)
    ensures SideName(d) == SideName(e) ==> d == e
  {
    if SideName(d) == SideName(e) {
      assert SideName(d)[0] == SideName(e)[0];
      if d == Right || d == Left {
        assert SideName(d)[..2] == SideName(e)[..2];
      }
    }
  }

  /** The wall an exit on side `d` opens: the outer wall of the middle cell
      of that side (integer halves). */
  function SideWall(d: Direction, width: nat, height: nat): (w: Wall)
    requires width >= 1 && height >= 1
    ensures w.side == d && OnBoundary(w, width, height)
  {
    match d
    case Top => Wall(Pos(0, width / 2), Top)
    case Bottom => Wall(Pos(height - 1, width / 2), Bottom)
    case Left => Wall(Pos(height / 2, 0), Left)
    case Right => Wall(Pos(height / 2, width - 1), Right)
  }

  /** The wall a named exit opens: the top or bottom wall of the middle column,
      the left or right wall of the middle row; nothing for an unknown name. */
  function ExitWall(name: string, width: nat, height: nat): (w: Option<Wall>)
    requires width >= 1 && height >= 1
    ensures w.Some? <==> IsExitName(name)
    ensures w.Some? ==> name == SideName(w.value.side) && w.value == SideWall(w.value.side, width, height)
  {
    if name == "top" then Some(SideWall(Top, width, height))
    else if name == "bottom" then Some(SideWall(Bottom, width, height))
    else if name == "left" then Some(SideWall(Left, width, height))
    else if name == "right" then Some(SideWall(Right, width, height))
    else None
  }

  const Sides: set<Direction> := {Top, Right, Bottom, Left}

  /** Length of the longest prefix of `names` made of recognised exit names,
      i.e. the position of the first unrecognised name, if any. */
  function ValidPrefix(names: seq<string>): (k: nat)
    ensures k <= |names|
    ensures forall j :: 0 <= j < k ==> IsExitName(names[j])
    ensures k < |names| ==> !IsExitName(names[k])
  {
    if |names| == 0 || !IsExitName(names[0]) then 0
    else 1 + ValidPrefix(names[1..])
  }

  /** The walls opened by the recognised names of `names`: the midpoint
      wall of each side named, all on the outer boundary. */
  function ExitWalls(names: seq<string>, width: nat, height: nat): (s: set<Wall>)
    requires width >= 1 && height >= 1
    ensures forall w :: w in s ==> OnBoundary(w, width, height)
    ensures forall i :: 0 <= i < |names| && IsExitName(names[i]) ==> ExitWall(names[i], width, height).value in s
    ensures forall w :: w in s <==> SideName(w.side) in names && w == SideWall(w.side, width, height)
  {
    var s := set d | d in Sides && SideName(d) in names :: SideWall(d, width, height);
    forall w: Wall | SideName(w.side) in names && w == SideWall(w.side, width, height)
      ensures w in s
    {
      assert w.side in Sides;
    }
    s
  }

  /** The default list opens the four midpoint walls. */
  lemma DefaultExitWalls(width: nat, height: nat)
    requires width >= 1 && height >= 1
    ensures ExitWalls(DefaultExits, width, height) ==
      {Wall(Pos(0, width / 2), Top), Wall(Pos(height / 2, width - 1), Right),
       Wall(Pos(height - 1, width / 2), Bottom), Wall(Pos(height / 2, 0), Left)}
  {
    var s := ExitWalls(DefaultExits, width, height);
    assert ExitWall(DefaultExits[0], width, height).value in s;
    assert ExitWall(DefaultExits[1], width, height).value in s;
    assert ExitWall(DefaultExits[2], width, height).value in s;
    assert ExitWall(DefaultExits[3], width, height).value in s;
  }

  /** A recognised name at position `i` inside the recognised prefix extends
      it past `i`. */
  lemma ValidPrefixStep(names: seq<string>, i: nat)
    requires i <= ValidPrefix(names) && i < |names| && IsExitName(names[i])
    ensures i + 1 <= ValidPrefix(names)
  {
  }

  /** Opening one more recognised exit adds its wall. */
  lemma ExitWallsGrow(names: seq<string>, i: nat, width: nat, height: nat)
    requires width >= 1 && height >= 1
    requires i < |names| && IsExitName(names[i])
    ensures ExitWalls(names[..i + 1], width, height) ==
            ExitWalls(names[..i], width, height) + {ExitWall(names[i], width, height).value}
  {
    var added := ExitWall(names[i], width, height).value;
    assert names[..i + 1] == names[..i] + [names[i]];
    forall w | w in ExitWalls(names[..i + 1], width, height)
      ensures w in ExitWalls(names[..i], width, height) || w == added
    {
      if SideName(w.side) !in names[..i] {
        SideNameInjective(w.side, added.side);
      }
    }
  }
}
