/** The dungeon: a rectangular grid of maze rooms joined through their exits,
    and the player's walk through it. */
module Dungeons {
  import opened Errors
  import opened Cells
  import opened Grids
  import opened Carving
  import opened Exits
  import opened Mazes
  import opened Entities

  /** The exits of room `(r, c)` of a `rows` x `cols` dungeon: corner and edge
      rooms get three, inner rooms four, in the order the dungeon lists
      them. Every room gets an exit towards each neighbouring room. */
  function ExitSet(r: nat, c: nat, rows: nat, cols: nat): (exits: seq<string>)
    requires r < rows && c < cols
    ensures ValidPrefix(exits) == |exits|
    ensures r > 0 ==> "top" in exits
    ensures r + 1 < rows ==> "bottom" in exits
    ensures c > 0 ==> "left" in exits
    ensures c + 1 < cols ==> "right" in exits
    ensures |exits| == 4 <==> 0 < r < rows - 1 && 0 < c < cols - 1
    ensures |exits| == 3 || |exits| == 4
  {
    var onTop := r == 0;
    var onBottom := r == rows - 1;
    var onLeft := c == 0;
    var onRight := c == cols - 1;
    if (onTop && onLeft) || (onTop && onRight) || (onBottom && onLeft) || (onBottom && onRight) then
      if onTop && onLeft then ["left", "bottom", "right"]
      else if onTop && onRight then ["right", "bottom", "left"]
      else if onBottom && onLeft then ["left", "top", "right"]
      else ["right", "top", "left"]
    else if onTop || onBottom || onLeft || onRight then
      if onTop then ["left", "right", "bottom"]
      else if onBottom then ["left", "right", "top"]
      else if onLeft then ["top", "bottom", "right"]
      else ["top", "bottom", "left"]
    else
      ["top", "bottom", "left", "right"]
  }

  /** In a generated room, a boundary wall is open exactly when it is the
      midpoint wall of a side whose exit was requested. */
  lemma OpenBoundary(g: Grid, width: nat, height: nat, exits: seq<string>, w: Wall)
    requires width >= 1 && height >= 1
    requires Generated(g, width, height, exits)
    requires OnBoundary(w, width, height)
    ensures Shaped(g, width, height)
    ensures !HasWall(At(g, w.at, width, height), w.side) <==>
            SideName(w.side) in exits && w == SideWall(w.side, width, height)
  {
    GeneratedBoundary(g, width, height, exits, w);
  }

  /** The movement command names: "up", "right", "down", "left". */
  function Heading(token: string): (d: Option<Direction>)
    ensures d.Some? <==> token == "up" || token == "right" || token == "down" || token == "left"
  {
    if token == "up" then Some(Top)
    else if token == "right" then Some(Right)
    else if token == "down" then Some(Bottom)
    else if token == "left" then Some(Left)
    else None
  }

  /** The command that moves towards `d`. */
  function HeadingName(d: Direction): string
  {
    match d
    case Top => "up"
    case Right => "right"
    case Bottom => "down"
    case Left => "left"
  }

  /** Each direction has exactly one command naming it. */
  lemma HeadingRoundTrip(d: Direction, token: string)
    ensures Heading(HeadingName(d)) == Some(d)
    ensures Heading(token) == Some(d) ==> token == HeadingName(d)
  {
  }

  /** Where the player is: a room of the dungeon and a cell of that room
      (`x` the column, `y` the row). */
  datatype Location = Location(roomRow: nat, roomCol: nat, x: nat, y: nat)

  function CellOf(loc: Location): Pos
  {
    Pos(loc.y, loc.x)
  }

  function RoomOf(loc: Location): Pos
  {
    Pos(loc.roomRow, loc.roomCol)
  }

  /** The location is a cell of a room of a `rows` x `cols` dungeon of
      `width` x `height` rooms. */
  predicate InRoom(loc: Location, rows: nat, cols: nat, width: nat, height: nat)
  {
    InBounds(RoomOf(loc), cols, rows) && InBounds(CellOf(loc), width, height)
  }

  /** The room-to-room crossing a move off the edge of the current room asks
      for, when there is a room on that side: the player enters the next room
      on its opposite edge. */
  function Crossing(loc: Location, d: Direction, rows: nat, cols: nat, width: nat, height: nat): Option<Location>
    requires width >= 1 && height >= 1
  {
    match d
    case Top =>
      if loc.y == 0 && loc.roomRow > 0
      then Some(Location(loc.roomRow - 1, loc.roomCol, loc.x, height - 1)) else None
    case Bottom =>
      if loc.y + 1 == height && loc.roomRow + 1 < rows
      then Some(Location(loc.roomRow + 1, loc.roomCol, loc.x, 0)) else None
    case Left =>
      if loc.x == 0 && loc.roomCol > 0
      then Some(Location(loc.roomRow, loc.roomCol - 1, width - 1, loc.y)) else None
    case Right =>
      if loc.x + 1 == width && loc.roomCol + 1 < cols
      then Some(Location(loc.roomRow, loc.roomCol + 1, 0, loc.y)) else None
  }

  /** From a cell of the dungeon, a crossing exists exactly when the step
      leaves the room and a room lies on that side; it enters that room on
      the edge facing back, keeping the coordinate along the edge. */
  lemma CrossingShape(loc: Location, d: Direction, rows: nat, cols: nat, width: nat, height: nat)
    requires width >= 1 && height >= 1
    requires InRoom(loc, rows, cols, width, height)
    ensures var next := Crossing(loc, d, rows, cols, width, height);
      && (next.Some? <==> !InBounds(Step(CellOf(loc), d), width, height)
                          && InBounds(Step(RoomOf(loc), d), cols, rows))
      && (next.Some? ==>
            && InRoom(next.value, rows, cols, width, height)
            && RoomOf(next.value) == Step(RoomOf(loc), d)
            && !InBounds(Step(CellOf(next.value), Opposite(d)), width, height)
            && (d == Top || d == Bottom ==> next.value.x == loc.x)
            && (d == Left || d == Right ==> next.value.y == loc.y))
  {
  }

  /** The effect of one move command: whether the player moved and where it
      now stands, given whether the wall on side `d` of its cell is open.
      A move inside the room steps to the neighbouring cell; a move off the
      edge crosses into the neighbouring room; anything else leaves the
      player where it was. */
  function MoveOutcome(loc: Location, d: Direction, rows: nat, cols: nat, width: nat, height: nat,
                       open: bool): (out: (bool, Location))
    requires width >= 1 && height >= 1
    ensures !out.0 ==> out.1 == loc
    ensures out.0 ==> open
    ensures out.0 && InBounds(Step(CellOf(loc), d), width, height) ==>
              RoomOf(out.1) == RoomOf(loc) && CellOf(out.1) == Step(CellOf(loc), d)
    ensures out.0 && !InBounds(Step(CellOf(loc), d), width, height) ==>
              && RoomOf(out.1) == Step(RoomOf(loc), d)
              && !InBounds(Step(CellOf(out.1), Opposite(d)), width, height)
              && (d == Top || d == Bottom ==> out.1.x == loc.x)
              && (d == Left || d == Right ==> out.1.y == loc.y)
    ensures InRoom(loc, rows, cols, width, height) ==> InRoom(out.1, rows, cols, width, height)
    ensures InRoom(loc, rows, cols, width, height) && open ==>
              (out.0 <==> InBounds(Step(CellOf(loc), d), width, height) || InBounds(Step(RoomOf(loc), d), cols, rows))
  {
    var q := Step(CellOf(loc), d);
    if InBounds(q, width, height) then
      if open then (true, loc.(x := q.col as nat, y := q.row as nat)) else (false, loc)
    else
      match Crossing(loc, d, rows, cols, width, height)
      case Some(next) => if open then (true, next) else (false, loc)
      case None => (false, loc)
  }

  /** What a player walking through a room relies on: walls are shared by
      neighbouring cells, and a boundary wall is open exactly at the
      midpoint of a side whose exit was requested. */
  ghost predicate Walkable(g: Grid, width: nat, height: nat, exits: seq<string>)
  {
    && width >= 1 && height >= 1
    && Shaped(g, width, height)
    && Symmetric(g, width, height)
    && forall w :: OnBoundary(w, width, height) ==>
         (!HasWall(At(g, w.at, width, height), w.side) <==>
          SideName(w.side) in exits && w == SideWall(w.side, width, height))
  }

  /** Every generated room is walkable. */
  lemma GeneratedWalkable(g: Grid, width: nat, height: nat, exits: seq<string>)
    requires width >= 1 && height >= 1
    requires Generated(g, width, height, exits)
    ensures Walkable(g, width, height, exits)
  {
    GeneratedSymmetric(g, width, height, exits);
    forall w | OnBoundary(w, width, height)
      ensures !HasWall(At(g, w.at, width, height), w.side) <==>
              SideName(w.side) in exits && w == SideWall(w.side, width, height)
    {
      OpenBoundary(g, width, height, exits, w);
    }
  }

  /** A crossing through an exit of the current room lands on the facing
      exit of the next room, and crossing back from there returns to the
      starting cell. */
  lemma CrossingReversible(loc: Location, d: Direction, rows: nat, cols: nat, width: nat, height: nat)
    requires width >= 1 && height >= 1
    requires InRoom(loc, rows, cols, width, height)
    requires Crossing(loc, d, rows, cols, width, height).Some?
    requires Wall(CellOf(loc), d) == SideWall(d, width, height)
    ensures var next := Crossing(loc, d, rows, cols, width, height).value;
            && InRoom(next, rows, cols, width, height)
            && SideName(Opposite(d)) in ExitSet(next.roomRow, next.roomCol, rows, cols)
            && Wall(CellOf(next), Opposite(d)) == SideWall(Opposite(d), width, height)
            && Crossing(next, Opposite(d), rows, cols, width, height) == Some(loc)
  {
    var next := Crossing(loc, d, rows, cols, width, height).value;
    match d {
      case Top =>
        assert next.roomRow + 1 < rows;
      case Bottom =>
        assert next.roomRow > 0;
      case Left =>
        assert next.roomCol + 1 < cols;
      case Right =>
        assert next.roomCol > 0;
    }
  }

  /** Once the way back is open, the opposite move undoes a move that
      succeeded: inside the room it steps back, across rooms it takes the
      crossing back. */
  lemma OutcomeBack(loc: Location, d: Direction, rows: nat, cols: nat, width: nat, height: nat,
                    open: bool, openBack: bool)
    requires width >= 1 && height >= 1
    requires InRoom(loc, rows, cols, width, height)
    requires MoveOutcome(loc, d, rows, cols, width, height, open).0
    requires openBack
    requires var there := MoveOutcome(loc, d, rows, cols, width, height, open).1;
             !InBounds(Step(CellOf(loc), d), width, height) ==>
               Crossing(there, Opposite(d), rows, cols, width, height) == Some(loc)
    ensures var there := MoveOutcome(loc, d, rows, cols, width, height, open).1;
            MoveOutcome(there, Opposite(d), rows, cols, width, height, openBack) == (true, loc)
  {
    StepBack(CellOf(loc), d);
  }

  /** Whether side `d` of cell `p` of grid `g` is open. */
  function OpenIn(g: Grid, width: nat, height: nat, p: Pos, d: Direction): bool
    requires Shaped(g, width, height)
  {
    InBounds(p, width, height) && !HasWall(At(g, p, width, height), d)
  }

  /** The reversibility argument on the rooms' grids: `here` is the room the
      move starts in and `next` the room it ends in. */
  lemma GridsReversible(here: Grid, next: Grid, loc: Location, d: Direction,
                        rows: nat, cols: nat, width: nat, height: nat)
    requires width >= 1 && height >= 1
    requires InRoom(loc, rows, cols, width, height)
    requires Walkable(here, width, height, ExitSet(loc.roomRow, loc.roomCol, rows, cols))
    requires MoveOutcome(loc, d, rows, cols, width, height, OpenIn(here, width, height, CellOf(loc), d)).0
    requires var there := MoveOutcome(loc, d, rows, cols, width, height, OpenIn(here, width, height, CellOf(loc), d)).1;
             && there.roomRow < rows && there.roomCol < cols
             && Walkable(next, width, height, ExitSet(there.roomRow, there.roomCol, rows, cols))
             && (RoomOf(there) == RoomOf(loc) ==> next == here)
    ensures var there := MoveOutcome(loc, d, rows, cols, width, height, OpenIn(here, width, height, CellOf(loc), d)).1;
            MoveOutcome(there, Opposite(d), rows, cols, width, height, OpenIn(next, width, height, CellOf(there), Opposite(d)))
              == (true, loc)
  {
    var open := OpenIn(here, width, height, CellOf(loc), d);
    var there := MoveOutcome(loc, d, rows, cols, width, height, open).1;
    var back := OpenIn(next, width, height, CellOf(there), Opposite(d));
    var p := CellOf(loc);
    if InBounds(Step(p, d), width, height) {
      StepBack(p, d);
      assert HasWall(At(here, p, width, height), d) == HasWall(At(here, Step(p, d), width, height), Opposite(d));
    } else {
      assert OnBoundary(Wall(p, d), width, height);
      CrossingReversible(loc, d, rows, cols, width, height);
      assert OnBoundary(Wall(CellOf(there), Opposite(d)), width, height);
    }
    assert back;
    OutcomeBack(loc, d, rows, cols, width, height, open, back);
  }

  class Dungeon {
    var mazes: seq<seq<Maze>>
    var player: Entity
    var currentRoomRow: nat
    var currentRoomCol: nat

    ghost function Rooms(): set<Maze>
      reads this`mazes
    {
      set r, c | 0 <= r < |mazes| && 0 <= c < |mazes[r]| :: mazes[r][c]
    }

    /** A non-empty rectangle of well-formed rooms of one common size. */
    ghost predicate Layout()
      reads this`mazes, Rooms()
    {
      && |mazes| >= 1 && |mazes[0]| >= 1
      && (forall r :: 0 <= r < |mazes| ==> |mazes[r]| == |mazes[0]|)
      && mazes[0][0].width >= 1 && mazes[0][0].height >= 1
      && (forall r, c :: 0 <= r < |mazes| && 0 <= c < |mazes[r]| ==>
            && mazes[r][c].width == mazes[0][0].width
            && mazes[r][c].height == mazes[0][0].height
            && mazes[r][c].Valid())
    }

    /** The rooms form a layout and the current room is one of them. */
    ghost predicate Valid()
      reads this`mazes, this`currentRoomRow, this`currentRoomCol, Rooms()
    {
      Layout() && currentRoomRow < |mazes| && currentRoomCol < |mazes[0]|
    }

    function Rows(): nat
      reads this`mazes
    {
      |mazes|
    }

    function Cols(): nat
      reads this`mazes
      requires |mazes| >= 1
    {
      |mazes[0]|
    }

    function Width(): nat
      reads this`mazes
      requires |mazes| >= 1 && |mazes[0]| >= 1
    {
      mazes[0][0].width
    }

    function Height(): nat
      reads this`mazes
      requires |mazes| >= 1 && |mazes[0]| >= 1
    {
      mazes[0][0].height
    }

    /** The player's location. */
    ghost function Here(): Location
      reads this`currentRoomRow, this`currentRoomCol, this`player, player`x, player`y
    {
      Location(currentRoomRow, currentRoomCol, player.x, player.y)
    }

    /** Whether the room at `loc` lets the player through side `d` of its
        cell. */
    function Open(loc: Location, d: Direction): bool
      reads this`mazes, Rooms()
      requires Layout() && loc.roomRow < Rows() && loc.roomCol < Cols()
    {
      mazes[loc.roomRow][loc.roomCol].CanMove(loc.y, loc.x, Index(d))
    }

    /** `Dungeon::new`: every room is a maze generated with its exit
        set, and the player starts in the middle room. */
    constructor (rows: nat, cols: nat, mazeWidth: nat, mazeHeight: nat, player: Entity)
      requires rows == 0 || cols == 0 || (mazeWidth >= 1 && mazeHeight >= 1)
      ensures |mazes| == rows && forall r :: 0 <= r < rows ==> |mazes[r]| == cols
      ensures forall r, c {:trigger Ready(mazes[r][c], r, c, rows, cols, mazeWidth, mazeHeight)} ::
                0 <= r < rows && 0 <= c < cols ==>
                Ready(mazes[r][c], r, c, rows, cols, mazeWidth, mazeHeight)
      ensures forall r, c {:trigger RoomGrid(mazes[r][c].grid, r, c, rows, cols, mazeWidth, mazeHeight)} ::
                0 <= r < rows && 0 <= c < cols ==>
                RoomGrid(mazes[r][c].grid, r, c, rows, cols, mazeWidth, mazeHeight)
      ensures this.player == player
      ensures currentRoomRow == rows / 2 && currentRoomCol == cols / 2
      ensures rows >= 1 && cols >= 1 ==> Valid() && Walking()
    {
      var built, grids := BuildRooms(rows, cols, mazeWidth, mazeHeight);
      mazes := built;
      this.player := player;
      currentRoomRow := rows / 2;
      currentRoomCol := cols / 2;
      new;
      if rows >= 1 && cols >= 1 {
        ReadyRooms(mazeWidth, mazeHeight);
      }
    }

    /** Rooms all built by `Dungeon::new` make a valid dungeon of walkable
        rooms. */
    lemma ReadyRooms(width: nat, height: nat)
      requires |mazes| >= 1 && |mazes[0]| >= 1
      requires forall r :: 0 <= r < |mazes| ==> |mazes[r]| == |mazes[0]|
      requires forall r, c {:trigger Ready(mazes[r][c], r, c, |mazes|, |mazes[0]|, width, height)} ::
                 0 <= r < |mazes| && 0 <= c < |mazes[0]| ==>
                 Ready(mazes[r][c], r, c, |mazes|, |mazes[0]|, width, height)
      requires currentRoomRow < |mazes| && currentRoomCol < |mazes[0]|
      ensures Valid() && Walking()
    {
      assert Ready(mazes[0][0], 0, 0, |mazes|, |mazes[0]|, width, height);
      forall r, c | 0 <= r < |mazes| && 0 <= c < |mazes[r]|
        ensures mazes[r][c].width == width && mazes[r][c].height == height && mazes[r][c].Valid()
      {
        assert Ready(mazes[r][c], r, c, |mazes|, |mazes[0]|, width, height);
      }
      assert Valid();
      forall r, c | 0 <= r < Rows() && 0 <= c < Cols()
        ensures Walkable(mazes[r][c].grid, Width(), Height(), ExitSet(r, c, Rows(), Cols()))
      {
        assert Ready(mazes[r][c], r, c, Rows(), Cols(), Width(), Height());
      }
    }

    /** The room the player is in. */
    function CurrentRoom(): (m: Maze)
      reads this`mazes, this`currentRoomRow, this`currentRoomCol, Rooms()
      requires Valid()
      ensures m.Valid() && m.width == Width() && m.height == Height()
    {
      mazes[currentRoomRow][currentRoomCol]
    }

    /** `move_to_room`: switches to room `(row, col)` when the dungeon has it;
        otherwise an out-of-range error and no change. */
    method MoveToRoom(row: nat, col: nat) returns (r: Outcome)
      modifies this`currentRoomRow, this`currentRoomCol
      ensures r.Pass? <==> row < |mazes| && col < |mazes[0]|
      ensures r.Pass? ==> currentRoomRow == row && currentRoomCol == col
      ensures r.Fail? ==> r.error == OutOfRange
                          && currentRoomRow == old(currentRoomRow) && currentRoomCol == old(currentRoomCol)
      ensures old(Valid()) ==> Valid()
      ensures r.Pass? && Layout() ==> Valid()
    {
      if row < |mazes| && col < |mazes[0]| {
        currentRoomRow := row;
        currentRoomCol := col;
        r := Pass;
      } else {
        r := Fail(OutOfRange);
      }
    }

    /** `move_player`: an unknown command is an invalid-argument error and
        moves nothing; a known one has exactly the effect `MoveOutcome`
        describes, with the wall of the player's cell as the current room has
        it. */
    method MovePlayer(direction: string) returns (r: Result<bool>)
      requires Valid()
      modifies this`currentRoomRow, this`currentRoomCol, player`x, player`y
      ensures Valid()
      ensures Heading(direction).None? ==> r == Err(InvalidArgument) && Here() == old(Here())
      ensures Heading(direction).Some? ==>
                var d := Heading(direction).value;
                r.Ok? && (r.value, Here()) ==
                  MoveOutcome(old(Here()), d, Rows(), Cols(), Width(), Height(), old(Open(Here(), d)))
      ensures InRoom(old(Here()), Rows(), Cols(), Width(), Height()) ==> InRoom(Here(), Rows(), Cols(), Width(), Height())
    {
      var heading := Heading(direction);
      if heading.None? {
        return Err(InvalidArgument);
      }
      var moved := Walk(heading.value);
      return Ok(moved);
    }

    /** The move of `move_player` once the command is known. */
    method Walk(d: Direction) returns (moved: bool)
      requires Valid()
      modifies this`currentRoomRow, this`currentRoomCol, player`x, player`y
      ensures Valid()
      ensures (moved, Here()) == MoveOutcome(old(Here()), d, Rows(), Cols(), Width(), Height(), old(Open(Here(), d)))
    {
      ghost var start := Here();
      var maze := mazes[currentRoomRow][currentRoomCol];
      var dirIndex := Index(d);
      var canMove := maze.CanMove(player.y, player.x, dirIndex);
      assert canMove == Open(start, d);
      var dx, dy := 0, 0;
      match d {
        case Top => dy := -1;
        case Right => dx := 1;
        case Bottom => dy := 1;
        case Left => dx := -1;
      }
      var newX := player.x as int + dx;
      var newY := player.y as int + dy;
      assert Pos(newY, newX) == Step(CellOf(start), d);

      if 0 <= newX < maze.width && 0 <= newY < maze.height {
        if canMove {
          PlaceAt(Location(currentRoomRow, currentRoomCol, newX as nat, newY as nat));
          return true;
        } else {
          return false;
        }
      }

      var next := NextRoom(d);
      if next.None? {
        return false;
      }

      if canMove {
        PlaceAt(next.value);
        return true;
      } else {
        return false;
      }
    }

    /** Puts the player at `loc`: the current room indices and the
        player's coordinates take its values. */
    method PlaceAt(loc: Location)
      requires Valid() && InRoom(loc, Rows(), Cols(), Width(), Height())
      modifies this`currentRoomRow, this`currentRoomCol, player`x, player`y
      ensures Valid() && Here() == loc
    {
      currentRoomRow := loc.roomRow;
      currentRoomCol := loc.roomCol;
      player.x := loc.x;
      player.y := loc.y;
    }

    /** The room and cell a move off the edge of the current room leads to,
        looked up the way `move_player` does: the target cell's coordinate
        comes from the neighbouring room's own size. */
    method NextRoom(d: Direction) returns (next: Option<Location>)
      requires Valid()
      ensures next == Crossing(Here(), d, Rows(), Cols(), Width(), Height())
    {
      var maze := mazes[currentRoomRow][currentRoomCol];
      next := None;
      match d {
        case Top =>
          if player.y == 0 && currentRoomRow > 0 {
            next := Some(Location(currentRoomRow - 1, currentRoomCol, player.x,
                                  mazes[currentRoomRow - 1][currentRoomCol].height - 1));
          }
        case Bottom =>
          if player.y + 1 == maze.height && currentRoomRow + 1 < |mazes| {
            next := Some(Location(currentRoomRow + 1, currentRoomCol, player.x, 0));
          }
        case Left =>
          if player.x == 0 && currentRoomCol > 0 {
            next := Some(Location(currentRoomRow, currentRoomCol - 1,
                                  mazes[currentRoomRow][currentRoomCol - 1].width - 1, player.y));
          }
        case Right =>
          if player.x + 1 == maze.width && currentRoomCol + 1 < |mazes[0]| {
            next := Some(Location(currentRoomRow, currentRoomCol + 1, 0, player.y));
          }
      }
    }

    /** `current_maze`: a copy of the current room. */
    method CurrentMaze() returns (m: Maze)
      requires Valid()
      ensures fresh(m)
      ensures m.width == CurrentRoom().width && m.height == CurrentRoom().height
      ensures m.grid == CurrentRoom().grid
    {
      m := new Maze.Copy(mazes[currentRoomRow][currentRoomCol]);
    }

    /** Every room is walkable. */
    ghost predicate Walking()
      reads this`mazes, Rooms()
      requires Layout()
    {
      forall r, c :: 0 <= r < Rows() && 0 <= c < Cols() ==>
        Walkable(mazes[r][c].grid, Width(), Height(), ExitSet(r, c, Rows(), Cols()))
    }

    /** `Open` is the wall test on the room's grid. */
    lemma OpenMatches(loc: Location, d: Direction)
      requires Valid() && loc.roomRow < Rows() && loc.roomCol < Cols()
      ensures Shaped(mazes[loc.roomRow][loc.roomCol].grid, Width(), Height())
      ensures Open(loc, d) == OpenIn(mazes[loc.roomRow][loc.roomCol].grid, Width(), Height(), CellOf(loc), d)
    {
      IndexRoundTrip(d, d);
    }

    /** In a dungeon built by `Dungeon::new`, every move that succeeds is
        undone by the opposite move: inside a room because walls are shared
        by both cells, across rooms because facing rooms open matching
        exits at the same midpoint. */
    lemma MoveReversible(loc: Location, d: Direction)
      requires Valid() && Walking()
      requires InRoom(loc, Rows(), Cols(), Width(), Height())
      requires MoveOutcome(loc, d, Rows(), Cols(), Width(), Height(), Open(loc, d)).0
      ensures var there := MoveOutcome(loc, d, Rows(), Cols(), Width(), Height(), Open(loc, d)).1;
              MoveOutcome(there, Opposite(d), Rows(), Cols(), Width(), Height(), Open(there, Opposite(d)))
                == (true, loc)
    {
      var width, height, rows, cols := Width(), Height(), Rows(), Cols();
      var open := Open(loc, d);
      var there := MoveOutcome(loc, d, rows, cols, width, height, open).1;
      var here := mazes[loc.roomRow][loc.roomCol];
      var next := mazes[there.roomRow][there.roomCol];
      OpenMatches(loc, d);
      OpenMatches(there, Opposite(d));
      GridsReversible(here.grid, next.grid, loc, d, rows, cols, width, height);
    }
  }

  /** Room `(r, c)` of a `rows` x `cols` dungeon as `Dungeon::new` makes
      it: a well-formed maze of the given size that is walkable with the
      exits of its place. */
  ghost predicate Ready(m: Maze, r: nat, c: nat, rows: nat, cols: nat, width: nat, height: nat)
    reads m
  {
    && r < rows && c < cols
    && m.width == width && m.height == height && m.Valid()
    && width >= 1 && height >= 1
    && Walkable(m.grid, width, height, ExitSet(r, c, rows, cols))
  }

  /** The grid of room `(r, c)`: a perfect maze generated with the exits
      of its place. */
  ghost predicate RoomGrid(g: Grid, r: nat, c: nat, rows: nat, cols: nat, width: nat, height: nat)
  {
    && r < rows && c < cols && width >= 1 && height >= 1
    && Generated(g, width, height, ExitSet(r, c, rows, cols))
  }

  /** One room of `Dungeon::new`: a fresh maze generated with the exits of
      its place; generation with those exits cannot fail. */
  method NewRoom(r: nat, c: nat, rows: nat, cols: nat, width: nat, height: nat) returns (maze: Maze)
    requires r < rows && c < cols && width >= 1 && height >= 1
    ensures fresh(maze) && Ready(maze, r, c, rows, cols, width, height)
    ensures RoomGrid(maze.grid, r, c, rows, cols, width, height)
  {
    var exits := ExitSet(r, c, rows, cols);
    maze := new Maze(width, height);
    var result, order, carves := maze.GenerateMaze(Some(exits));
    assert result.Pass?;
    GenerateMazeGenerated(maze.grid, width, height, exits, order, carves);
    GeneratedWalkable(maze.grid, width, height, exits);
  }

  /** The rooms of `Dungeon::new`, row by row, with their grids. */
  method BuildRooms(rows: nat, cols: nat, mazeWidth: nat, mazeHeight: nat)
    returns (built: seq<seq<Maze>>, ghost grids: seq<seq<Grid>>)
    requires rows == 0 || cols == 0 || (mazeWidth >= 1 && mazeHeight >= 1)
    ensures |built| == rows == |grids|
    ensures forall r :: 0 <= r < rows ==> |built[r]| == cols == |grids[r]|
    ensures forall r, c {:trigger Ready(built[r][c], r, c, rows, cols, mazeWidth, mazeHeight)} ::
              0 <= r < rows && 0 <= c < cols ==>
              Ready(built[r][c], r, c, rows, cols, mazeWidth, mazeHeight)
    ensures forall r, c :: 0 <= r < rows && 0 <= c < cols ==> built[r][c].grid == grids[r][c]
    ensures forall r, c {:trigger RoomGrid(grids[r][c], r, c, rows, cols, mazeWidth, mazeHeight)} ::
              0 <= r < rows && 0 <= c < cols ==>
              RoomGrid(grids[r][c], r, c, rows, cols, mazeWidth, mazeHeight)
  {
    built, grids := [], [];
    var r := 0;
    while r < rows
      invariant r <= rows && |built| == r == |grids|
      invariant forall i :: 0 <= i < r ==> |built[i]| == cols == |grids[i]|
      invariant forall i, j {:trigger Ready(built[i][j], i, j, rows, cols, mazeWidth, mazeHeight)} ::
                  0 <= i < r && 0 <= j < cols ==>
                  Ready(built[i][j], i, j, rows, cols, mazeWidth, mazeHeight)
      invariant forall i, j :: 0 <= i < r && 0 <= j < cols ==> built[i][j].grid == grids[i][j]
      invariant forall i, j {:trigger RoomGrid(grids[i][j], i, j, rows, cols, mazeWidth, mazeHeight)} ::
                  0 <= i < r && 0 <= j < cols ==>
                  RoomGrid(grids[i][j], i, j, rows, cols, mazeWidth, mazeHeight)
    {
      var rowVec, rowGrids := BuildRow(r, rows, cols, mazeWidth, mazeHeight);
      built, grids := built + [rowVec], grids + [rowGrids];
      r := r + 1;
    }
  }

  /** Each room of `row` is room `(r, j)` as `Dungeon::new` makes it, and
      `grids` holds the rooms' grids. */
  ghost predicate RowReady(row: seq<Maze>, grids: seq<Grid>, r: nat, rows: nat, cols: nat, width: nat, height: nat)
    reads set j | 0 <= j < |row| :: row[j]
  {
    && |row| == |grids|
    && forall j :: 0 <= j < |row| ==> Ready(row[j], r, j, rows, cols, width, height) && row[j].grid == grids[j]
  }

  /** A ready room appended at the end keeps a row ready. */
  lemma RowReadyAppend(row: seq<Maze>, grids: seq<Grid>, m: Maze, r: nat, rows: nat, cols: nat, width: nat, height: nat)
    requires RowReady(row, grids, r, rows, cols, width, height)
    requires Ready(m, r, |row|, rows, cols, width, height)
    ensures RowReady(row + [m], grids + [m.grid], r, rows, cols, width, height)
  {
    var next := row + [m];
    forall j | 0 <= j < |next|
      ensures Ready(next[j], r, j, rows, cols, width, height)
    {
      if j < |row| {
        assert next[j] == row[j];
      }
    }
  }

  /** Each grid of `grids` is the grid of room `(r, j)`. */
  ghost predicate RowGrids(grids: seq<Grid>, r: nat, rows: nat, cols: nat, width: nat, height: nat)
  {
    forall j :: 0 <= j < |grids| ==> RoomGrid(grids[j], r, j, rows, cols, width, height)
  }

  /** The grid of the next room appended at the end keeps a row of grids
      right. */
  lemma RowGridsAppend(grids: seq<Grid>, g: Grid, r: nat, rows: nat, cols: nat, width: nat, height: nat)
    requires RowGrids(grids, r, rows, cols, width, height)
    requires RoomGrid(g, r, |grids|, rows, cols, width, height)
    ensures RowGrids(grids + [g], r, rows, cols, width, height)
  {
    var next := grids + [g];
    forall j | 0 <= j < |next|
      ensures RoomGrid(next[j], r, j, rows, cols, width, height)
    {
      if j < |grids| {
        assert next[j] == grids[j];
      }
    }
  }

  /** One row of rooms of `Dungeon::new`: room `(r, c)` is a maze
      generated with the exits of its place. */
  method BuildRow(r: nat, rows: nat, cols: nat, width: nat, height: nat)
    returns (rowVec: seq<Maze>, ghost grids: seq<Grid>)
    requires r < rows && (cols == 0 || (width >= 1 && height >= 1))
    ensures |rowVec| == cols == |grids|
    ensures forall j {:trigger Ready(rowVec[j], r, j, rows, cols, width, height)} ::
              0 <= j < cols ==> Ready(rowVec[j], r, j, rows, cols, width, height)
    ensures forall j :: 0 <= j < cols ==> rowVec[j].grid == grids[j]
    ensures forall j {:trigger RoomGrid(grids[j], r, j, rows, cols, width, height)} ::
              0 <= j < cols ==> RoomGrid(grids[j], r, j, rows, cols, width, height)
  {
    rowVec, grids := [], [];
    var c := 0;
    while c < cols
      invariant c <= cols && |rowVec| == c
      invariant RowReady(rowVec, grids, r, rows, cols, width, height)
      invariant RowGrids(grids, r, rows, cols, width, height)
    {
      var maze := NewRoom(r, c, rows, cols, width, height);
      RowReadyAppend(rowVec, grids, maze, r, rows, cols, width, height);
      RowGridsAppend(grids, maze.grid, r, rows, cols, width, height);
      rowVec, grids := rowVec + [maze], grids + [maze.grid];
      c := c + 1;
    }
  }
}
