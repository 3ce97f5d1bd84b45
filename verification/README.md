# DungeonEscape2D simulation core in Dafny

This project models the Rust simulation core of DungeonEscape2D, a grid-based dungeon
crawler. It covers:

- the maze room, with its wall grid, the randomized depth-first backtracker that carves it,
  exit punching and the bounds-checked cell accessors;
- the dungeon, a `rows` x `cols` matrix of rooms whose exits depend on the room's place,
  and the player's moves inside a room and between rooms;
- the entity record with its armor-reduced damage;
- the treasure chest with its one-shot open;
- the stand-alone player record.

Each Rust file becomes one or more Dafny modules:

| Dafny file | module | Rust source |
|---|---|---|
| `cell.dfy` | `Cells` | `src/maze/cell.rs`: `Direction` and `Cell` as datatypes |
| `grid.dfy` | `Grids` | positions, the wall grid and whole-grid wall relations of `src/maze/mod.rs` |
| `carving.dfy` | `Carving` | the backtracker's carve steps, its `visited` matrix and the loop invariant |
| `exits.dfy` | `Exits` | the exit names of `add_exits` and the walls they open |
| `maze.dfy` | `Mazes` | `Maze` as a class whose `grid` field the methods update |
| `dungeon.dfy` | `Dungeons` | the exit-set table, `Dungeon` as a class, and `move_player` |
| `entity.dfy` | `Entities` | `Entity` as a class |
| `chest.dfy` | `Chests` | `ChestContent` as a datatype, `Chest` as a class |
| `player.dfy` | `Players` | `Player` as a class |
| `errors.dfy` | `Errors`, `Ints` | error kinds, result wrappers, and `i32`/`u32` |

A few modelling choices apply throughout:

- Errors raised through the Python binding become `Errors.Error`.
  - `OutOfRange` stands for the index error.
  - `InvalidArgument` stands for the value error.
- `usize` is `nat`.
- `i32` and `u32` are newtypes, so an `i32` overflow is an obligation the caller must discharge.
- The grid is row major: row = y, column = x.

Maze generation is specified by what it takes down. `Grids.WallsRemoved(g0, g, S)` says
that `g` is `g0` with exactly the walls in `S` removed.

- The backtracker's carve steps form a spanning tree rooted at (0, 0). This is
  `Carving.Spanning`: `width*height - 1` carves, each into a cell not seen before.
- `add_exits` removes exactly the midpoint walls `Exits.ExitWalls` of the recognised
  prefix of the exit list.
- `Mazes.Generated` packages these two facts. Connectivity, wall symmetry and "the
  boundary is closed except at the exits" are proved from it.

Player movement is specified by the pure function `Dungeons.MoveOutcome` over a
`Location` (room row, room column, x, y). `Dungeon.MovePlayer` is proved to have exactly
that effect.

`Dungeon.MoveReversible` proves that in a dungeon built by `Dungeon::new`, every
successful move is undone by the opposite move. This holds for a step inside a room and
for a crossing into the next room through its facing exit.

Some behaviour worth noting:

- `Dungeon` holds the rooms, the player entity and the current room indices.
  `move_player` only moves the player.
- `remove_wall` reports a bad direction index as an index error (`OutOfRange`).
- `Dungeon::new` calls `expect` on maze generation. The model proves that this never
  fails, because every exit name the table produces is recognised.

## Model

| member | source | states |
|---|---|---|
| Cells.Index | src/maze/cell.rs:3-8 | the discriminant of a direction is below 4 |
| Cells.FromIndex | src/maze/mod.rs:48-53 | an index decodes to a direction iff it is below 4, and the decoded direction has that index |
| Cells.IndexRoundTrip | src/maze/cell.rs:3-8 | decoding the discriminant of `d` gives `d` back; distinct directions have distinct discriminants |
| Cells.Opposite | src/maze/mod.rs:72-81 | the facing side differs from `d` and has discriminant `(d + 2) mod 4` (Top/Bottom, Right/Left) |
| Cells.OppositeInvolution | src/maze/mod.rs:72-81 | the facing side of the facing side is the side itself |
| Cells.HasWallOrder | src/maze/mod.rs:150 | the wall test reads the flags in the order Top, Right, Bottom, Left (assumed meaning of `Cell::has_wall`, on `Cells.HasWall`) |
| Cells.CellsEqual | src/maze/cell.rs:10-14 | two cells are equal when they agree on all four walls and on `visited` |
| Cells.NewCell | src/maze/mod.rs:20 | a fresh cell has all four walls and is not visited (assumed meaning of `Cell::new`) |
| Cells.RemoveWall | src/maze/mod.rs:55 | clears the wall on side `d` only and keeps `visited` (assumed meaning of `Cell::remove_wall`) |
| Cells.SetVisited | src/maze/mod.rs:40 | sets `visited` and keeps every wall (assumed meaning of `Cell::set_visited`) |
| Grids.FreshGrid | src/maze/mod.rs:19-21 | `height` rows of `width` cells, every one a fresh cell |
| Grids.StepOffsets | src/maze/mod.rs:71-81 | `Grids.Step` moves one cell: a row up for Top, down for Bottom, a column left for Left, right for Right; different sides lead to different neighbours |
| Grids.StepBack | src/maze/mod.rs:71-82 | stepping to a neighbour and back through the opposite side returns to the start |
| Grids.Strip | src/maze/mod.rs:87-88 | a wall of the cell stands afterwards iff it stood before and is not among the removed walls |
| Grids.WallsRemovedStep | src/maze/mod.rs:55 | clearing one wall of an in-bounds cell adds exactly that wall to the removed set |
| Grids.WallsRemovedCompose | src/maze/mod.rs:68-94 | removing one set of walls and then another removes their union |
| Grids.SymmetryPreserved | src/maze/mod.rs:87-88 | taking down walls in facing pairs keeps every interior wall the same from both sides |
| Grids.FreshGridSymmetric | src/maze/mod.rs:19-21 | a fresh grid is symmetric |
| Grids.PathExtend | src/maze/mod.rs:87-88 | a path followed by one more open step is a path |
| Carving.CarveWalls | src/maze/mod.rs:86-88 | every carve step contributes both its wall and the neighbour's facing wall |
| Carving.CarveWallsShape | src/maze/mod.rs:71-88 | carved walls come in facing pairs between two in-bounds cells |
| Carving.CarveWallsInside | src/maze/mod.rs:71-88 | carving never opens an outer boundary wall |
| Carving.UnvisitedNeighbors | src/maze/mod.rs:69-82 | at most four candidates, each an in-bounds unvisited neighbour of the cell; none exactly when every neighbour is visited |
| Carving.UnvisitedNeighborsComplete | src/maze/mod.rs:71-82 | every in-bounds unvisited neighbour of the cell is among the candidates |
| Carving.Mark | src/maze/mod.rs:89 | marking `p` visited adds `p` to the visited cells and nothing else |
| Carving.CountMark | src/maze/mod.rs:89 | marking an unvisited cell raises the number of visited cells by exactly one |
| Carving.CountMarkedBounds | src/maze/mod.rs:63 | the visited count is at most `width*height`; it is 0 for the initial matrix and `width*height` when all are marked |
| Carving.ClosedMarksAll | src/maze/mod.rs:68-92 | a visited set containing (0, 0) that is closed under neighbours is the whole grid |
| Carving.BacktrackingStart | src/maze/mod.rs:62-66 | the state after pushing and marking (0, 0) satisfies the backtracker's invariant |
| Carving.BacktrackingPop | src/maze/mod.rs:68-84 | popping a cell with no unvisited neighbour keeps the invariant |
| Carving.BacktrackingPush | src/maze/mod.rs:84-90 | carving into an unvisited neighbour, marking and pushing it keeps the invariant and adds exactly one visited cell |
| Carving.TreeGrow | src/maze/mod.rs:86-90 | a carve from a visited cell to a new one extends the tree |
| Carving.BacktrackingDone | src/maze/mod.rs:68-92 | when the stack is empty every cell is visited, reached by exactly `width*height - 1` carves |
| Carving.PathToVisited | src/maze/mod.rs:84-90 | every visited cell is reached from (0, 0) through carved walls |
| Carving.PathFromOrigin | src/maze/mod.rs:62-92 | with a spanning carve every in-bounds cell has a path from (0, 0) |
| Exits.SideName | src/maze/mod.rs:128-132 | every side has a recognised exit name |
| Exits.SideNameInjective | src/maze/mod.rs:128-132 | different sides have different exit names |
| Exits.SideWall | src/maze/mod.rs:124-132 | the exit wall of a side lies on that side of the outer boundary |
| Exits.ExitWall | src/maze/mod.rs:127-133 | a name opens a wall iff it is "top", "bottom", "left" or "right", and that wall is the midpoint wall of the named side |
| Exits.ValidPrefix | src/maze/mod.rs:127-134 | the names before it are all recognised and the name at it, if any, is not |
| Exits.ValidPrefixStep | src/maze/mod.rs:127-134 | a recognised name inside the recognised prefix extends it by one |
| Exits.ExitWalls | src/maze/mod.rs:124-132 | a wall is opened iff its side is named in the list and it is that side's midpoint wall; all lie on the boundary |
| Exits.ExitWallsGrow | src/maze/mod.rs:127-132 | opening one more recognised exit adds exactly its wall |
| Exits.DefaultExitWalls | src/maze/mod.rs:60 | without a list, the four midpoint walls are opened |
| Mazes.Maze.constructor | src/maze/mod.rs:19-22 | the maze has the given size and a fresh grid |
| Mazes.Maze.Copy | src/dungeon/mod.rs:180 | the clone has the same size and cells |
| Mazes.Maze.GetCellWalls | src/maze/mod.rs:28-34 | out-of-range error iff the cell is outside the grid; otherwise the four wall flags in the order Top, Right, Bottom, Left |
| Mazes.Maze.SetCellVisited | src/maze/mod.rs:36-42 | out-of-range error with no change iff the cell is outside; otherwise only that cell is marked visited |
| Mazes.Maze.RemoveWall | src/maze/mod.rs:44-57 | out-of-range error with no change for a bad cell or direction index; otherwise exactly that one wall is cleared, and the neighbour's facing wall is left as it was |
| Mazes.Maze.GenerateMaze | src/maze/mod.rs:59-96 | the carves form a spanning tree, the grid is the old grid minus the carved walls and the exit walls of the recognised prefix, and an invalid-argument error occurs iff some name is unrecognised |
| Mazes.Maze.Backtrack | src/maze/mod.rs:62-92 | the loop ends with a spanning tree of carves, and the grid has exactly the carved walls removed |
| Mazes.Maze.BacktrackStep | src/maze/mod.rs:68-91 | one iteration pops the top cell when it has no unvisited neighbour, and otherwise carves into one of its unvisited-neighbour candidates, marks that cell and pushes it, recording the carve; it keeps the invariant and either visits a new cell or shrinks the stack |
| Mazes.Maze.Advance | src/maze/mod.rs:85-90 | carving from the top of the stack into an unvisited neighbour removes that wall pair, marks exactly that cell, pushes it, keeps the invariant and adds one visited cell |
| Mazes.Maze.CarvePassage | src/maze/mod.rs:86-88 | a carve step removes its wall pair and nothing else |
| Mazes.Maze.OpenWall | src/maze/mod.rs:129-132 | removes exactly one more wall |
| Mazes.Maze.AddExits | src/maze/mod.rs:123-138 | succeeds iff every name is recognised; on an unrecognised name it fails with an invalid argument after opening the exits before it; exactly those exit walls are removed |
| Mazes.Maze.OpenExit | src/maze/mod.rs:128-133 | a recognised name opens its wall; an unrecognised one changes nothing and marks the end of the recognised prefix |
| Mazes.Maze.CanMove | src/maze/mod.rs:139-151 | true iff the cell is in the grid, the index is below 4 and that side of the cell has no wall |
| Mazes.GeneratedConnected | src/maze/mod.rs:59-96 | every cell of a generated maze is reachable from (0, 0) through open walls |
| Mazes.GeneratedSymmetric | src/maze/mod.rs:84-94 | every interior wall of a generated maze is the same from both sides |
| Mazes.GeneratedBoundary | src/maze/mod.rs:59-96 | a boundary wall of a generated maze is open iff it is one of the exit walls |
| Mazes.GenerateMazeGenerated | src/maze/mod.rs:59-96 | a fresh maze generated with a fully recognised exit list is a generated maze |
| Mazes.CanMoveBothWays | src/maze/mod.rs:139-151 | in a symmetric maze a move to a neighbour is allowed iff the move back is |
| Dungeons.ExitSet | src/dungeon/mod.rs:32-85 | every name is a recognised exit; a room gets an exit towards each neighbouring room; 4 exits iff the room is interior, 3 otherwise |
| Dungeons.OpenBoundary | src/dungeon/mod.rs:87-89 | in a generated room a boundary wall is open iff it is the midpoint wall of a requested side |
| Dungeons.Heading | src/dungeon/mod.rs:115-121 | a command is recognised iff it is "up", "right", "down" or "left" |
| Dungeons.HeadingRoundTrip | src/dungeon/mod.rs:115-121 | each direction has exactly one command naming it |
| Dungeons.CrossingShape | src/dungeon/mod.rs:139-165 | from a cell of the dungeon, `Dungeons.Crossing` gives a target iff the step leaves the room and a room lies on that side; the target is a cell of that room on the edge facing back, with the coordinate along the edge kept |
| Dungeons.MoveOutcome | src/dungeon/mod.rs:123-176 | an unsuccessful move changes nothing; a successful one needs an open wall; inside the room it steps to the neighbour; off the edge it enters the neighbouring room at the opposite edge, keeping the other coordinate; locations stay inside the dungeon; with the wall open it succeeds iff the step stays in the room or a room lies on that side |
| Dungeons.GeneratedWalkable | src/dungeon/mod.rs:87-89 | a generated room has symmetric walls and is open on its boundary exactly at its requested exits |
| Dungeons.CrossingReversible | src/dungeon/mod.rs:139-165 | crossing through an exit lands on the facing exit of the next room, which that room requests, and crossing back returns to the start |
| Dungeons.OutcomeBack | src/dungeon/mod.rs:123-176 | once the way back is open, the opposite move undoes a successful move |
| Dungeons.GridsReversible | src/dungeon/mod.rs:123-176 | for walkable rooms, the opposite move undoes a successful move |
| Dungeons.Dungeon.constructor | src/dungeon/mod.rs:26-100 | `rows` x `cols` rooms, each of the given size, generated with the exit set of its place and walkable; the player is stored as given and the current room is `(rows/2, cols/2)` |
| Dungeons.Dungeon.ReadyRooms | src/dungeon/mod.rs:26-100 | rooms built this way form a valid dungeon of walkable rooms |
| Dungeons.NewRoom | src/dungeon/mod.rs:87-90 | one room is a fresh maze generated with its exit set; generation cannot fail |
| Dungeons.BuildRow | src/dungeon/mod.rs:29-91 | a row of `cols` rooms, room `c` generated with the exits of `(r, c)` |
| Dungeons.BuildRooms | src/dungeon/mod.rs:27-93 | `rows` rows of `cols` rooms, room `(r, c)` generated with the exits of its place |
| Dungeons.RowReadyAppend | src/dungeon/mod.rs:90 | appending a ready room keeps the row ready |
| Dungeons.RowGridsAppend | src/dungeon/mod.rs:90 | appending the next room's grid keeps the row's grids generated |
| Dungeons.Dungeon.CurrentRoom | src/dungeon/mod.rs:114 | the current room is well formed and has the dungeon's room size |
| Dungeons.Dungeon.MoveToRoom | src/dungeon/mod.rs:103-111 | succeeds iff the room exists (tested row first, so a dungeon without rooms gives the error), and then switches to it; otherwise an out-of-range error and no change; a valid dungeon stays valid |
| Dungeons.Dungeon.MovePlayer | src/dungeon/mod.rs:113-177 | an unknown command is an invalid-argument error with no move; a known one has exactly the effect `MoveOutcome` gives for the current room's wall; the player stays inside the dungeon |
| Dungeons.Dungeon.Walk | src/dungeon/mod.rs:114-177 | the move of a known command has exactly the effect `MoveOutcome` gives |
| Dungeons.Dungeon.NextRoom | src/dungeon/mod.rs:139-165 | the room and cell a move off the edge leads to are those `Crossing` gives |
| Dungeons.Dungeon.PlaceAt | src/dungeon/mod.rs:169-172 | the current room indices and the player's coordinates take the new location |
| Dungeons.Dungeon.CurrentMaze | src/dungeon/mod.rs:179-182 | a fresh copy of the current room with its size and cells |
| Dungeons.Dungeon.OpenMatches | src/dungeon/mod.rs:129 | the dungeon's wall test is the wall test on the room's grid |
| Dungeons.Dungeon.MoveReversible | src/dungeon/mod.rs:113-177 | in a dungeon built by `Dungeon::new`, the opposite move undoes every successful move |
| Entities.ArmorReduced | src/entity/mod.rs:49 | the damage is `max(0, amount - armor)`: never negative, zero iff armor covers the amount |
| Entities.Entity.constructor | src/entity/mod.rs:26-36 | all seven fields are stored as given |
| Entities.Entity.MoveTo | src/entity/mod.rs:38-41 | sets `x` and `y` and changes no other field |
| Entities.Entity.SetPosition | src/entity/mod.rs:43-46 | sets `x` and `y` and changes no other field |
| Entities.Entity.TakeDamage | src/entity/mod.rs:48-51 | health drops by exactly the armor-reduced damage, never rises, and is unchanged when armor covers the amount; only health changes |
| Chests.Chest.constructor | src/maze/chest.rs:59-66 | a closed chest holding the given contents |
| Chests.Chest.Open | src/maze/chest.rs:68-75 | the first open hands out the contents and leaves the chest open and empty; a later open hands out nothing and changes nothing |
| Chests.Chest.IsEmpty | src/maze/chest.rs:77-79 | true iff the chest holds nothing |
| Chests.OpenTwice | src/maze/chest.rs:68-75 | the second of two opens hands out nothing, and the chest is then empty |
| Players.Player.constructor | src/player/mod.rs:18-20 | the three fields are stored as given |
| Players.Player.MoveTo | src/player/mod.rs:22-25 | sets the position to exactly `(x, y)` and leaves health unchanged |

## Left out

- `Maze::display` and `Maze::greet` only print to the console. They are not modelled.
- The random number generator is not modelled. The backtracker's neighbour choice is an
  arbitrary index among the candidates, so every property holds for every choice.
- The Python binding layer is not part of this model: class registration, the result
  wrappers and `Py::new`. Nor is the pygame front end (`src/lib.rs`, `python/main.py`).
- The bodies of `Cell::new`, `Cell::remove_wall`, `Cell::has_wall` and `Cell::set_visited`
  are not part of this model. `Cells.NewCell`, `Cells.RemoveWall`, `Cells.HasWall` and
  `Cells.SetVisited` give them their evident meaning.
- `ChestContent::gold`, `sword`, `shield`, `potion` and `key` are the constructors of the
  datatype `Chests.ChestContent`, so they are not separate members.
- Panics become preconditions.
  - `generate_maze` and `add_exits` require `width, height >= 1`, because the source
    indexes cell (0, 0) and the midpoint cells.
  - `Dungeon::new` requires non-zero room sizes when it builds any room.
  - `move_player` and `current_maze` require `Dungeon.Valid`: a non-empty rectangle of
    equal-size rooms with the current room inside it. Every dungeon `Dungeon::new` builds
    with `rows, cols >= 1` satisfies it. On a dungeon without rooms, the indexing of the
    current room panics in both operations. `move_to_room` has no such requirement.
- Entities.Entity.TakeDamage: does not model `i32` overflow. The two subtractions are
  required not to overflow, because Rust panics on overflow in a debug build and wraps
  in a release build.
- Dungeons.Dungeon.MovePlayer: assumes that all rooms have the same size, which holds
  for every dungeon `Dungeon::new` builds.
  - The source takes the entry coordinate from the neighbouring room's own height or
    width, and `Dungeon.NextRoom` does the same.
  - `Dungeons.MoveOutcome` states the result with the common room size.
- Dungeons.Dungeon.constructor: does not state that the rooms are distinct objects. The
  Rust dungeon owns its room values, while the model holds one reference per room and
  never changes a room after building it.
- Chests.Chest.Open: requires the chest invariant `Valid` (an open chest is empty). The
  constructor establishes it and `Open` keeps it, so every chest the source can build
  satisfies it.
- Dungeons.Dungeon.constructor: holds the player `Entity` by reference rather than
  owning a copy. No other method of the model changes that entity.
- `move_player` is split into helpers: `Dungeon.Walk` for the move once the command is
  decoded, `Dungeon.NextRoom` for the crossing lookup, and `Dungeon.PlaceAt` for the
  field updates. Together they do what the one Rust function does. `Dungeon.Walk` reads
  `can_move` once, before the bounds test, where the source calls it in each branch;
  `can_move` changes nothing, so the result is the same.
