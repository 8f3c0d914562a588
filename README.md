# Valentine's Day labyrinth: a Dafny model of the game core

The game (`script.js`) is a first-person walk through a 15-by-15 hedge maze.
It has four parts:

- `generateMaze` carves the grid with a randomised depth-first backtracker (1 = wall, 0 = path).
- `checkCollision` tests the player's small square against the grid.
- The render loop moves the player with wall sliding.
- `createCassette` draws random cells until it finds a path cell away from the spawn. When the player comes within 1.5 units of the cassette, the `gameWon` latch is set and the victory message is shown.

The project models these parts and proves what they promise. The modules are:

- `MazeModel` (`maze_model.dfy`): the generator on values. A state is the set of open cells plus the backtracking stack. `Step` is one pass of the while loop. `Run` iterates it until the stack is empty, and termination is proved. A ghost invariant `Inv` is preserved by every step. From it follow:
  - the border stays walls;
  - every open cell is a node (odd, odd) or a connector joining two open nodes;
  - every inside node is visited;
  - there are exactly `nodes - 1` open connectors, so the open cells form a spanning tree;
  - every open cell is reachable from (1,1);
  - the result depends only on the random draws.
- `MazeGen` (`maze_gen.dfy`): `generateMaze` as the source writes it. It uses a 2D array changed in place, an explicit stack, the while loop and the four-direction scan. It is proved to produce exactly the grid `MazeModel` describes.
- `Collision` (`collision.dfy`): `checkCollision` with its four corners, floor division and early returns. It is proved equivalent to a declarative "some corner is out of bounds or on a wall".
- `Movement` (`movement.dfy`): the sliding step and walks made of many frames. A clear position stays clear. A path of open cells can be followed from cell centre to cell centre.
- `Goal` (`goal.dfy`): the cassette placement loop. It returns the first accepted draw.
- `Session` (`session.dfy`): the `Game` class, which holds the position and `gameWon`, and the latch lemmas. It also proves the game is winnable: on every generated grid, every cell the cassette loop accepts can be reached from the spawn point, ending within 1.5 units of the cassette.

Randomness is an oracle. Each `Math.floor(Math.random() * n)` is modelled as `oracle(k) % n`, where k counts the calls: `choice` for the maze and `pick` for the cassette. World coordinates are `real`, so the arithmetic is exact.

The source places the cassette at `(cx * CELL_SIZE, cy * CELL_SIZE)`, which is the corner of its cell. Walls and the spawn point are placed at cell centres. The model keeps the corner, as written, and the winnability lemma is proved for it.

## Model

| member | source | states |
|---|---|---|
| MazeModel.Eligible | script.js:52 | definition of the test on one direction: the cell two steps away lies strictly inside the grid and is still a wall; Neighbors states that the list holds exactly the eligible directions |
| MazeModel.NeighborOf | script.js:53 | definition of the record pushed for a direction: the node two steps away and the unit offset to the wall between; Neighbors and JoinsParity state its properties |
| MazeModel.Scan | script.js:48-55 | definition of the for loop over the first k directions; ScanOrdered, ScanMembers and Neighbors state what it builds, and MazeGen.ScanNeighbors is proved equal to it |
| MazeModel.Neighbors | script.js:39-55 | the list holds exactly the distance-2 neighbours in the four directions that lie strictly inside the grid and are still walls, each at most once and in the order Up, Down, Left, Right (so at most four); each entry records the unit offset to the wall between |
| MazeModel.ScanOrdered | script.js:41-55 | after the first k directions the list has at most k entries, each the record of its own direction, in the order of the direction list |
| MazeModel.Push | script.js:59-61 | definition of a push: the chosen node and the wall between are opened and the node is pushed; its properties are stated by PushOpensNodeAndConnector, PushStackInv, PushCount, PushClosed and PushReach |
| MazeModel.Pop | script.js:63 | definition of a pop: the open cells stay and the top leaves the stack; PopInv states that the invariant survives it |
| MazeModel.Step | script.js:38-63 | one pass of the loop keeps the stack on nodes and either opens a new node or, when there is nothing left to open, shortens the stack; this measure makes the loop terminate |
| MazeModel.PushOpensNodeAndConnector | script.js:57-61 | a push opens exactly one wall node and one wall connector, and the connector lies between the current node and the new one |
| MazeModel.PushCount | script.js:57-61 | a push keeps open connectors equal to open nodes minus one |
| MazeModel.PushStackInv | script.js:59-61 | after a push, stack entries are still open inside nodes and consecutive entries are still joined by an open connector |
| MazeModel.PushClosed | script.js:52-61 | after a push, a node that has left the stack has no wall neighbour inside the grid |
| MazeModel.PushReach | script.js:59-61 | a push keeps every open cell reachable from the start through open cells |
| MazeModel.PopInv | script.js:62-63 | a pop happens only when the top has no eligible neighbour, so the node that leaves the stack is closed and the invariant holds |
| MazeModel.Initial | script.js:29-35 | definition of the state before the loop: only the start cell open and on the stack; InitialInv states that it satisfies the generator invariant |
| MazeModel.InitialInv | script.js:29-35 | the initial state, (1,1) opened and pushed, satisfies the generator invariant |
| MazeModel.Run | script.js:37-65 | the while loop until the stack is empty; its ensures states that cells are only ever opened, never closed again; RunInv and the Generated lemmas state what the result is |
| MazeModel.StepInv | script.js:38-63 | one pass of the loop preserves the generator invariant |
| MazeModel.RunInv | script.js:37-65 | the whole loop preserves the invariant up to its exit with an empty stack |
| MazeModel.GeneratedInv | script.js:28-67 | the returned grid satisfies the invariant with an empty stack |
| MazeModel.GeneratedFrom | script.js:28-67 | definition of the open set the generator returns from a given start cell: Run from Initial with no draws taken; the Generated lemmas and MazeGen.GenerateMaze are stated through it |
| MazeModel.Generated | script.js:28-67 | definition of the open set generateMaze returns, started at (1,1); GeneratedSpans, GeneratedTreeCount, GeneratedConnected, GeneratedBorder and GeneratedDeterministic state its properties |
| MazeModel.GeneratedInside | script.js:52 | every open cell lies strictly inside the grid and is a node or a connector |
| MazeModel.GeneratedBorder | script.js:52 | the first and last row and column stay walls |
| MazeModel.GeneratedConnectorJoins | script.js:59-60 | an open connector always joins two open nodes |
| MazeModel.ClosedSpans | script.js:37-65 | an open set that holds the start and leaves no inside node with a wall neighbour holds every inside node, and only those |
| MazeModel.GeneratedSpans | script.js:28-67 | the backtracker visits all inside nodes: the open nodes are exactly the odd/odd cells strictly inside the grid |
| MazeModel.GeneratedTreeCount | script.js:57-61 | open connectors = open nodes - 1 |
| MazeModel.GeneratedConnected | script.js:28-67 | every open cell is reachable from (1,1) through open cells |
| MazeModel.RunDeterministic | script.js:58 | two oracles that give the same draws give the same run |
| MazeModel.GeneratedDeterministic | script.js:58 | the grid depends only on the random draws |
| MazeModel.FiveByFive | script.js:28-67 | on a 5-by-5 grid, (1,1) and (3,3) are always open and the corner is always a wall |
| MazeGen.Depicts | script.js:29 | definition of what the array shows: 0 on the open cells, 1 on every other cell (1 = wall, 0 = path); Advance, Carve and GenerateMaze are stated through it |
| MazeGen.ScanNeighbors | script.js:39-55 | the scan loop builds exactly the model's neighbour list |
| MazeGen.OpenCell | script.js:59-60 | setting one cell to 0 makes the array show the open set with that cell added |
| MazeGen.WallBorder | script.js:52 | a grid that shows only inside cells has all-wall border rows and columns |
| MazeGen.Advance | script.js:38-63 | one pass on the array makes exactly the move of the model's step; the array then shows the new open set |
| MazeGen.Carve | script.js:37-65 | the while loop on the array leaves exactly the model's run from the same state, and the border rows and columns are walls |
| MazeGen.GenerateMaze | script.js:28-67 | the array returned shows exactly the generated open set: 0 on open cells and 1 everywhere else |
| Collision.GridIndex | script.js:361-362 | Math.floor(c / CELL_SIZE): the cell index g with g * 4 <= c < (g + 1) * 4 |
| Collision.Corners | script.js:353-358 | definition of the four corners (x ± 0.15, z ± 0.15) in the order the loop visits them; CheckCollision and ClearCentreFree are stated through it |
| Collision.CornerBlocked | script.js:360-373 | definition of a blocked corner: its cell is out of bounds (line 365) or a wall (line 370); Blocked and CheckCollision are stated through it |
| Collision.Blocked | script.js:360-373 | definition of a blocked position: some corner's cell is out of bounds or a wall; CheckCollision is proved equal to it and ClearCentreFree, InsideFreeCellClear and SpawnClear state its properties |
| Collision.CheckCollision | script.js:348-375 | blocked exactly when some corner of the square of half-width 0.15 maps, by floor division by 4, outside the 15-by-15 grid or onto a wall; clear exactly when all four corners are in free cells |
| Collision.ClearCentreFree | script.js:348-375 | a clear position lies in an in-bounds non-wall cell |
| Collision.InsideFreeCellClear | script.js:348-375 | a position whose square lies wholly in one free cell is clear |
| Collision.SpawnClear | script.js:231-232 | the spawn point (6, 6) is clear exactly when cell (1,1) is not a wall |
| Collision.OriginBlocked | script.js:364-367 | a corner left of the grid is out of bounds, so (0, 0) is blocked |
| Movement.SlideStep | script.js:427-435 | definition of one sliding frame: x by dx when (x + dx, z) is clear, then z by dz when (new x, z + dz) is clear; SlideAxes, SlideKeepsClear, SlideStill and SlideIntoWall state its properties, and Game.Slide is proved equal to it |
| Movement.SlideAxes | script.js:427-435 | each axis moves by its whole displacement or not at all; x moves exactly when (x + dx, z) is clear; z moves exactly when the point reached from the new x is clear |
| Movement.SlideKeepsClear | script.js:427-435 | a frame that starts in a clear position ends in one |
| Movement.SlideStill | script.js:424 | a zero displacement leaves the position unchanged |
| Movement.SlideIntoWall | script.js:428-430 | a move along x into a blocked position leaves the player where it was |
| Movement.Walk | script.js:377-435 | definition of successive frames, each a sliding step; WalkAppend, WalkKeepsClear and FollowPath state its properties, and Session.Game.Play is proved equal to it |
| Movement.WalkAppend | script.js:395-435 | frames compose: walking a + b is walking a and then b |
| Movement.WalkKeepsClear | script.js:395-435 | any number of frames from a clear position keep the player clear |
| Movement.CentreClear | script.js:348-375 | the middle of a free cell is clear |
| Movement.Centre | script.js:225-232 | definition of the middle of a cell, where walls and the spawn point are placed; CentreClear, CrossCell and FollowPath state its properties |
| Movement.CrossCell | script.js:427-435 | one frame moves the player from the middle of a free cell to the middle of an adjacent free cell |
| Movement.SlideJumpsWall | script.js:348-435 | only where a frame ends is tested, so an 8-unit frame along x goes from the middle of a free cell to the middle of the free cell two to the right although the cell between is a wall |
| Movement.PathMoves | script.js:427-435 | one frame per step of a path of cells |
| Movement.FollowPath | script.js:427-435 | following a path of free cells goes from the middle of its first cell to the middle of its last |
| Goal.Draw | script.js:306-307 | both coordinates of a draw lie in 0..14 |
| Goal.Accepted | script.js:308 | definition of the exit test: the cell is not a wall and not in the 4-by-4 square cx < 4, cy < 4; AcceptedMeans states it on a grid of open cells |
| Goal.PlaceGoal | script.js:302-308 | the cell returned is accepted (not a wall, not in the 4-by-4 spawn square) and is the first accepted draw |
| Goal.AcceptedMeans | script.js:308 | on a grid that shows a set of open cells, a cell is accepted exactly when it is open and outside the spawn square |
| Goal.NodesAccepted | script.js:308 | when all nodes are open, every odd/odd cell is a path cell, and accepted when outside the spawn square |
| Session.Near | script.js:444-445 | definition of dist < 1.5 between the player at height 1.6 and the cassette at the corner of its cell, as squared distance < 2.25; NearCorner and LastStepNear state when it holds |
| Session.WonAfter | script.js:445-446 | definition of the flag after a run of frames, each frame setting it when near; WonAfterMeans and LatchStaysWon state its properties |
| Session.Announcements | script.js:446-452 | definition of how many frames show the victory message, one when the latch is first set; AnnouncedOnce states that it is 1 or 0 |
| Session.NearsAlong | script.js:377-446 | whether each frame of a walk ends near the cassette, one entry per frame; NearsAlongLast ties its last entry to the end of the walk |
| Session.NearsAlongLast | script.js:427-446 | the last frame is near exactly when the walk ends near the cassette |
| Session.WonAfterMeans | script.js:445-446 | after a run of frames, gameWon is set exactly when it was set before or some frame was near the cassette |
| Session.LatchStaysWon | script.js:445-446 | once gameWon is set it stays set |
| Session.AnnouncedOnce | script.js:445-452 | the victory message is shown once if some frame comes near an unwon cassette, and never otherwise |
| Session.NearCorner | script.js:325 | half a unit from the cassette's corner along both axes, the player is within 1.5 of it at any float height |
| Session.LastStepNear | script.js:427-445 | from the middle of the cassette's cell, one frame brings the player within reach |
| Session.GoalWithinReach | script.js:395-446 | when the goal cell is joined to (1,1) by open cells, some sequence of frames from the spawn ends within reach of the cassette |
| Session.Winnable | script.js:305-308 | on every generated grid, every cell the cassette loop accepts can be won from the spawn point |
| Session.WinnableByFrames | script.js:377-446 | on every generated grid and every accepted cell, some non-empty run of frames from the spawn sets gameWon, whatever heights the float takes before the last frame |
| Session.GeneratedOpen | script.js:28-67 | every odd/odd cell of the generated grid is 0 |
| Session.Game.constructor | script.js:199-235 | the grid is the generated one; the cassette cell is the first accepted draw of `pick` (draw goalDraw is accepted and no earlier one is); the player stands at (6, 6), which is clear, and gameWon is false |
| Session.Game.Slide | script.js:427-435 | the new position is the sliding step of the old one, each axis checked with checkCollision; the player stays clear and gameWon is unchanged |
| Session.Game.CheckWin | script.js:444-446 | gameWon becomes old gameWon or near; the frame reports a new win exactly when it was not won before and is near |
| Session.Game.Frame | script.js:395-446 | one frame: the sliding step, then the win test at the new position |
| Session.Game.Play | script.js:377-460 | a run of frames leaves the player at the end of the walk and gameWon as the latch over the frames' near tests; the player stays clear |

## Left out

- Rendering, textures (`createHedgeTexture`, `createFloorTexture`), lights, the cassette's spin, building the wall meshes, the HUD text and styles: none of these affect the game state.
- Keyboard and pointer-lock input, the camera's quaternion, and `speed * delta`: a frame's displacement (dx, dz) is a parameter. Any vector can occur, since the camera yaw and the frame time are free.
- Frame length: a frame's displacement has no bound, and the collision test looks only at where the frame ends, as in the source. A frame longer than 4.3 units, the wall's width plus the square's, can carry the player over a one-cell wall; at 15 units per second (script.js:399) that is a frame of about 0.29 s. `Movement.SlideJumpsWall` shows this with an 8-unit frame. The winnability lemmas use frames of 4 units, about 0.27 s each, and no bound on frame length is modelled.
- Timing and the float animation: the cassette's height is a parameter. `Session.Winnable` requires it to lie in [0.8, 1.2], the range of `1 + sin(t) * 0.2`.
- The `lengthSq() > 0` guard at script.js:424: `Movement.SlideStill` shows that a zero displacement moves nothing anyway.
- Floating point: coordinates are exact reals, so rounding in `p.x / CELL_SIZE` and in the distance is not modelled. `Math.sqrt` is replaced by comparing squared distances.
- The random generator: both loops read an oracle. Generation and cassette placement use separate oracles, although in the game they share one stream.
- Goal.PlaceGoal: the source loop terminates only when some draw is accepted, so the model is given the index of one such draw as a ghost parameter.
- MazeGen.GenerateMaze: requires width and height of at least 3; below that, (1,1) is not strictly inside the grid. Its border property is stated by `MazeGen.Carve` and `MazeModel.GeneratedBorder` rather than in its own ensures.
- The `MazeModel` lemmas are proved for any odd start cell strictly inside the grid; `Generated` fixes it to (1,1) as the source does.
- `Math.floor(Math.random() * n)` is modelled as `oracle(k) % n`, which gives the same range 0..n-1.
