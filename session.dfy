/** The game state that the render loop updates: the player's position on the floor and
    the gameWon flag (script.js:24, 231-232, 395-446), over the grid of generateMaze and
    the cassette cell of createCassette (script.js:199, 235). */
module Session {
  import opened Collision
  import opened MazeModel
  import opened MazeGen
  import opened Movement
  import opened Goal

  /** PLAYER_HEIGHT (script.js:9): the player's y, which movement never changes. */
  const PlayerHeight: real := 1.6

  /** Where init puts the player (script.js:231-232): the middle of cell (1,1). */
  const Spawn: Point := Point(6.0, 6.0)

  /** The win distance of script.js:445, squared. */
  const Reach2: real := 2.25

  /** dist < 1.5 between the player at height PLAYER_HEIGHT and the cassette, which sits at
      the corner (cx * CELL_SIZE, cy * CELL_SIZE) of its cell (script.js:325) at the height
      cassetteY the float animation gives it (script.js:441). Both sides are non-negative,
      so the squares are compared. */
  predicate Near(p: Point, goal: Pos, cassetteY: real) {
    var ax := p.x - goal.x as real * CellSize;
    var ay := PlayerHeight - cassetteY;
    var az := p.z - goal.y as real * CellSize;
    ax * ax + ay * ay + az * az < Reach2
  }

  /** The gameWon flag after a run of frames, frame i being near the cassette when nears[i]. */
  function WonAfter(won: bool, nears: seq<bool>): bool
    decreases |nears|
  {
    if nears == [] then won else WonAfter(won || nears[0], nears[1..])
  }

  /** How many frames show the victory message (script.js:446-452) over the run. */
  function Announcements(won: bool, nears: seq<bool>): nat
    decreases |nears|
  {
    if nears == [] then 0
    else (if nears[0] && !won then 1 else 0) + Announcements(won || nears[0], nears[1..])
  }

  /** The flag is a latch: it is set after a run exactly when it was set before or some
      frame was near the cassette. */
  lemma {:induction false} WonAfterMeans(won: bool, nears: seq<bool>)
    ensures WonAfter(won, nears) <==> won || true in nears
    decreases |nears|
  {
    if nears != [] {
      WonAfterMeans(won || nears[0], nears[1..]);
      assert nears == [nears[0]] + nears[1..];
    }
  }

  /** Once won, always won. */
  lemma LatchStaysWon(nears: seq<bool>)
    ensures WonAfter(true, nears)
  {
    WonAfterMeans(true, nears);
  }

  /** The victory message is shown at most once: once if the game was not yet won and some
      frame comes near the cassette, and never otherwise. */
  lemma {:induction false} AnnouncedOnce(won: bool, nears: seq<bool>)
    ensures Announcements(won, nears) == if !won && true in nears then 1 else 0
    decreases |nears|
  {
    if nears != [] {
      AnnouncedOnce(won || nears[0], nears[1..]);
      assert nears == [nears[0]] + nears[1..];
    }
  }

  /** Frame by frame, whether the player ends the frame near the cassette, the cassette being
      at height heights[i] in frame i. */
  function NearsAlong(maze: array2<int>, goal: Pos, p: Point, moves: seq<Move>, heights: seq<real>): (r: seq<bool>)
    reads maze
    requires Sized(maze) && |heights| == |moves|
    ensures |r| == |moves|
    decreases |moves|
  {
    if moves == [] then []
    else
      var q := SlideStep(maze, p, moves[0].dx, moves[0].dz);
      [Near(q, goal, heights[0])] + NearsAlong(maze, goal, q, moves[1..], heights[1..])
  }

  /** The last frame of a walk is near the cassette exactly when the walk ends near it. */
  lemma {:induction false} NearsAlongLast(maze: array2<int>, goal: Pos, p: Point, moves: seq<Move>, heights: seq<real>)
    requires Sized(maze) && |heights| == |moves| && |moves| > 0
    ensures NearsAlong(maze, goal, p, moves, heights)[|moves| - 1] ==
      Near(Walk(maze, p, moves), goal, heights[|moves| - 1])
    decreases |moves|
  {
    if |moves| > 1 {
      var q := SlideStep(maze, p, moves[0].dx, moves[0].dz);
      NearsAlongLast(maze, goal, q, moves[1..], heights[1..]);
    }
  }

  lemma SquareAtMost(d: real, b: real)
    requires 0.0 <= d <= b
    ensures d * d <= b * b
  {
    assert d * d <= d * b <= b * b;
  }

  /** Half a unit from the corner of the goal cell in both directions, the player is within
      reach of the cassette at any height of its float. */
  lemma NearCorner(goal: Pos, cassetteY: real)
    requires 0.8 <= cassetteY <= 1.2
    ensures Near(Point(goal.x as real * CellSize + 0.5, goal.y as real * CellSize + 0.5), goal, cassetteY)
  {
    SquareAtMost(PlayerHeight - cassetteY, 0.8);
  }

  /** From the middle of an open cell, one last frame brings the player within reach of a
      cassette at the corner of that cell, whatever the height of its float. */
  lemma LastStepNear(maze: array2<int>, goal: Pos, cassetteY: real)
    requires Sized(maze) && CellFree(maze, goal.x, goal.y)
    requires 0.8 <= cassetteY <= 1.2
    ensures Near(SlideStep(maze, Centre(goal), -1.5, -1.5), goal, cassetteY)
  {
    var c := Centre(goal);
    var gx, gz := goal.x as real * CellSize, goal.y as real * CellSize;
    InsideFreeCellClear(maze, gx + 0.5, c.z, goal.x, goal.y);
    InsideFreeCellClear(maze, gx + 0.5, gz + 0.5, goal.x, goal.y);
    assert c.x - 1.5 == gx + 0.5 && c.z - 1.5 == gz + 0.5;
    NearCorner(goal, cassetteY);
  }

  /** A cassette in a cell that a path of open cells joins to the spawn cell can be
      reached: some sequence of frames from the spawn point ends within reach of it. */
  lemma GoalWithinReach(maze: array2<int>, open: set<Pos>, goal: Pos, cassetteY: real)
    requires Depicts(maze, MazeSize, MazeSize, open)
    requires forall p :: p in open ==> Inside(MazeSize, MazeSize, p)
    requires goal in open && Reachable(open, Start, goal)
    requires 0.8 <= cassetteY <= 1.2
    ensures exists moves :: |moves| > 0 && Near(Walk(maze, Spawn, moves), goal, cassetteY)
  {
    var path: seq<Pos> :| IsPath(open, path) && path[0] == Start && path[|path| - 1] == goal;
    forall i | 0 <= i < |path|
      ensures CellFree(maze, path[i].x, path[i].y)
    {
      assert path[i] in open;
    }
    FollowPath(maze, path);
    assert Centre(Start) == Spawn;
    var moves := PathMoves(path) + [Move(-1.5, -1.5)];
    WalkAppend(maze, Spawn, PathMoves(path), [Move(-1.5, -1.5)]);
    LastStepNear(maze, goal, cassetteY);
    assert |moves| > 0 && Near(Walk(maze, Spawn, moves), goal, cassetteY);
  }

  /** The game can be won: on the grid generateMaze builds, every cell createCassette may
      accept can be reached from the spawn point. */
  lemma Winnable(maze: array2<int>, choice: nat -> nat, goal: Pos, cassetteY: real)
    requires Depicts(maze, MazeSize, MazeSize, Generated(MazeSize, MazeSize, choice))
    requires 0 <= goal.x < MazeSize && 0 <= goal.y < MazeSize && Accepted(maze, goal)
    requires 0.8 <= cassetteY <= 1.2
    ensures exists moves :: |moves| > 0 && Near(Walk(maze, Spawn, moves), goal, cassetteY)
  {
    ghost var open := Generated(MazeSize, MazeSize, choice);
    AcceptedMeans(maze, open, goal);
    GeneratedInv(MazeSize, MazeSize, choice, Start);
    GoalWithinReach(maze, open, goal, cassetteY);
  }

  /** The game can be won by playing frames: whatever heights the float gives the cassette,
      some run of frames from the spawn point sets gameWon when its last frame sees the
      cassette at height cassetteY. */
  lemma WinnableByFrames(maze: array2<int>, choice: nat -> nat, goal: Pos, cassetteY: real)
    requires Depicts(maze, MazeSize, MazeSize, Generated(MazeSize, MazeSize, choice))
    requires 0 <= goal.x < MazeSize && 0 <= goal.y < MazeSize && Accepted(maze, goal)
    requires 0.8 <= cassetteY <= 1.2
    ensures exists moves: seq<Move> :: |moves| > 0 && forall heights: seq<real> ::
      |heights| == |moves| && heights[|moves| - 1] == cassetteY ==>
        WonAfter(false, NearsAlong(maze, goal, Spawn, moves, heights))
  {
    Winnable(maze, choice, goal, cassetteY);
    var moves: seq<Move> :| |moves| > 0 && Near(Walk(maze, Spawn, moves), goal, cassetteY);
    forall heights: seq<real> | |heights| == |moves| && heights[|moves| - 1] == cassetteY
      ensures WonAfter(false, NearsAlong(maze, goal, Spawn, moves, heights))
    {
      var nears := NearsAlong(maze, goal, Spawn, moves, heights);
      NearsAlongLast(maze, goal, Spawn, moves, heights);
      assert nears[|moves| - 1];
      WonAfterMeans(false, nears);
    }
  }

  /** Every cell with two odd coordinates is a path cell of the generated grid. */
  lemma GeneratedOpen(maze: array2<int>, choice: nat -> nat, c: Pos)
    requires Depicts(maze, MazeSize, MazeSize, Generated(MazeSize, MazeSize, choice))
    requires 0 <= c.x < MazeSize && 0 <= c.y < MazeSize && IsNode(c)
    ensures maze[c.y, c.x] == 0
  {
    GeneratedSpans(MazeSize, MazeSize, choice, Start);
    NodesAccepted(maze, Generated(MazeSize, MazeSize, choice), c);
  }

  class Game {
    const maze: array2<int>
    const goal: Pos
    /** The index of the cassette draw that was accepted. */
    ghost const goalDraw: nat
    var position: Point
    var gameWon: bool

    /** The grid has the game's size and the player is never inside a wall. */
    ghost predicate Valid()
      reads this, maze
    {
      Sized(maze) && !Blocked(maze, position.x, position.z)
    }

    /** init (script.js:199, 231-235): generate the grid, put the player at the spawn
        point and place the cassette. The draws of createCassette are required to reach,
        at draw `bound`, a path cell of the generated grid outside the spawn square, so the
        retry loop ends there at the latest. */
    constructor (choice: nat -> nat, pick: nat -> nat, ghost bound: nat)
      requires Draw(pick, bound) in Generated(MazeSize, MazeSize, choice)
      requires !(Draw(pick, bound).x < 4 && Draw(pick, bound).y < 4)
      ensures Valid()
      ensures Depicts(maze, MazeSize, MazeSize, Generated(MazeSize, MazeSize, choice))
      ensures 0 <= goal.x < MazeSize && 0 <= goal.y < MazeSize && Accepted(maze, goal)
      ensures goalDraw <= bound && goal == Draw(pick, goalDraw)
      ensures forall j :: 0 <= j < goalDraw ==> !Accepted(maze, Draw(pick, j))
      ensures position == Spawn && !gameWon
    {
      var m := GenerateMaze(MazeSize, MazeSize, choice);
      AcceptedMeans(m, Generated(MazeSize, MazeSize, choice), Draw(pick, bound));
      GeneratedOpen(m, choice, Start);
      SpawnClear(m);
      var g, k := PlaceGoal(m, pick, bound);
      maze := m;
      goal := g;
      goalDraw := k;
      position := Spawn;
      gameWon := false;
    }

    /** The sliding step of script.js:427-435: the x part is tried from the original
        position, then the z part from the updated x. */
    method Slide(dx: real, dz: real)
      requires Valid()
      modifies this
      ensures Valid()
      ensures position == SlideStep(maze, old(position), dx, dz)
      ensures gameWon == old(gameWon)
    {
      SlideKeepsClear(maze, position, dx, dz);
      var originalPos := position;
      var x, z := originalPos.x, originalPos.z;
      var blocked := CheckCollision(maze, originalPos.x + dx, originalPos.z);
      if !blocked {
        x := x + dx;
      }
      blocked := CheckCollision(maze, x, originalPos.z + dz);
      if !blocked {
        z := z + dz;
      }
      position := Point(x, z);
    }

    /** The win test of script.js:444-446: the flag is set when the player is near the
        cassette; justWon says whether this frame set it (and shows the message). */
    method CheckWin(cassetteY: real) returns (justWon: bool)
      requires Valid()
      modifies this
      ensures Valid() && position == old(position)
      ensures gameWon == (old(gameWon) || Near(position, goal, cassetteY))
      ensures justWon == (!old(gameWon) && Near(position, goal, cassetteY))
    {
      var ax := position.x - goal.x as real * CellSize;
      var ay := PlayerHeight - cassetteY;
      var az := position.z - goal.y as real * CellSize;
      justWon := false;
      if ax * ax + ay * ay + az * az < Reach2 && !gameWon {
        gameWon := true;
        justWon := true;
      }
    }

    /** One frame of the render loop (script.js:395-446) with a displacement (dx, dz):
        move, then test for the win. */
    method Frame(dx: real, dz: real, cassetteY: real) returns (justWon: bool)
      requires Valid()
      modifies this
      ensures Valid()
      ensures position == SlideStep(maze, old(position), dx, dz)
      ensures gameWon == (old(gameWon) || Near(position, goal, cassetteY))
      ensures justWon == (!old(gameWon) && Near(position, goal, cassetteY))
    {
      Slide(dx, dz);
      justWon := CheckWin(cassetteY);
    }

    /** Successive calls of the render loop (script.js:377-460), one frame per move, the
        cassette being at height heights[i] in frame i. */
    method Play(moves: seq<Move>, heights: seq<real>)
      requires Valid() && |heights| == |moves|
      modifies this
      ensures Valid()
      ensures position == Walk(maze, old(position), moves)
      ensures gameWon == WonAfter(old(gameWon), NearsAlong(maze, goal, old(position), moves, heights))
    {
      var i := 0;
      while i < |moves|
        invariant 0 <= i <= |moves| && Valid()
        invariant Walk(maze, position, moves[i..]) == Walk(maze, old(position), moves)
        invariant WonAfter(gameWon, NearsAlong(maze, goal, position, moves[i..], heights[i..])) ==
          WonAfter(old(gameWon), NearsAlong(maze, goal, old(position), moves, heights))
      {
        ghost var p, won := position, gameWon;
        var _ := Frame(moves[i].dx, moves[i].dz, heights[i]);
        assert moves[i..][1..] == moves[i + 1..] && heights[i..][1..] == heights[i + 1..];
        ghost var rest := NearsAlong(maze, goal, position, moves[i + 1..], heights[i + 1..]);
        assert NearsAlong(maze, goal, p, moves[i..], heights[i..]) == [Near(position, goal, heights[i])] + rest;
        assert ([Near(position, goal, heights[i])] + rest)[1..] == rest;
        i := i + 1;
      }
    }
  }
}
