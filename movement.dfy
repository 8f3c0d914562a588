/** The sliding movement of the render loop (script.js:427-435): the frame's displacement
    is split into its x part and its z part; the x part is applied when the position it
    leads to is clear, and the z part is then checked from the possibly updated x. */
module Movement {
  import opened Collision
  import opened MazeModel

  /** One frame of movement from p by (dx, dz). */
  function SlideStep(maze: array2<int>, p: Point, dx: real, dz: real): Point
    reads maze
    requires Sized(maze)
  {
    var x := if !Blocked(maze, p.x + dx, p.z) then p.x + dx else p.x;
    var z := if !Blocked(maze, x, p.z + dz) then p.z + dz else p.z;
    Point(x, z)
  }

  /** Each axis moves by its whole displacement or not at all; the x part is taken exactly
      when (x + dx, z) is clear, and the z part exactly when the point it leads to from the
      new x is clear. */
  lemma SlideAxes(maze: array2<int>, p: Point, dx: real, dz: real)
    requires Sized(maze)
    ensures var r := SlideStep(maze, p, dx, dz);
      && (r.x == p.x + dx || r.x == p.x)
      && (r.z == p.z + dz || r.z == p.z)
      && (dx != 0.0 ==> (r.x == p.x + dx <==> !Blocked(maze, p.x + dx, p.z)))
      && (dz != 0.0 ==> (r.z == p.z + dz <==> !Blocked(maze, r.x, p.z + dz)))
  {
  }

  /** The player never ends a frame inside a wall or outside the grid. */
  lemma SlideKeepsClear(maze: array2<int>, p: Point, dx: real, dz: real)
    requires Sized(maze) && !Blocked(maze, p.x, p.z)
    ensures var r := SlideStep(maze, p, dx, dz); !Blocked(maze, r.x, r.z)
  {
    var x := if !Blocked(maze, p.x + dx, p.z) then p.x + dx else p.x;
    assert !Blocked(maze, x, p.z);
  }

  /** No displacement, no movement (the source skips the tests when the vector is zero). */
  lemma SlideStill(maze: array2<int>, p: Point)
    requires Sized(maze)
    ensures SlideStep(maze, p, 0.0, 0.0) == p
  {
  }

  /** A blocked move along one axis leaves the player where it was. */
  lemma SlideIntoWall(maze: array2<int>, p: Point, dx: real)
    requires Sized(maze) && !Blocked(maze, p.x, p.z) && Blocked(maze, p.x + dx, p.z)
    ensures SlideStep(maze, p, dx, 0.0) == p
  {
  }

  /** A sequence of frames, one displacement each. */
  datatype Move = Move(dx: real, dz: real)

  function Walk(maze: array2<int>, p: Point, moves: seq<Move>): Point
    reads maze
    requires Sized(maze)
    decreases |moves|
  {
    if moves == [] then p
    else Walk(maze, SlideStep(maze, p, moves[0].dx, moves[0].dz), moves[1..])
  }

  /** Walking two sequences in turn is walking their concatenation. */
  lemma {:induction false} WalkAppend(maze: array2<int>, p: Point, a: seq<Move>, b: seq<Move>)
    requires Sized(maze)
    ensures Walk(maze, p, a + b) == Walk(maze, Walk(maze, p, a), b)
    decreases |a|
  {
    if a != [] {
      assert (a + b)[1..] == a[1..] + b;
      WalkAppend(maze, SlideStep(maze, p, a[0].dx, a[0].dz), a[1..], b);
    } else {
      assert a + b == b;
    }
  }

  /** However long the walk, a player who starts clear stays clear. */
  lemma {:induction false} WalkKeepsClear(maze: array2<int>, p: Point, moves: seq<Move>)
    requires Sized(maze) && !Blocked(maze, p.x, p.z)
    ensures var r := Walk(maze, p, moves); !Blocked(maze, r.x, r.z)
    decreases |moves|
  {
    if moves != [] {
      SlideKeepsClear(maze, p, moves[0].dx, moves[0].dz);
      WalkKeepsClear(maze, SlideStep(maze, p, moves[0].dx, moves[0].dz), moves[1..]);
    }
  }

  /** The world point at the middle of grid cell c. */
  function Centre(c: Pos): Point {
    Point(c.x as real * CellSize + CellSize / 2.0, c.y as real * CellSize + CellSize / 2.0)
  }

  lemma CentreClear(maze: array2<int>, c: Pos)
    requires Sized(maze) && CellFree(maze, c.x, c.y)
    ensures !Blocked(maze, Centre(c).x, Centre(c).z)
  {
    InsideFreeCellClear(maze, Centre(c).x, Centre(c).z, c.x, c.y);
  }

  /** The displacement from the middle of cell a to the middle of cell b. */
  function Across(a: Pos, b: Pos): Move {
    Move((b.x - a.x) as real * CellSize, (b.y - a.y) as real * CellSize)
  }

  /** One frame carries the player from the middle of a free cell to the middle of an
      adjacent free cell. */
  lemma CrossCell(maze: array2<int>, a: Pos, b: Pos)
    requires Sized(maze) && CellFree(maze, a.x, a.y) && CellFree(maze, b.x, b.y) && UnitStep(a, b)
    ensures SlideStep(maze, Centre(a), Across(a, b).dx, Across(a, b).dz) == Centre(b)
  {
    CentreClear(maze, a);
    CentreClear(maze, b);
  }

  /** checkCollision looks only at where a frame ends, so a long enough frame carries the
      player across a wall cell: from the middle of a free cell, an 8-unit step along x
      lands in the middle of the free cell two to the right, past the wall between. */
  lemma SlideJumpsWall(maze: array2<int>, a: Pos)
    requires Sized(maze) && CellFree(maze, a.x, a.y) && CellFree(maze, a.x + 2, a.y)
    requires maze[a.y, a.x + 1] == 1
    ensures SlideStep(maze, Centre(a), 2.0 * CellSize, 0.0) == Centre(Pos(a.x + 2, a.y))
    ensures Blocked(maze, Centre(Pos(a.x + 1, a.y)).x, Centre(a).z)
  {
    CentreClear(maze, Pos(a.x + 2, a.y));
    var mid := Centre(Pos(a.x + 1, a.y));
    FloorIn(mid.x - Radius, a.x + 1);
    FloorIn(Centre(a).z - Radius, a.y);
    assert CornerBlocked(maze, Corners(mid.x, Centre(a).z)[0]);
  }

  /** The frames that follow a path of cells. */
  function PathMoves(path: seq<Pos>): (r: seq<Move>)
    ensures |r| == if path == [] then 0 else |path| - 1
  {
    if |path| <= 1 then [] else [Across(path[0], path[1])] + PathMoves(path[1..])
  }

  /** Following a path of free cells takes the player from the middle of its first cell to
      the middle of its last. */
  lemma {:induction false} FollowPath(maze: array2<int>, path: seq<Pos>)
    requires Sized(maze) && |path| > 0
    requires forall i :: 0 <= i < |path| ==> CellFree(maze, path[i].x, path[i].y)
    requires forall i :: 0 <= i < |path| - 1 ==> UnitStep(path[i], path[i + 1])
    ensures Walk(maze, Centre(path[0]), PathMoves(path)) == Centre(path[|path| - 1])
    decreases |path|
  {
    if |path| > 1 {
      CrossCell(maze, path[0], path[1]);
      FollowPath(maze, path[1..]);
      assert PathMoves(path)[1..] == PathMoves(path[1..]);
    }
  }
}
