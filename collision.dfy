/** checkCollision (script.js:348-375): the player is a square of half-width 0.15
    around (x, z) in world units; each of its four corners is mapped to a grid cell by
    floor division by the cell size, and the position is blocked as soon as one corner
    falls outside the 15-by-15 grid or on a wall cell. World coordinates are `real`,
    so the arithmetic is exact. */
module Collision {

  /** MAZE_SIZE and CELL_SIZE (script.js:5, 7) and the half-width of script.js:350. */
  const MazeSize: int := 15
  const CellSize: real := 4.0
  const Radius: real := 0.15

  /** A point on the floor: world x and world z. */
  datatype Point = Point(x: real, z: real)

  /** The grid the game reads: MAZE_SIZE rows of MAZE_SIZE cells, indexed maze[z, x]. */
  predicate Sized(maze: array2<int>) {
    maze.Length0 == MazeSize && maze.Length1 == MazeSize
  }

  /** Math.floor(c / CELL_SIZE) (script.js:361-362). */
  function GridIndex(c: real): (g: int)
    ensures g as real * CellSize <= c < (g + 1) as real * CellSize
  {
    (c / CellSize).Floor
  }

  /** The four corners in the order of script.js:353-358. */
  function Corners(x: real, z: real): seq<Point> {
    [Point(x - Radius, z - Radius), Point(x + Radius, z - Radius),
     Point(x - Radius, z + Radius), Point(x + Radius, z + Radius)]
  }

  /** A grid cell the player may overlap: inside the grid and not a wall. */
  predicate CellFree(maze: array2<int>, gx: int, gz: int)
    reads maze
    requires Sized(maze)
  {
    0 <= gx < MazeSize && 0 <= gz < MazeSize && maze[gz, gx] != 1
  }

  /** A corner is blocked when its cell is out of bounds (script.js:365) or a wall
      (script.js:370). */
  predicate CornerBlocked(maze: array2<int>, p: Point)
    reads maze
    requires Sized(maze)
  {
    !CellFree(maze, GridIndex(p.x), GridIndex(p.z))
  }

  /** The position is blocked when some corner is. */
  predicate Blocked(maze: array2<int>, x: real, z: real)
    reads maze
    requires Sized(maze)
  {
    exists i :: 0 <= i < 4 && CornerBlocked(maze, Corners(x, z)[i])
  }

  /** checkCollision(x, z): the loop over the corners with its early returns. */
  method CheckCollision(maze: array2<int>, x: real, z: real) returns (blocked: bool)
    requires Sized(maze)
    ensures blocked <==> Blocked(maze, x, z)
    ensures !blocked <==> forall i :: 0 <= i < 4 ==>
      CellFree(maze, GridIndex(Corners(x, z)[i].x), GridIndex(Corners(x, z)[i].z))
  {
    var checkPoints := Corners(x, z);
    for i := 0 to |checkPoints|
      invariant forall j :: 0 <= j < i ==> !CornerBlocked(maze, checkPoints[j])
    {
      var p := checkPoints[i];
      var gridX := (p.x / CellSize).Floor;
      var gridZ := (p.z / CellSize).Floor;
      if gridX < 0 || gridX >= MazeSize || gridZ < 0 || gridZ >= MazeSize {
        assert CornerBlocked(maze, checkPoints[i]);
        return true;
      }
      if maze[gridZ, gridX] == 1 {
        assert CornerBlocked(maze, checkPoints[i]);
        return true;
      }
    }
    return false;
  }

  /** The cell of a coordinate is the cell of its lower or of its upper corner. */
  lemma CentreBetween(c: real)
    ensures GridIndex(c) == GridIndex(c - Radius) || GridIndex(c) == GridIndex(c + Radius)
  {
    var lo, mid, hi := GridIndex(c - Radius), GridIndex(c), GridIndex(c + Radius);
    assert lo as real <= (c - Radius) / CellSize < lo as real + 1.0;
    assert mid as real <= c / CellSize < mid as real + 1.0;
    assert hi as real <= (c + Radius) / CellSize < hi as real + 1.0;
  }

  /** A clear position stands in a free cell: the cell that holds (x, z) itself is in
      bounds and not a wall. */
  lemma ClearCentreFree(maze: array2<int>, x: real, z: real)
    requires Sized(maze) && !Blocked(maze, x, z)
    ensures CellFree(maze, GridIndex(x), GridIndex(z))
  {
    CentreBetween(x);
    CentreBetween(z);
    var cs := Corners(x, z);
    var i := if GridIndex(x) == GridIndex(x - Radius) then 0 else 1;
    var j := if GridIndex(z) == GridIndex(z - Radius) then 0 else 2;
    assert !CornerBlocked(maze, cs[i + j]);
  }

  /** The other direction: a position whose square lies wholly inside one free cell is
      clear. */
  lemma InsideFreeCellClear(maze: array2<int>, x: real, z: real, gx: int, gz: int)
    requires Sized(maze) && CellFree(maze, gx, gz)
    requires gx as real * CellSize <= x - Radius && x + Radius < (gx + 1) as real * CellSize
    requires gz as real * CellSize <= z - Radius && z + Radius < (gz + 1) as real * CellSize
    ensures !Blocked(maze, x, z)
  {
    FloorIn(x - Radius, gx);
    FloorIn(x + Radius, gx);
    FloorIn(z - Radius, gz);
    FloorIn(z + Radius, gz);
  }

  /** The cell index of a coordinate is the only g whose cell holds it. */
  lemma FloorIn(c: real, g: int)
    requires g as real * CellSize <= c < (g + 1) as real * CellSize
    ensures GridIndex(c) == g
  {
    assert g as real <= c / CellSize < g as real + 1.0;
  }

  /** The spawn point of script.js:231-232, the centre of cell (1,1), is clear exactly
      when that cell is open. */
  lemma SpawnClear(maze: array2<int>)
    requires Sized(maze)
    ensures !Blocked(maze, 6.0, 6.0) <==> maze[1, 1] != 1
  {
    if maze[1, 1] != 1 {
      InsideFreeCellClear(maze, 6.0, 6.0, 1, 1);
    } else {
      FloorIn(5.85, 1);
      assert CornerBlocked(maze, Corners(6.0, 6.0)[0]);
    }
  }

  /** A corner left of the grid's edge is out of bounds, so the origin is blocked. */
  lemma OriginBlocked(maze: array2<int>)
    requires Sized(maze)
    ensures Blocked(maze, 0.0, 0.0)
  {
    FloorIn(-0.15, -1);
    assert CornerBlocked(maze, Corners(0.0, 0.0)[0]);
  }
}
