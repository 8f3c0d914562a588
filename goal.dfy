/** createCassette (script.js:302-308): grid cells are drawn at random until one is a
    path cell outside the 4-by-4 square of cells around the spawn corner. Each draw takes
    two calls of Math.random(); the model reads them from an oracle `pick`, and
    Math.floor(Math.random() * MAZE_SIZE) is the oracle's value modulo MAZE_SIZE. */
module Goal {
  import opened Collision
  import opened MazeModel
  import opened MazeGen

  /** The k-th draw: its x from call 2k, its y from call 2k + 1 (script.js:306-307). */
  function Draw(pick: nat -> nat, k: nat): (c: Pos)
    ensures 0 <= c.x < MazeSize && 0 <= c.y < MazeSize
  {
    Pos(pick(2 * k) % MazeSize, pick(2 * k + 1) % MazeSize)
  }

  /** The loop's exit test (script.js:308): not a wall and not in the spawn square. */
  predicate Accepted(maze: array2<int>, c: Pos)
    reads maze
    requires Sized(maze) && 0 <= c.x < MazeSize && 0 <= c.y < MazeSize
  {
    !(maze[c.y, c.x] == 1 || (c.x < 4 && c.y < 4))
  }

  /** The do-while loop of script.js:305-308. It ends once a draw is accepted, so it is
      given a draw `bound` that is; it returns the first accepted draw and its index. */
  method PlaceGoal(maze: array2<int>, pick: nat -> nat, ghost bound: nat) returns (goal: Pos, k: nat)
    requires Sized(maze) && Accepted(maze, Draw(pick, bound))
    ensures k <= bound && goal == Draw(pick, k) && Accepted(maze, goal)
    ensures forall j :: 0 <= j < k ==> !Accepted(maze, Draw(pick, j))
  {
    k := 0;
    var cx := pick(0) % MazeSize;
    var cy := pick(1) % MazeSize;
    while maze[cy, cx] == 1 || (cx < 4 && cy < 4)
      invariant k <= bound && Pos(cx, cy) == Draw(pick, k)
      invariant forall j :: 0 <= j < k ==> !Accepted(maze, Draw(pick, j))
      decreases bound - k
    {
      k := k + 1;
      cx := pick(2 * k) % MazeSize;
      cy := pick(2 * k + 1) % MazeSize;
    }
    goal := Pos(cx, cy);
  }

  /** On a grid that shows the open cells `open`, a cell is accepted exactly when it is
      open and lies outside the spawn square. */
  lemma AcceptedMeans(maze: array2<int>, open: set<Pos>, c: Pos)
    requires Depicts(maze, MazeSize, MazeSize, open)
    requires 0 <= c.x < MazeSize && 0 <= c.y < MazeSize
    ensures Accepted(maze, c) <==> c in open && !(c.x < 4 && c.y < 4)
  {
  }

  /** Every node of a grid whose nodes are all open is open on the array; so every draw of
      two odd coordinates outside the spawn square is accepted. */
  lemma NodesAccepted(maze: array2<int>, open: set<Pos>, c: Pos)
    requires Depicts(maze, MazeSize, MazeSize, open)
    requires Nodes(open) == AllNodes(MazeSize, MazeSize)
    requires 0 <= c.x < MazeSize && 0 <= c.y < MazeSize && IsNode(c)
    ensures maze[c.y, c.x] == 0
    ensures !(c.x < 4 && c.y < 4) ==> Accepted(maze, c)
  {
    AllNodesHas(MazeSize, MazeSize, c);
    assert c in Nodes(open);
  }
}
