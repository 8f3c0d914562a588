/** generateMaze (script.js:28-67) as the source writes it: a 2D integer grid
    (1 = wall, 0 = path) changed in place, an explicit stack, a while loop and an
    inner scan over the four directions. Its result is proved to be the grid the
    model in MazeModel describes, so every lemma proved there holds of it. */
module MazeGen {
  import opened MazeModel

  /** The array shows exactly the open cells `open`: 0 there, 1 everywhere else. */
  predicate Depicts(maze: array2<int>, w: int, h: int, open: set<Pos>)
    reads maze
  {
    maze.Length0 == h && maze.Length1 == w &&
    forall y, x :: 0 <= y < h && 0 <= x < w ==> maze[y, x] == (if Pos(x, y) in open then 0 else 1)
  }

  /** One pass of the scan at script.js:39-55: the distance-2 neighbours of `current`
      that lie strictly inside the grid and are still walls, in the order Up, Down,
      Left, Right. */
  method ScanNeighbors(maze: array2<int>, width: int, height: int, current: Pos, ghost open: set<Pos>)
    returns (neighbors: seq<Neighbor>)
    requires Depicts(maze, width, height, open)
    ensures neighbors == Neighbors(width, height, open, current)
  {
    neighbors := [];
    for i := 0 to |Dirs|
      invariant neighbors == Scan(width, height, open, current, i)
    {
      var dir := Dirs[i];
      var nx := current.x + dir.x;
      var ny := current.y + dir.y;
      assert Scan(width, height, open, current, i + 1)
          == Scan(width, height, open, current, i) + Offer(width, height, open, current, dir);
      if nx > 0 && nx < width - 1 && ny > 0 && ny < height - 1 && maze[ny, nx] == 1 {
        assert Eligible(width, height, open, current, dir);
        neighbors := neighbors + [Neighbor(nx, ny, dir.x / 2, dir.y / 2)];
      } else {
        assert !Eligible(width, height, open, current, dir);
      }
    }
  }

  /** Set one cell to 0 (path). */
  method OpenCell(maze: array2<int>, width: int, height: int, p: Pos, ghost open: set<Pos>)
    requires Depicts(maze, width, height, open)
    requires 0 <= p.x < width && 0 <= p.y < height
    modifies maze
    ensures Depicts(maze, width, height, open + {p})
  {
    maze[p.y, p.x] := 0;
  }

  /** An array that shows a set of cells strictly inside the grid has walls all round. */
  lemma WallBorder(maze: array2<int>, w: int, h: int, open: set<Pos>)
    requires w >= 3 && h >= 3 && Depicts(maze, w, h, open)
    requires forall p :: p in open ==> Inside(w, h, p)
    ensures forall x :: 0 <= x < w ==> maze[0, x] == 1 && maze[h - 1, x] == 1
    ensures forall y :: 0 <= y < h ==> maze[y, 0] == 1 && maze[y, w - 1] == 1
  {
    forall x | 0 <= x < w
      ensures maze[0, x] == 1 && maze[h - 1, x] == 1
    {
      assert Pos(x, 0) !in open && Pos(x, h - 1) !in open;
    }
    forall y | 0 <= y < h
      ensures maze[y, 0] == 1 && maze[y, w - 1] == 1
    {
      assert Pos(0, y) !in open && Pos(w - 1, y) !in open;
    }
  }

  /** One pass of the while loop (script.js:38-63) on the array: scan the neighbours of
      the top of the stack; when there are some, draw one, open it and the wall between,
      and push it; otherwise pop. The k-th call of Math.random() at script.js:58 picks
      index choice(k) % |neighbors|. */
  method Advance(maze: array2<int>, width: int, height: int, choice: nat -> nat,
                 stack: seq<Pos>, ghost open: set<Pos>, draws: nat)
    returns (stack': seq<Pos>, ghost open': set<Pos>, draws': nat)
    requires stack != [] && Wf(State(open, stack))
    requires StackInv(width, height, State(open, stack)) && CellsInv(width, height, open)
    requires Depicts(maze, width, height, open)
    modifies maze
    ensures (State(open', stack'), draws') == Step(width, height, choice, State(open, stack), draws)
    ensures Depicts(maze, width, height, open')
  {
    ghost var s := State(open, stack);
    var current := stack[|stack| - 1];
    var neighbors := ScanNeighbors(maze, width, height, current, open);
    if |neighbors| > 0 {
      var k := choice(draws) % |neighbors|;
      var chosen := neighbors[k];
      StepPushes(width, height, choice, s, draws);
      PushShape(width, height, s, chosen);
      var node, connector := Pos(chosen.x, chosen.y), Pos(current.x + chosen.dx, current.y + chosen.dy);
      OpenCell(maze, width, height, node, open);
      OpenCell(maze, width, height, connector, open + {node});
      open' := open + {node} + {connector};
      stack' := stack + [node];
      draws' := draws + 1;
    } else {
      StepPops(width, height, choice, s, draws);
      stack' := stack[..|stack| - 1];
      open' := open;
      draws' := draws;
    }
  }

  /** The while loop of script.js:37-64, run from any state the invariant admits: the
      cells it opens are those the model's run from that state opens, and the border
      rows and columns stay walls. */
  method Carve(maze: array2<int>, width: int, height: int, choice: nat -> nat,
               ghost start: Pos, stack0: seq<Pos>, ghost s0: State, draws0: nat)
    requires width >= 3 && height >= 3
    requires stack0 == s0.stack && Inv(width, height, start, s0)
    requires Depicts(maze, width, height, s0.open)
    modifies maze
    ensures Depicts(maze, width, height, Run(width, height, choice, s0, draws0))
    ensures forall x :: 0 <= x < width ==> maze[0, x] == 1 && maze[height - 1, x] == 1
    ensures forall y :: 0 <= y < height ==> maze[y, 0] == 1 && maze[y, width - 1] == 1
  {
    var stack := stack0;
    ghost var open := s0.open;
    var draws := draws0;
    while |stack| > 0
      invariant Inv(width, height, start, State(open, stack))
      invariant Depicts(maze, width, height, open)
      invariant Run(width, height, choice, State(open, stack), draws) == Run(width, height, choice, s0, draws0)
      decreases |AllNodes(width, height) - open|, |stack|
    {
      StepInv(width, height, choice, start, State(open, stack), draws);
      stack, open, draws := Advance(maze, width, height, choice, stack, open, draws);
    }
    WallBorder(maze, width, height, open);
  }

  /** generateMaze(width, height): a grid of walls, (1,1) opened and pushed, then the
      backtracking loop. The grid returned shows the model's generated set, so the lemmas
      of MazeModel about Generated (border, spanning tree, connectivity) hold of it. */
  method GenerateMaze(width: int, height: int, choice: nat -> nat) returns (maze: array2<int>)
    requires width >= 3 && height >= 3
    ensures Depicts(maze, width, height, Generated(width, height, choice))
  {
    maze := new int[height, width]((_, _) => 1);
    maze[1, 1] := 0;
    InitialInv(width, height, Start);
    Carve(maze, width, height, choice, Start, [Pos(1, 1)], Initial(Start), 0);
  }
}
