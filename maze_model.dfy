/** A value-level model of the randomized depth-first backtracker in generateMaze
    (script.js:28-67). The grid is described by the set of its open cells (those
    the source sets to 0); every other cell is a wall (1). The generator's state
    is that set together with the explicit stack of visited nodes. The random
    pick is an oracle: the k-th draw picks index choice(k) % |neighbours|. */
module MazeModel {

  /** A cell coordinate: column x, row y (the source indexes the grid maze[y][x]). */
  datatype Pos = Pos(x: int, y: int)

  /** A step on the node lattice: two cells along one axis. */
  datatype Dir = Dir(x: int, y: int)

  /** A candidate node, and the unit offset from the current node to the connector. */
  datatype Neighbor = Neighbor(x: int, y: int, dx: int, dy: int)

  /** The open cells of the grid and the backtracking stack (its top is the last entry). */
  datatype State = State(open: set<Pos>, stack: seq<Pos>)

  /** Up, Down, Left, Right, in the order the source scans them. */
  const Dirs: seq<Dir> := [Dir(0, -2), Dir(0, 2), Dir(-2, 0), Dir(2, 0)]

  /** startX, startY (script.js:33-34). */
  const Start: Pos := Pos(1, 1)

  /** Strictly inside the border of a width-by-height grid. */
  predicate Inside(w: int, h: int, p: Pos) {
    0 < p.x < w - 1 && 0 < p.y < h - 1
  }

  /** A node ("room") cell: both coordinates odd. */
  predicate IsNode(p: Pos) {
    p.x % 2 == 1 && p.y % 2 == 1
  }

  /** A connector cell: exactly one coordinate odd. */
  predicate IsConnector(p: Pos) {
    p.x % 2 + p.y % 2 == 1
  }

  /** The two nodes a connector lies between. */
  function EndA(c: Pos): Pos {
    if c.x % 2 == 1 then Pos(c.x, c.y - 1) else Pos(c.x - 1, c.y)
  }

  function EndB(c: Pos): Pos {
    if c.x % 2 == 1 then Pos(c.x, c.y + 1) else Pos(c.x + 1, c.y)
  }

  /** Every node of the lattice that lies strictly inside the grid. */
  function AllNodes(w: int, h: int): set<Pos> {
    set x, y | 0 < x < w - 1 && 0 < y < h - 1 && x % 2 == 1 && y % 2 == 1 :: Pos(x, y)
  }

  function Nodes(open: set<Pos>): set<Pos> {
    set p | p in open && IsNode(p)
  }

  function Connectors(open: set<Pos>): set<Pos> {
    set p | p in open && IsConnector(p)
  }

  function Target(cur: Pos, d: Dir): Pos {
    Pos(cur.x + d.x, cur.y + d.y)
  }

  /** The neighbour test of script.js:52: strictly inside and still a wall. */
  predicate Eligible(w: int, h: int, open: set<Pos>, cur: Pos, d: Dir) {
    Inside(w, h, Target(cur, d)) && Target(cur, d) !in open
  }

  /** The record the source pushes for direction d (script.js:53). */
  function NeighborOf(cur: Pos, d: Dir): Neighbor {
    Neighbor(cur.x + d.x, cur.y + d.y, d.x / 2, d.y / 2)
  }

  function NodeOf(n: Neighbor): Pos {
    Pos(n.x, n.y)
  }

  /** n is a distance-2 lattice neighbour of cur, with (dx, dy) the unit offset towards it. */
  predicate Joins(cur: Pos, n: Neighbor) {
    ((n.dx == 0 && (n.dy == 1 || n.dy == -1)) || (n.dy == 0 && (n.dx == 1 || n.dx == -1)))
    && n.x == cur.x + 2 * n.dx && n.y == cur.y + 2 * n.dy
  }

  function Offer(w: int, h: int, open: set<Pos>, cur: Pos, d: Dir): seq<Neighbor> {
    if Eligible(w, h, open, cur, d) then [NeighborOf(cur, d)] else []
  }

  /** The neighbour list after the first k directions of the scan (script.js:48-55). */
  function Scan(w: int, h: int, open: set<Pos>, cur: Pos, k: nat): seq<Neighbor>
    requires k <= |Dirs|
  {
    if k == 0 then [] else Scan(w, h, open, cur, k - 1) + Offer(w, h, open, cur, Dirs[k - 1])
  }

  /** What one direction contributes: the record for it exactly when it is eligible,
      and never the record of another direction. */
  lemma OfferFacts(w: int, h: int, open: set<Pos>, cur: Pos, d: Dir)
    requires d in Dirs
    ensures forall n :: n in Offer(w, h, open, cur, d) ==>
      Joins(cur, n) && Inside(w, h, NodeOf(n)) && NodeOf(n) !in open
    ensures Eligible(w, h, open, cur, d) <==> NeighborOf(cur, d) in Offer(w, h, open, cur, d)
    ensures forall e :: e in Dirs && e != d ==> NeighborOf(cur, e) !in Offer(w, h, open, cur, d)
  {
  }

  /** The full scan is the four offers one after another. */
  lemma ScanUnfolds(w: int, h: int, open: set<Pos>, cur: Pos)
    ensures Scan(w, h, open, cur, |Dirs|) ==
      Offer(w, h, open, cur, Dirs[0]) + Offer(w, h, open, cur, Dirs[1]) +
      Offer(w, h, open, cur, Dirs[2]) + Offer(w, h, open, cur, Dirs[3])
  {
    assert Scan(w, h, open, cur, 1) == Offer(w, h, open, cur, Dirs[0]);
    assert Scan(w, h, open, cur, 2) == Scan(w, h, open, cur, 1) + Offer(w, h, open, cur, Dirs[1]);
    assert Scan(w, h, open, cur, 3) == Scan(w, h, open, cur, 2) + Offer(w, h, open, cur, Dirs[2]);
  }

  /** Membership in the full scan is membership in one of the four offers. */
  lemma ScanMembers(w: int, h: int, open: set<Pos>, cur: Pos, n: Neighbor)
    ensures n in Scan(w, h, open, cur, |Dirs|) <==>
      exists d :: d in Dirs && n in Offer(w, h, open, cur, d)
  {
    ScanUnfolds(w, h, open, cur);
    var o0, o1 := Offer(w, h, open, cur, Dirs[0]), Offer(w, h, open, cur, Dirs[1]);
    var o2, o3 := Offer(w, h, open, cur, Dirs[2]), Offer(w, h, open, cur, Dirs[3]);
    assert n in o0 + o1 + o2 + o3 <==> n in o0 || n in o1 || n in o2 || n in o3;
    if n in o0 || n in o1 || n in o2 || n in o3 {
      if n in o0 { assert Dirs[0] in Dirs; }
      else if n in o1 { assert Dirs[1] in Dirs; }
      else if n in o2 { assert Dirs[2] in Dirs; }
      else { assert Dirs[3] in Dirs; }
    }
  }

  /** The index in Dirs of the direction a record was made for. */
  function DirRank(n: Neighbor): nat {
    if n.dy == -1 then 0 else if n.dy == 1 then 1 else if n.dx == -1 then 2 else 3
  }

  /** The first k directions contribute at most one record each, each the record of its
      own direction, in the order of Dirs. */
  lemma {:induction false} ScanOrdered(w: int, h: int, open: set<Pos>, cur: Pos, k: nat)
    requires k <= |Dirs|
    ensures var r := Scan(w, h, open, cur, k);
      && |r| <= k
      && (forall i :: 0 <= i < |r| ==> DirRank(r[i]) < k && r[i] == NeighborOf(cur, Dirs[DirRank(r[i])]))
      && (forall i, j :: 0 <= i < j < |r| ==> DirRank(r[i]) < DirRank(r[j]))
  {
    if k > 0 {
      ScanOrdered(w, h, open, cur, k - 1);
      var o := Offer(w, h, open, cur, Dirs[k - 1]);
      assert forall n :: n in o ==> DirRank(n) == k - 1 && n == NeighborOf(cur, Dirs[k - 1]);
    }
  }

  /** The candidate list of one pass: exactly the eligible directions, each once, in the
      order Up, Down, Left, Right. */
  function Neighbors(w: int, h: int, open: set<Pos>, cur: Pos): (r: seq<Neighbor>)
    ensures forall i :: 0 <= i < |r| ==>
      Joins(cur, r[i]) && Inside(w, h, NodeOf(r[i])) && NodeOf(r[i]) !in open
    ensures forall d :: d in Dirs ==> (Eligible(w, h, open, cur, d) <==> NeighborOf(cur, d) in r)
    ensures |r| <= |Dirs|
    ensures forall i :: 0 <= i < |r| ==> r[i] == NeighborOf(cur, Dirs[DirRank(r[i])])
    ensures forall i, j :: 0 <= i < j < |r| ==> DirRank(r[i]) < DirRank(r[j]) && r[i] != r[j]
  {
    var r := Scan(w, h, open, cur, |Dirs|);
    ScanOrdered(w, h, open, cur, |Dirs|);
    assert forall i :: 0 <= i < |r| ==>
      Joins(cur, r[i]) && Inside(w, h, NodeOf(r[i])) && NodeOf(r[i]) !in open by {
      forall i | 0 <= i < |r|
        ensures Joins(cur, r[i]) && Inside(w, h, NodeOf(r[i])) && NodeOf(r[i]) !in open
      {
        ScanMembers(w, h, open, cur, r[i]);
        var d :| d in Dirs && r[i] in Offer(w, h, open, cur, d);
        OfferFacts(w, h, open, cur, d);
      }
    }
    assert forall d :: d in Dirs ==> (Eligible(w, h, open, cur, d) <==> NeighborOf(cur, d) in r) by {
      forall d | d in Dirs
        ensures Eligible(w, h, open, cur, d) <==> NeighborOf(cur, d) in r
      {
        ScanMembers(w, h, open, cur, NeighborOf(cur, d));
        OfferFacts(w, h, open, cur, d);
        if NeighborOf(cur, d) in r {
          var e :| e in Dirs && NeighborOf(cur, d) in Offer(w, h, open, cur, e);
          OfferFacts(w, h, open, cur, e);
        }
      }
    }
    r
  }

  function Top(s: State): Pos
    requires s.stack != []
  {
    s.stack[|s.stack| - 1]
  }

  /** Open the chosen node and the connector to it, then push the node (script.js:59-61). */
  function Push(s: State, n: Neighbor): State
    requires s.stack != []
  {
    var cur := Top(s);
    State(s.open + {NodeOf(n), Pos(cur.x + n.dx, cur.y + n.dy)}, s.stack + [NodeOf(n)])
  }

  /** Backtrack (script.js:63). */
  function Pop(s: State): State
    requires s.stack != []
  {
    State(s.open, s.stack[..|s.stack| - 1])
  }

  /** What termination needs: every stack entry is a node. */
  predicate Wf(s: State) {
    forall i :: 0 <= i < |s.stack| ==> IsNode(s.stack[i])
  }

  /** Adding a member of a and a non-member of a to b removes one element from a - b. */
  lemma DiffShrinks(a: set<Pos>, b: set<Pos>, c: Pos, m: Pos)
    requires c in a && c !in b && m !in a
    ensures |a - (b + {c, m})| == |a - b| - 1
  {
    assert a - (b + {c, m}) == (a - b) - {c};
    assert a - b == (a - (b + {c, m})) + {c};
  }

  lemma AllNodesHas(w: int, h: int, p: Pos)
    ensures p in AllNodes(w, h) <==> Inside(w, h, p) && IsNode(p)
  {
    if Inside(w, h, p) && IsNode(p) {
      assert p == Pos(p.x, p.y);
    }
  }

  /** Pushing a wall node next to the top opens one more lattice node and keeps the
      stack made of nodes. */
  lemma PushShrinks(w: int, h: int, s: State, n: Neighbor)
    requires Wf(s) && s.stack != []
    requires Joins(Top(s), n) && Inside(w, h, NodeOf(n)) && NodeOf(n) !in s.open
    ensures Wf(Push(s, n))
    ensures |AllNodes(w, h) - Push(s, n).open| < |AllNodes(w, h) - s.open|
  {
    var cur := Top(s);
    var c, m := NodeOf(n), Pos(cur.x + n.dx, cur.y + n.dy);
    assert IsNode(cur);
    JoinsParity(cur, n);
    AllNodesHas(w, h, c);
    AllNodesHas(w, h, m);
    DiffShrinks(AllNodes(w, h), s.open, c, m);
  }

  /** A push opens one more lattice node, so the count of unvisited nodes drops. */
  lemma PushDecreases(w: int, h: int, s: State, i: nat)
    requires Wf(s) && s.stack != []
    requires i < |Neighbors(w, h, s.open, Top(s))|
    ensures Wf(Push(s, Neighbors(w, h, s.open, Top(s))[i]))
    ensures |AllNodes(w, h) - Push(s, Neighbors(w, h, s.open, Top(s))[i]).open|
          < |AllNodes(w, h) - s.open|
  {
    PushShrinks(w, h, s, Neighbors(w, h, s.open, Top(s))[i]);
  }

  /** One pass of the while loop (script.js:37-64): push a drawn neighbour when there
      is one (the draw being number k), otherwise backtrack. Either the count of
      unvisited nodes drops, or the open cells stay and the stack shrinks. */
  function Step(w: int, h: int, choice: nat -> nat, s: State, k: nat): (r: (State, nat))
    requires Wf(s) && s.stack != []
    ensures Wf(r.0)
    ensures |AllNodes(w, h) - r.0.open| < |AllNodes(w, h) - s.open| ||
            (r.0.open == s.open && |r.0.stack| < |s.stack|)
    ensures s.open <= r.0.open
  {
    var nbs := Neighbors(w, h, s.open, Top(s));
    if |nbs| > 0 then
      var i := choice(k) % |nbs|;
      PushDecreases(w, h, s, i);
      (Push(s, nbs[i]), k + 1)
    else
      (Pop(s), k)
  }

  lemma StepPushes(w: int, h: int, choice: nat -> nat, s: State, k: nat)
    requires Wf(s) && s.stack != [] && |Neighbors(w, h, s.open, Top(s))| > 0
    ensures var nbs := Neighbors(w, h, s.open, Top(s));
      Step(w, h, choice, s, k) == (Push(s, nbs[choice(k) % |nbs|]), k + 1)
  {
  }

  lemma StepPops(w: int, h: int, choice: nat -> nat, s: State, k: nat)
    requires Wf(s) && s.stack != [] && |Neighbors(w, h, s.open, Top(s))| == 0
    ensures Step(w, h, choice, s, k) == (Pop(s), k)
  {
  }

  /** The whole run of the generator from state s, the oracle's next draw being number k;
      the result is the final set of open cells. */
  function Run(w: int, h: int, choice: nat -> nat, s: State, k: nat): (r: set<Pos>)
    requires Wf(s)
    ensures s.open <= r
    decreases |AllNodes(w, h) - s.open|, |s.stack|
  {
    if s.stack == [] then s.open
    else
      var r := Step(w, h, choice, s, k);
      Run(w, h, choice, r.0, r.1)
  }

  /** The start cell is a node strictly inside the grid; (1,1) is one when w, h >= 3. */
  predicate StartOk(w: int, h: int, start: Pos) {
    IsNode(start) && Inside(w, h, start)
  }

  /** The start of the run: every cell a wall except the start, which is on the stack. */
  function Initial(start: Pos): State {
    State({start}, [start])
  }

  /** The open cells after a run from the given start (script.js:31-35 opens and pushes it). */
  function GeneratedFrom(w: int, h: int, choice: nat -> nat, start: Pos): set<Pos>
    requires IsNode(start)
  {
    Run(w, h, choice, Initial(start), 0)
  }

  /** The open cells of the grid that generateMaze(w, h) returns for the given oracle. */
  function Generated(w: int, h: int, choice: nat -> nat): set<Pos> {
    GeneratedFrom(w, h, choice, Start)
  }

  // ---------------------------------------------------------------------------
  // Paths through open cells

  predicate UnitStep(a: Pos, b: Pos) {
    (a.x == b.x && (b.y == a.y + 1 || b.y == a.y - 1)) ||
    (a.y == b.y && (b.x == a.x + 1 || b.x == a.x - 1))
  }

  /** A non-empty walk through open cells, each step to a side-adjacent cell. */
  predicate IsPath(open: set<Pos>, path: seq<Pos>) {
    |path| > 0 &&
    (forall i :: 0 <= i < |path| ==> path[i] in open) &&
    (forall i :: 0 <= i < |path| - 1 ==> UnitStep(path[i], path[i + 1]))
  }

  /** p can be walked to from start through open cells. */
  ghost predicate Reachable(open: set<Pos>, start: Pos, p: Pos) {
    exists path :: IsPath(open, path) && path[0] == start && path[|path| - 1] == p
  }

  lemma PathGrows(open: set<Pos>, open': set<Pos>, start: Pos, p: Pos)
    requires open <= open' && Reachable(open, start, p)
    ensures Reachable(open', start, p)
  {
    var path :| IsPath(open, path) && path[0] == start && path[|path| - 1] == p;
    assert IsPath(open', path);
  }

  lemma PathExtends(open: set<Pos>, start: Pos, p: Pos, q: Pos)
    requires Reachable(open, start, p) && q in open && UnitStep(p, q)
    ensures Reachable(open, start, q)
  {
    var path :| IsPath(open, path) && path[0] == start && path[|path| - 1] == p;
    var path' := path + [q];
    assert IsPath(open, path');
    assert path'[0] == start && path'[|path'| - 1] == q;
  }

  // ---------------------------------------------------------------------------
  // The invariant the backtracker keeps

  /** From p no direction leads to an inside node that is still a wall. */
  predicate Closed(w: int, h: int, open: set<Pos>, p: Pos) {
    forall d :: d in Dirs ==> !Eligible(w, h, open, p, d)
  }

  /** b is a distance-2 lattice neighbour of a and the connector between them is open. */
  predicate Linked(open: set<Pos>, a: Pos, b: Pos) {
    ((a.x == b.x && (b.y == a.y + 2 || b.y == a.y - 2)) ||
     (a.y == b.y && (b.x == a.x + 2 || b.x == a.x - 2))) &&
    Pos((a.x + b.x) / 2, (a.y + b.y) / 2) in open
  }

  predicate StackInv(w: int, h: int, s: State) {
    (forall i :: 0 <= i < |s.stack| ==> s.stack[i] in s.open && Inside(w, h, s.stack[i])) &&
    (forall i :: 0 <= i < |s.stack| - 1 ==> Linked(s.open, s.stack[i], s.stack[i + 1]))
  }

  predicate CellsInv(w: int, h: int, open: set<Pos>) {
    (forall p :: p in open ==> Inside(w, h, p) && (IsNode(p) || IsConnector(p))) &&
    (forall c :: c in Connectors(open) ==> EndA(c) in open && EndB(c) in open)
  }

  ghost predicate Inv(w: int, h: int, start: Pos, s: State) {
    start in s.open && Wf(s) && StackInv(w, h, s) && CellsInv(w, h, s.open) &&
    (forall p :: p in Nodes(s.open) && p !in s.stack ==> Closed(w, h, s.open, p)) &&
    |Connectors(s.open)| + 1 == |Nodes(s.open)| &&
    (forall p :: p in s.open ==> Reachable(s.open, start, p))
  }

  lemma InitialInv(w: int, h: int, start: Pos)
    requires StartOk(w, h, start)
    ensures Inv(w, h, start, Initial(start))
  {
    var s := Initial(start);
    assert Nodes(s.open) == {start};
    assert Connectors(s.open) == {};
    assert IsPath(s.open, [start]);
  }

  /** The parity facts behind a push: the chosen cell is a node and the cell between is a
      connector whose two ends are the current node and the chosen one. */
  lemma JoinsParity(cur: Pos, n: Neighbor)
    requires IsNode(cur) && Joins(cur, n)
    ensures var m := Pos(cur.x + n.dx, cur.y + n.dy);
      && IsNode(NodeOf(n)) && IsConnector(m)
      && ((EndA(m) == cur && EndB(m) == NodeOf(n)) || (EndA(m) == NodeOf(n) && EndB(m) == cur))
  {
    var m := Pos(cur.x + n.dx, cur.y + n.dy);
    if n.dx == 0 {
      assert m.x % 2 == 1 && m.y % 2 == 0;
    } else {
      assert m.x % 2 == 0 && m.y % 2 == 1;
    }
  }

  lemma ConnectorEnds(c: Pos)
    requires IsConnector(c)
    ensures IsNode(EndA(c)) && IsNode(EndB(c))
  {
  }

  /** Each push turns exactly one wall node and one wall connector into open cells. */
  lemma PushOpensNodeAndConnector(w: int, h: int, s: State, n: Neighbor)
    requires CellsInv(w, h, s.open) && s.stack != []
    requires IsNode(Top(s)) && Top(s) in s.open
    requires Joins(Top(s), n) && NodeOf(n) !in s.open
    ensures var cur := Top(s); var m := Pos(cur.x + n.dx, cur.y + n.dy);
      && IsNode(NodeOf(n)) && NodeOf(n) !in s.open
      && IsConnector(m) && m !in s.open
      && ((EndA(m) == cur && EndB(m) == NodeOf(n)) || (EndA(m) == NodeOf(n) && EndB(m) == cur))
      && Push(s, n).open == s.open + {NodeOf(n), m}
  {
    var cur := Top(s);
    var c, m := NodeOf(n), Pos(cur.x + n.dx, cur.y + n.dy);
    JoinsParity(cur, n);
    assert m in s.open ==> m in Connectors(s.open);
    assert m !in s.open;
  }

  /** The facts about one push that the invariant's parts need. */
  predicate PushFacts(w: int, h: int, s: State, n: Neighbor) {
    s.stack != [] &&
    var cur := Top(s); var c := NodeOf(n); var m := Pos(cur.x + n.dx, cur.y + n.dy);
    IsNode(cur) && cur in s.open && Inside(w, h, cur) &&
    IsNode(c) && c !in s.open && Inside(w, h, c) &&
    IsConnector(m) && m !in s.open && Inside(w, h, m) &&
    ((EndA(m) == cur && EndB(m) == c) || (EndA(m) == c && EndB(m) == cur)) &&
    Linked(Push(s, n).open, cur, c) &&
    Push(s, n).open == s.open + {c, m}
  }

  lemma PushFactsHold(w: int, h: int, s: State, n: Neighbor)
    requires Wf(s) && StackInv(w, h, s) && CellsInv(w, h, s.open) && s.stack != []
    requires n in Neighbors(w, h, s.open, Top(s))
    ensures PushFacts(w, h, s, n)
  {
    var cur := Top(s);
    var c, m := NodeOf(n), Pos(cur.x + n.dx, cur.y + n.dy);
    var nbs := Neighbors(w, h, s.open, cur);
    var i :| 0 <= i < |nbs| && nbs[i] == n;
    assert Joins(cur, n) && Inside(w, h, c) && c !in s.open;
    assert IsNode(cur) && cur in s.open && Inside(w, h, cur);
    PushOpensNodeAndConnector(w, h, s, n);
    assert Inside(w, h, m);
    assert Pos((cur.x + c.x) / 2, (cur.y + c.y) / 2) == m;
  }

  /** Where a push puts its two cells: both strictly inside the grid. */
  lemma PushShape(w: int, h: int, s: State, n: Neighbor)
    requires Wf(s) && StackInv(w, h, s) && CellsInv(w, h, s.open) && s.stack != []
    requires n in Neighbors(w, h, s.open, Top(s))
    ensures var m := Pos(Top(s).x + n.dx, Top(s).y + n.dy);
      && Inside(w, h, NodeOf(n)) && Inside(w, h, m)
      && Push(s, n) == State(s.open + {NodeOf(n)} + {m}, s.stack + [NodeOf(n)])
  {
    PushFactsHold(w, h, s, n);
    var m := Pos(Top(s).x + n.dx, Top(s).y + n.dy);
    assert s.open + {NodeOf(n), m} == s.open + {NodeOf(n)} + {m};
  }

  lemma PushStackInv(w: int, h: int, s: State, n: Neighbor)
    requires Wf(s) && StackInv(w, h, s) && PushFacts(w, h, s, n)
    ensures Wf(Push(s, n)) && StackInv(w, h, Push(s, n))
  {
    var s' := Push(s, n);
    forall i | 0 <= i < |s'.stack| - 1
      ensures Linked(s'.open, s'.stack[i], s'.stack[i + 1])
    {
      if i < |s.stack| - 1 {
        assert Linked(s.open, s.stack[i], s.stack[i + 1]);
      }
    }
  }

  lemma PushCellsInv(w: int, h: int, s: State, n: Neighbor)
    requires CellsInv(w, h, s.open) && PushFacts(w, h, s, n)
    ensures CellsInv(w, h, Push(s, n).open)
  {
  }

  lemma PushClosed(w: int, h: int, s: State, n: Neighbor)
    requires PushFacts(w, h, s, n)
    requires forall p :: p in Nodes(s.open) && p !in s.stack ==> Closed(w, h, s.open, p)
    ensures forall p :: p in Nodes(Push(s, n).open) && p !in Push(s, n).stack ==>
      Closed(w, h, Push(s, n).open, p)
  {
    var s' := Push(s, n);
    forall p | p in Nodes(s'.open) && p !in s'.stack
      ensures Closed(w, h, s'.open, p)
    {
      assert p in Nodes(s.open) && p !in s.stack;
      assert Closed(w, h, s.open, p);
    }
  }

  lemma PushCount(w: int, h: int, s: State, n: Neighbor)
    requires PushFacts(w, h, s, n)
    requires |Connectors(s.open)| + 1 == |Nodes(s.open)|
    ensures |Connectors(Push(s, n).open)| + 1 == |Nodes(Push(s, n).open)|
  {
    var cur := Top(s);
    var c, m := NodeOf(n), Pos(cur.x + n.dx, cur.y + n.dy);
    var o' := Push(s, n).open;
    assert Nodes(o') == Nodes(s.open) + {c};
    assert Connectors(o') == Connectors(s.open) + {m};
  }

  lemma PushReach(w: int, h: int, start: Pos, s: State, n: Neighbor)
    requires PushFacts(w, h, s, n)
    requires forall p :: p in s.open ==> Reachable(s.open, start, p)
    ensures forall p :: p in Push(s, n).open ==> Reachable(Push(s, n).open, start, p)
  {
    var cur := Top(s);
    var c, m := NodeOf(n), Pos(cur.x + n.dx, cur.y + n.dy);
    var o' := Push(s, n).open;
    assert UnitStep(cur, m) && UnitStep(m, c);
    PathGrows(s.open, o', start, cur);
    PathExtends(o', start, cur, m);
    PathExtends(o', start, m, c);
    forall p | p in o'
      ensures Reachable(o', start, p)
    {
      if p in s.open {
        PathGrows(s.open, o', start, p);
      }
    }
  }

  lemma PushInv(w: int, h: int, start: Pos, s: State, n: Neighbor)
    requires Inv(w, h, start, s) && s.stack != []
    requires n in Neighbors(w, h, s.open, Top(s))
    ensures Inv(w, h, start, Push(s, n))
  {
    PushFactsHold(w, h, s, n);
    PushStackInv(w, h, s, n);
    PushCellsInv(w, h, s, n);
    PushClosed(w, h, s, n);
    PushCount(w, h, s, n);
    PushReach(w, h, start, s, n);
  }

  lemma PopInv(w: int, h: int, start: Pos, s: State)
    requires Inv(w, h, start, s) && s.stack != []
    requires |Neighbors(w, h, s.open, Top(s))| == 0
    ensures Inv(w, h, start, Pop(s))
  {
    var s' := Pop(s);
    forall p | p in Nodes(s'.open) && p !in s'.stack
      ensures Closed(w, h, s'.open, p)
    {
      if p in s.stack {
        var i :| 0 <= i < |s.stack| && s.stack[i] == p;
        assert i == |s.stack| - 1;
      }
    }
  }

  /** One pass of the loop keeps the invariant. */
  lemma StepInv(w: int, h: int, choice: nat -> nat, start: Pos, s: State, k: nat)
    requires Inv(w, h, start, s) && s.stack != []
    ensures Inv(w, h, start, Step(w, h, choice, s, k).0)
  {
    var nbs := Neighbors(w, h, s.open, Top(s));
    if |nbs| > 0 {
      PushInv(w, h, start, s, nbs[choice(k) % |nbs|]);
    } else {
      PopInv(w, h, start, s);
    }
  }

  /** The invariant holds of the state the run ends in. */
  lemma {:induction false} RunInv(w: int, h: int, choice: nat -> nat, start: Pos, s: State, k: nat)
    requires Inv(w, h, start, s)
    ensures Inv(w, h, start, State(Run(w, h, choice, s, k), []))
    decreases |AllNodes(w, h) - s.open|, |s.stack|
  {
    if s.stack != [] {
      StepInv(w, h, choice, start, s, k);
      var r := Step(w, h, choice, s, k);
      RunInv(w, h, choice, start, r.0, r.1);
    }
  }

  lemma GeneratedInv(w: int, h: int, choice: nat -> nat, start: Pos)
    requires StartOk(w, h, start)
    ensures Inv(w, h, start, State(GeneratedFrom(w, h, choice, start), []))
  {
    InitialInv(w, h, start);
    RunInv(w, h, choice, start, Initial(start), 0);
  }

  /** The number of double steps that separate p from q on the lattice. */
  function Gap(p: Pos, q: Pos): (r: nat)
    ensures r == 0 <==> p == q
  {
    (if p.x >= q.x then p.x - q.x else q.x - p.x) + (if p.y >= q.y then p.y - q.y else q.y - p.y)
  }

  /** A set that holds the start and admits every inside neighbour of each of its nodes
      holds every lattice node: walk from p towards the start, one node at a time. */
  lemma {:induction false} ClosedHoldsNode(w: int, h: int, open: set<Pos>, start: Pos, p: Pos)
    requires start in open && StartOk(w, h, start)
    requires forall q :: q in Nodes(open) ==> Closed(w, h, open, q)
    requires Inside(w, h, p) && IsNode(p)
    ensures p in open
    decreases Gap(p, start)
  {
    var q: Pos, d: Dir;
    if p.x > start.x {
      assert p.x >= start.x + 2;
      q, d := Pos(p.x - 2, p.y), Dirs[3];
    } else if p.x < start.x {
      assert p.x + 2 <= start.x;
      q, d := Pos(p.x + 2, p.y), Dirs[2];
    } else if p.y > start.y {
      assert p.y >= start.y + 2;
      q, d := Pos(p.x, p.y - 2), Dirs[1];
    } else if p.y < start.y {
      assert p.y + 2 <= start.y;
      q, d := Pos(p.x, p.y + 2), Dirs[0];
    } else {
      return;
    }
    ClosedHoldsNode(w, h, open, start, q);
    assert q in Nodes(open);
    assert d in Dirs && Target(q, d) == p;
  }

  // ---------------------------------------------------------------------------
  // What the generated grid is

  /** Border cells stay walls: every open cell lies strictly inside the grid, and every
      open cell is a node or a connector (no cell with two even coordinates is opened). */
  lemma GeneratedInside(w: int, h: int, choice: nat -> nat, start: Pos, p: Pos)
    requires StartOk(w, h, start)
    requires p in GeneratedFrom(w, h, choice, start)
    ensures Inside(w, h, p)
    ensures IsNode(p) || IsConnector(p)
  {
    GeneratedInv(w, h, choice, start);
  }

  /** An open connector only ever joins two open nodes. */
  lemma GeneratedConnectorJoins(w: int, h: int, choice: nat -> nat, start: Pos, c: Pos)
    requires StartOk(w, h, start)
    requires c in GeneratedFrom(w, h, choice, start) && IsConnector(c)
    ensures EndA(c) in GeneratedFrom(w, h, choice, start) && IsNode(EndA(c))
    ensures EndB(c) in GeneratedFrom(w, h, choice, start) && IsNode(EndB(c))
  {
    GeneratedInv(w, h, choice, start);
    ConnectorEnds(c);
  }

  /** A set of open cells that holds the start, keeps to the inside of the grid and admits
      every inside neighbour of each of its nodes holds exactly the lattice nodes. */
  lemma ClosedSpans(w: int, h: int, open: set<Pos>, start: Pos)
    requires start in open && StartOk(w, h, start) && CellsInv(w, h, open)
    requires forall q :: q in Nodes(open) ==> Closed(w, h, open, q)
    ensures Nodes(open) == AllNodes(w, h)
  {
    forall p | p in AllNodes(w, h)
      ensures p in Nodes(open)
    {
      ClosedHoldsNode(w, h, open, start, p);
    }
    forall p | p in Nodes(open)
      ensures p in AllNodes(w, h)
    {
      assert Inside(w, h, p) && IsNode(p);
    }
  }

  /** The backtracker visits every lattice node strictly inside the grid. */
  lemma GeneratedSpans(w: int, h: int, choice: nat -> nat, start: Pos)
    requires StartOk(w, h, start)
    ensures Nodes(GeneratedFrom(w, h, choice, start)) == AllNodes(w, h)
  {
    GeneratedInv(w, h, choice, start);
    ClosedSpans(w, h, GeneratedFrom(w, h, choice, start), start);
  }

  /** The border rows and columns of the generated grid are walls. */
  lemma GeneratedBorder(w: int, h: int, choice: nat -> nat, start: Pos)
    requires StartOk(w, h, start)
    ensures forall x :: 0 <= x < w ==>
      Pos(x, 0) !in GeneratedFrom(w, h, choice, start) && Pos(x, h - 1) !in GeneratedFrom(w, h, choice, start)
    ensures forall y :: 0 <= y < h ==>
      Pos(0, y) !in GeneratedFrom(w, h, choice, start) && Pos(w - 1, y) !in GeneratedFrom(w, h, choice, start)
  {
    GeneratedInv(w, h, choice, start);
  }

  /** Spanning tree count: one open connector per open node other than the start. */
  lemma GeneratedTreeCount(w: int, h: int, choice: nat -> nat, start: Pos)
    requires StartOk(w, h, start)
    ensures |Connectors(GeneratedFrom(w, h, choice, start))| == |Nodes(GeneratedFrom(w, h, choice, start))| - 1
  {
    GeneratedInv(w, h, choice, start);
  }

  /** Every open cell is reachable from the start through open cells. */
  lemma GeneratedConnected(w: int, h: int, choice: nat -> nat, start: Pos, p: Pos)
    requires StartOk(w, h, start)
    requires p in GeneratedFrom(w, h, choice, start)
    ensures Reachable(GeneratedFrom(w, h, choice, start), start, p)
  {
    GeneratedInv(w, h, choice, start);
  }

  /** The oracle's answers decide the grid: two oracles that agree give the same grid. */
  lemma {:induction false} RunDeterministic(w: int, h: int, c1: nat -> nat, c2: nat -> nat, s: State, k: nat)
    requires Wf(s)
    requires forall j :: c1(j) == c2(j)
    ensures Run(w, h, c1, s, k) == Run(w, h, c2, s, k)
    decreases |AllNodes(w, h) - s.open|, |s.stack|
  {
    if s.stack != [] {
      assert c1(k) == c2(k);
      var r := Step(w, h, c1, s, k);
      assert r == Step(w, h, c2, s, k);
      RunDeterministic(w, h, c1, c2, r.0, r.1);
    }
  }

  lemma GeneratedDeterministic(w: int, h: int, c1: nat -> nat, c2: nat -> nat, start: Pos)
    requires IsNode(start)
    requires forall j :: c1(j) == c2(j)
    ensures GeneratedFrom(w, h, c1, start) == GeneratedFrom(w, h, c2, start)
  {
    RunDeterministic(w, h, c1, c2, Initial(start), 0);
  }

  /** The 5-by-5 scenario: (1,1) and (3,3) open and the corner (0,0) a wall, whatever the draws. */
  lemma FiveByFive(choice: nat -> nat)
    ensures Pos(1, 1) in Generated(5, 5, choice)
    ensures Pos(3, 3) in Generated(5, 5, choice)
    ensures Pos(0, 0) !in Generated(5, 5, choice)
  {
    GeneratedSpans(5, 5, choice, Start);
    GeneratedBorder(5, 5, choice, Start);
    assert Pos(1, 1) in AllNodes(5, 5) && Pos(3, 3) in AllNodes(5, 5);
  }
}
