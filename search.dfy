/** The search that EnsureConnectivity runs over the whole grid before it
    carves corridors: a relaxation over 4-neighbours with step cost 1 for a
    walkable cell and 2 for a wall, from one cell of the root region, that
    records for each cell the neighbour it was last improved from.

    The frontier is a list taken from the front (first in, first out) and a
    cell is frozen once it has been expanded, so the recorded costs are not
    in general the least ones; what the search does guarantee is the tree
    shape proved here, which is what the corridor walk needs.

    The reasoning is done on a snapshot of the node grid as a map from cell
    to node; the array methods are proved equal to the map functions. */
module PathSearch {
  import opened Grid
  import opened Lists

  /** The per-cell record: expanded yet, the neighbour it was last reached
      from (Vector2Int.zero when none), its step cost, and the cost recorded
      from the start (0 meaning "none recorded yet"). */
  datatype DijkstraNode = DijkstraNode(visited: bool, nearestToStart: Vector2Int, cost: int, minCostToStart: int)

  /** A fresh node with step cost `cost`: unexpanded, no predecessor, no
      recorded cost. */
  function NewNode(cost: int): (n: DijkstraNode)
    ensures !n.visited && n.nearestToStart == Zero && n.minCostToStart == 0 && n.cost == cost
  {
    DijkstraNode(false, Zero, cost, 0)
  }

  type NodeMap = map<Vector2Int, DijkstraNode>

  function Size(nodes: array2<DijkstraNode>): Vector2Int
  {
    Vector2Int(nodes.Length0, nodes.Length1)
  }

  ghost function Snapshot(nodes: array2<DijkstraNode>): (m: NodeMap)
    reads nodes
    ensures m.Keys == Cells(Size(nodes))
    ensures forall c :: c in m ==> m[c] == nodes[c.x, c.y]
  {
    map c | c in Cells(Size(nodes)) :: nodes[c.x, c.y]
  }

  /** `c` records a neighbour whose recorded cost is lower by exactly the
      step cost of `c`. */
  ghost predicate PredOk(m: NodeMap, c: Vector2Int)
  {
    c in m && m[c].nearestToStart in m && Adjacent(m[c].nearestToStart, c) &&
    m[c].minCostToStart == m[m[c].nearestToStart].minCostToStart + m[c].cost
  }

  /** A cell with a recorded cost is not the start and hangs off a
      neighbour that is expanded or is the cell `cur` being expanded now. */
  ghost predicate EdgeOk(m: NodeMap, start: Vector2Int, cur: Vector2Int, c: Vector2Int)
  {
    c in m &&
    (m[c].minCostToStart != 0 ==>
       c != start && PredOk(m, c) &&
       (m[m[c].nearestToStart].visited || m[c].nearestToStart == cur))
  }

  ghost predicate TreeEdges(m: NodeMap, start: Vector2Int, cur: Vector2Int)
  {
    forall c :: c in m ==> EdgeOk(m, start, cur, c)
  }

  ghost predicate CostsOk(m: NodeMap)
  {
    forall c :: c in m ==> m[c].cost >= 1 && m[c].minCostToStart >= 0
  }

  /** A frontier entry: an unexpanded cell with a recorded cost, or the start. */
  ghost predicate Waiting(m: NodeMap, start: Vector2Int, c: Vector2Int)
  {
    c in m && !m[c].visited && (c == start || m[c].minCostToStart != 0)
  }

  /** Every unexpanded cell with a recorded cost is on the frontier. */
  ghost predicate Queued(m: NodeMap, queue: seq<Vector2Int>)
  {
    forall c :: c in m && !m[c].visited && m[c].minCostToStart != 0 ==> c in queue
  }

  /** The frontier holds each cell once, only waiting cells, and every
      unexpanded cell with a recorded cost; every expanded cell but the start
      has a recorded cost; every neighbour of an expanded cell is expanded or
      on the frontier. */
  ghost predicate FrontierOk(m: NodeMap, start: Vector2Int, queue: seq<Vector2Int>)
  {
    Distinct(queue) &&
    (forall i :: 0 <= i < |queue| ==> Waiting(m, start, queue[i])) &&
    Queued(m, queue) &&
    (forall c :: c in m && m[c].visited && c != start ==> m[c].minCostToStart != 0) &&
    (forall c, d :: c in m && d in m && m[c].visited && Adjacent(c, d) ==> m[d].visited || d in queue)
  }

  ghost predicate SearchInv(m: NodeMap, start: Vector2Int, queue: seq<Vector2Int>, cur: Vector2Int)
  {
    start in m && m[start].minCostToStart == 0 &&
    CostsOk(m) && TreeEdges(m, start, cur) && FrontierOk(m, start, queue)
  }

  /** Before the start is expanded nothing else has happened. */
  ghost predicate StartCase(m: NodeMap, start: Vector2Int, queue: seq<Vector2Int>)
    requires start in m
  {
    !m[start].visited ==>
      queue == [start] && forall c :: c in m ==> !m[c].visited && m[c].minCostToStart == 0
  }

  /** What the finished search leaves: every cell expanded, and every cell but
      the start records an in-bounds neighbour whose recorded cost is lower
      by exactly the cell's step cost (at least 1). Following predecessors
      from any cell therefore strictly lowers the recorded cost until it
      reaches the start. */
  ghost predicate SearchTree(m: NodeMap, start: Vector2Int)
  {
    start in m && m[start].minCostToStart == 0 &&
    forall c :: c in m ==>
      m[c].visited && m[c].cost >= 1 && m[c].minCostToStart >= 0 &&
      (c != start ==> PredOk(m, c))
  }

  /** The cells the corridor walk from `c` passes before it reaches `root`:
      the recorded predecessors of `c` in turn, up to but not including the
      first cell of `root`. Each step lowers the recorded cost, so the chain
      ends at the latest at the start. */
  ghost function Chain(m: NodeMap, start: Vector2Int, root: set<Vector2Int>, c: Vector2Int): (r: set<Vector2Int>)
    requires SearchTree(m, start) && start in root
    ensures forall d :: d in r ==> d in m && d !in root
    decreases if c in m then m[c].minCostToStart else 0
  {
    if c !in m || c in root then {}
    else
      var p := m[c].nearestToStart;
      if p in root then {} else {p} + Chain(m, start, root, p)
  }

  /** Whether expanding `position` improves `next`. */
  predicate Improves(m: NodeMap, position: Vector2Int, next: Vector2Int)
    requires position in m && next in m
  {
    !m[next].visited &&
    (m[next].minCostToStart == 0 || m[position].minCostToStart + m[next].cost < m[next].minCostToStart)
  }

  /** The nodes and frontier after one neighbour update: an unexpanded
      neighbour with no recorded cost, or with a higher one than the route
      through `position`, records that route, and joins the frontier unless
      it is already on it. */
  function RelaxStep(m: NodeMap, queue: seq<Vector2Int>, position: Vector2Int, next: Vector2Int): (r: (NodeMap, seq<Vector2Int>))
    ensures r.0.Keys == m.Keys
    ensures forall c :: c in m && c != next ==> r.0[c] == m[c]
    ensures next in m ==> r.0[next].visited == m[next].visited && r.0[next].cost == m[next].cost
    ensures CostsOk(m) ==> CostsOk(r.0)
    ensures CostsOk(m) && position in m && next in m ==> r.0[next].visited || r.0[next].minCostToStart != 0
    ensures r.1 == queue || r.1 == queue + [next]
    ensures next in m && m[next].visited ==> r == (m, queue)
  {
    if position in m && next in m && Improves(m, position, next) then
      (m[next := m[next].(minCostToStart := m[position].minCostToStart + m[next].cost, nearestToStart := position)],
       if next !in queue then queue + [next] else queue)
    else (m, queue)
  }

  /** The four neighbours in the order the search updates them: left, down,
      right, up. */
  function Dir(p: Vector2Int, k: nat): (n: Vector2Int)
    requires k < 4
    ensures Adjacent(p, n)
  {
    if k == 0 then Vector2Int(p.x - 1, p.y)
    else if k == 1 then Vector2Int(p.x, p.y - 1)
    else if k == 2 then Vector2Int(p.x + 1, p.y)
    else Vector2Int(p.x, p.y + 1)
  }

  /** The bounds test the search makes before updating neighbour `k`. */
  predicate Guard(p: Vector2Int, size: Vector2Int, k: nat)
    requires k < 4
  {
    if k == 0 then p.x > 0
    else if k == 1 then p.y > 0
    else if k == 2 then p.x + 1 < size.x
    else p.y + 1 < size.y
  }

  /** The guarded neighbour updates from neighbour `k` on. */
  function RelaxFrom(m: NodeMap, queue: seq<Vector2Int>, p: Vector2Int, size: Vector2Int, k: nat): (r: (NodeMap, seq<Vector2Int>))
    requires k <= 4
    ensures r.0.Keys == m.Keys
    decreases 4 - k
  {
    if k == 4 then (m, queue)
    else
      var r1 := if Guard(p, size, k) then RelaxStep(m, queue, p, Dir(p, k)) else (m, queue);
      RelaxFrom(r1.0, r1.1, p, size, k + 1)
  }

  /** One iteration of the search loop: update the neighbours of the first
      frontier cell, take it off the frontier and mark it expanded. */
  function Expand(m: NodeMap, queue: seq<Vector2Int>, size: Vector2Int): (r: (NodeMap, seq<Vector2Int>))
    requires queue != [] && queue[0] in m
    ensures r.0.Keys == m.Keys
  {
    var p := queue[0];
    var r4 := RelaxFrom(m, queue, p, size, 0);
    (r4.0[p := m[p].(visited := true)], RemoveFirst(r4.1, p))
  }

  /** Facts the neighbour updates leave untouched: the node of `p`, every
      expansion mark and step cost, every expanded node, and the frontier up
      to its old length. */
  ghost predicate Extends(m: NodeMap, q: seq<Vector2Int>, m': NodeMap, q': seq<Vector2Int>, p: Vector2Int)
  {
    m'.Keys == m.Keys && p in m && m'[p] == m[p] &&
    (forall c :: c in m ==> m'[c].visited == m[c].visited && m'[c].cost == m[c].cost) &&
    (forall c :: c in m && m[c].visited ==> m'[c] == m[c]) &&
    |q| <= |q'| && q'[..|q|] == q
  }

  /** An improving update keeps every recorded edge. */
  lemma RelaxEdges(m: NodeMap, start: Vector2Int, position: Vector2Int, next: Vector2Int)
    requires position in m && next in m && Adjacent(position, next) && !m[position].visited
    requires start in m && CostsOk(m) && TreeEdges(m, start, position)
    requires !m[start].visited ==> position == start
    requires Improves(m, position, next)
    ensures var m' := m[next := m[next].(minCostToStart := m[position].minCostToStart + m[next].cost, nearestToStart := position)];
      CostsOk(m') && TreeEdges(m', start, position)
  {
    var m' := m[next := m[next].(minCostToStart := m[position].minCostToStart + m[next].cost, nearestToStart := position)];
    assert next != start;
    forall c | c in m'
      ensures EdgeOk(m', start, position, c)
    {
      assert EdgeOk(m, start, position, c);
      if c != next && m[c].minCostToStart != 0 {
        assert m[c].nearestToStart != next;
      }
    }
  }

  /** An improving update keeps the frontier facts. */
  lemma RelaxFrontier(m: NodeMap, start: Vector2Int, queue: seq<Vector2Int>, position: Vector2Int, next: Vector2Int)
    requires position in m && next in m && start in m
    requires FrontierOk(m, start, queue) && CostsOk(m)
    requires Improves(m, position, next)
    ensures var m' := m[next := m[next].(minCostToStart := m[position].minCostToStart + m[next].cost, nearestToStart := position)];
      FrontierOk(m', start, if next !in queue then queue + [next] else queue)
  {
    var m' := m[next := m[next].(minCostToStart := m[position].minCostToStart + m[next].cost, nearestToStart := position)];
    var q' := if next !in queue then queue + [next] else queue;
    forall i | 0 <= i < |q'|
      ensures Waiting(m', start, q'[i])
    {
      if i < |queue| {
        assert Waiting(m, start, queue[i]);
      }
    }
    forall c, d | c in m' && d in m' && m'[c].visited && Adjacent(c, d)
      ensures m'[d].visited || d in q'
    {
      assert m[c].visited;
      assert m[d].visited || d in queue;
    }
  }

  lemma RelaxPreserves(m: NodeMap, start: Vector2Int, queue: seq<Vector2Int>, position: Vector2Int, next: Vector2Int)
    requires position in m && next in m && Adjacent(position, next) && !m[position].visited
    requires SearchInv(m, start, queue, position)
    requires !m[start].visited ==> position == start
    ensures var r := RelaxStep(m, queue, position, next); SearchInv(r.0, start, r.1, position)
  {
    if Improves(m, position, next) {
      var m' := m[next := m[next].(minCostToStart := m[position].minCostToStart + m[next].cost, nearestToStart := position)];
      var q' := if next !in queue then queue + [next] else queue;
      var r := RelaxStep(m, queue, position, next);
      assert r.0 == m' && r.1 == q';
      RelaxEdges(m, start, position, next);
      RelaxFrontier(m, start, queue, position, next);
      assert next != start;
      assert m'[start] == m[start];
    }
  }

  /** The guarded updates from neighbour `k` on keep the invariant. */
  lemma {:induction false} RelaxFromPreserves(m: NodeMap, start: Vector2Int, queue: seq<Vector2Int>,
                                              p: Vector2Int, size: Vector2Int, k: nat)
    requires p in m && !m[p].visited && k <= 4
    requires SearchInv(m, start, queue, p)
    requires !m[start].visited ==> p == start
    ensures var r := RelaxFrom(m, queue, p, size, k); SearchInv(r.0, start, r.1, p)
    decreases 4 - k
  {
    if k < 4 {
      var r1 := if Guard(p, size, k) then RelaxStep(m, queue, p, Dir(p, k)) else (m, queue);
      if Guard(p, size, k) {
        var next := Dir(p, k);
        if next in m {
          RelaxPreserves(m, start, queue, p, next);
        }
        assert p != next;
      }
      assert SearchInv(r1.0, start, r1.1, p);
      assert r1.0[p] == m[p] && r1.0[start].visited == m[start].visited;
      RelaxFromPreserves(r1.0, start, r1.1, p, size, k + 1);
    }
  }

  /** A neighbour update extends the nodes and frontier it starts from. */
  lemma RelaxStepExtends(m: NodeMap, queue: seq<Vector2Int>, p: Vector2Int, next: Vector2Int)
    requires p in m && p != next
    ensures var r := RelaxStep(m, queue, p, next); Extends(m, queue, r.0, r.1, p)
  {
    var r := RelaxStep(m, queue, p, next);
    assert r.1[..|queue|] == queue;
  }

  lemma ExtendsTrans(m: NodeMap, q: seq<Vector2Int>, m': NodeMap, q': seq<Vector2Int>,
                     m'': NodeMap, q'': seq<Vector2Int>, p: Vector2Int)
    requires Extends(m, q, m', q', p) && Extends(m', q', m'', q'', p)
    ensures Extends(m, q, m'', q'', p)
  {
    assert q''[..|q|] == q''[..|q'|][..|q|];
  }

  /** The guarded updates from neighbour `k` on leave `p`, the expansion
      marks, the step costs and the old frontier alone. */
  lemma {:induction false} RelaxFromExtends(m: NodeMap, queue: seq<Vector2Int>, p: Vector2Int, size: Vector2Int, k: nat)
    requires p in m && k <= 4
    ensures var r := RelaxFrom(m, queue, p, size, k); Extends(m, queue, r.0, r.1, p)
    decreases 4 - k
  {
    if k == 4 {
      assert queue[..|queue|] == queue;
    } else {
      var r1 := if Guard(p, size, k) then RelaxStep(m, queue, p, Dir(p, k)) else (m, queue);
      if Guard(p, size, k) {
        RelaxStepExtends(m, queue, p, Dir(p, k));
      } else {
        assert queue[..|queue|] == queue;
      }
      RelaxFromExtends(r1.0, r1.1, p, size, k + 1);
      var r := RelaxFrom(r1.0, r1.1, p, size, k + 1);
      ExtendsTrans(m, queue, r1.0, r1.1, r.0, r.1, p);
    }
  }

  /** The cell is expanded or has a recorded cost. */
  ghost predicate Touched(m: NodeMap, d: Vector2Int)
  {
    d in m && (m[d].visited || m[d].minCostToStart != 0)
  }

  /** The guarded updates from neighbour `k` on keep the step costs valid,
      keep every touched cell touched, and touch every guarded neighbour. */
  lemma {:induction false} RelaxFromTouches(m: NodeMap, queue: seq<Vector2Int>, p: Vector2Int, size: Vector2Int, k: nat)
    requires p in m && k <= 4 && CostsOk(m)
    ensures var r := RelaxFrom(m, queue, p, size, k);
      CostsOk(r.0) &&
      (forall d :: Touched(m, d) ==> Touched(r.0, d)) &&
      (forall j :: k <= j < 4 && Guard(p, size, j) && Dir(p, j) in m ==> Touched(r.0, Dir(p, j)))
    decreases 4 - k
  {
    if k < 4 {
      var r1 := if Guard(p, size, k) then RelaxStep(m, queue, p, Dir(p, k)) else (m, queue);
      assert p in r1.0 && CostsOk(r1.0);
      assert forall d :: Touched(m, d) ==> Touched(r1.0, d);
      assert Guard(p, size, k) && Dir(p, k) in m ==> Touched(r1.0, Dir(p, k));
      RelaxFromTouches(r1.0, r1.1, p, size, k + 1);
    }
  }

  /** Every in-bounds neighbour of `p` is one of its guarded directions. */
  lemma NeighbourDir(p: Vector2Int, d: Vector2Int, size: Vector2Int) returns (j: nat)
    requires Adjacent(p, d) && InBounds(d, size)
    ensures j < 4 && Guard(p, size, j) && Dir(p, j) == d
  {
    if d.x + 1 == p.x {
      j := 0;
    } else if d.y + 1 == p.y {
      j := 1;
    } else if d.x == p.x + 1 {
      j := 2;
    } else {
      j := 3;
    }
  }

  /** The neighbour updates of one expansion keep the invariant and leave
      every neighbour of the expanded cell expanded or on the frontier. */
  lemma RelaxNeighboursPreserves(m: NodeMap, start: Vector2Int, queue: seq<Vector2Int>, p: Vector2Int, size: Vector2Int)
    requires m.Keys == Cells(size) && p in m && !m[p].visited
    requires SearchInv(m, start, queue, p)
    requires !m[start].visited ==> p == start
    ensures var r := RelaxFrom(m, queue, p, size, 0);
      SearchInv(r.0, start, r.1, p) && Extends(m, queue, r.0, r.1, p) &&
      forall d :: d in m && Adjacent(p, d) ==> r.0[d].visited || d in r.1
  {
    RelaxFromPreserves(m, start, queue, p, size, 0);
    RelaxFromExtends(m, queue, p, size, 0);
    RelaxFromTouches(m, queue, p, size, 0);
    var r := RelaxFrom(m, queue, p, size, 0);
    forall d | d in m && Adjacent(p, d)
      ensures r.0[d].visited || d in r.1
    {
      var j := NeighbourDir(p, d, size);
      assert Touched(r.0, Dir(p, j));
      assert Queued(r.0, r.1);
    }
  }

  /** Marking the expanded cell keeps every recorded edge, now with every
      predecessor expanded. */
  lemma MarkEdges(m: NodeMap, start: Vector2Int, p: Vector2Int)
    requires p in m && TreeEdges(m, start, p) && CostsOk(m)
    ensures TreeEdges(m[p := m[p].(visited := true)], start, start)
    ensures CostsOk(m[p := m[p].(visited := true)])
  {
    var m' := m[p := m[p].(visited := true)];
    forall c | c in m'
      ensures EdgeOk(m', start, start, c)
    {
      assert EdgeOk(m, start, p, c);
    }
  }

  /** Taking the expanded cell off the frontier keeps the frontier facts once
      all its neighbours are expanded or on the frontier. */
  lemma MarkFrontier(m: NodeMap, start: Vector2Int, queue: seq<Vector2Int>, p: Vector2Int)
    requires queue != [] && queue[0] == p && p in m
    requires start in m && FrontierOk(m, start, queue) && m[start].minCostToStart == 0
    requires forall d :: d in m && Adjacent(p, d) ==> m[d].visited || d in queue
    ensures FrontierOk(m[p := m[p].(visited := true)], start, RemoveFirst(queue, p))
  {
    var m' := m[p := m[p].(visited := true)];
    var q' := RemoveFirst(queue, p);
    assert q' == queue[1..];
    assert Waiting(m, start, queue[0]);
    forall i | 0 <= i < |q'|
      ensures Waiting(m', start, q'[i])
    {
      assert q'[i] == queue[i + 1];
      assert Waiting(m, start, queue[i + 1]);
    }
    forall c | c in m' && !m'[c].visited && m'[c].minCostToStart != 0
      ensures c in q'
    {
      assert c in queue;
    }
    forall c, d | c in m' && d in m' && m'[c].visited && Adjacent(c, d)
      ensures m'[d].visited || d in q'
    {
      if d != p {
        assert m[d].visited || d in queue;
      }
    }
  }

  lemma Retarget(m: NodeMap, start: Vector2Int, queue: seq<Vector2Int>, p: Vector2Int)
    requires SearchInv(m, start, queue, start) && StartCase(m, start, queue)
    ensures SearchInv(m, start, queue, p)
  {
    forall c | c in m
      ensures EdgeOk(m, start, p, c)
    {
      assert EdgeOk(m, start, start, c);
    }
  }

  /** `m'` differs from `m` in expansion marks only at `p`, keeps every
      step cost, and leaves every node expanded before untouched: its
      predecessor and recorded cost are final. */
  ghost predicate MarksOnly(m: NodeMap, m': NodeMap, p: Vector2Int)
  {
    m'.Keys == m.Keys &&
    (forall c :: c in m ==> (m'[c].visited <==> m[c].visited || c == p) && m'[c].cost == m[c].cost) &&
    (forall c :: c in m && m[c].visited ==> m'[c] == m[c])
  }

  /** One whole iteration of the search loop keeps the invariant, marks
      exactly the first frontier cell as expanded, and keeps the step costs. */
  lemma ExpandPreserves(m: NodeMap, start: Vector2Int, queue: seq<Vector2Int>, size: Vector2Int)
    requires m.Keys == Cells(size) && queue != []
    requires SearchInv(m, start, queue, start) && StartCase(m, start, queue)
    ensures queue[0] in m && !m[queue[0]].visited
    ensures var r := Expand(m, queue, size);
      SearchInv(r.0, start, r.1, start) && StartCase(r.0, start, r.1) && MarksOnly(m, r.0, queue[0])
  {
    var p := queue[0];
    assert Waiting(m, start, queue[0]);
    Retarget(m, start, queue, p);
    RelaxNeighboursPreserves(m, start, queue, p, size);
    var r4 := RelaxFrom(m, queue, p, size, 0);
    MarkPreserves(m, start, queue, r4.0, r4.1);
  }

  /** Marking the first frontier cell after its neighbour updates. */
  lemma MarkPreserves(m: NodeMap, start: Vector2Int, queue: seq<Vector2Int>, m4: NodeMap, q4: seq<Vector2Int>)
    requires queue != [] && queue[0] in m && !m[queue[0]].visited
    requires start in m && (!m[start].visited ==> queue[0] == start)
    requires SearchInv(m4, start, q4, queue[0]) && Extends(m, queue, m4, q4, queue[0])
    requires forall d :: d in m4 && Adjacent(queue[0], d) ==> m4[d].visited || d in q4
    ensures var m' := m4[queue[0] := m[queue[0]].(visited := true)];
      SearchInv(m', start, RemoveFirst(q4, queue[0]), start) && m'[start].visited && MarksOnly(m, m', queue[0])
  {
    var p := queue[0];
    assert q4[0] == p by { assert q4[..|queue|] == queue; }
    MarkEdges(m4, start, p);
    MarkFrontier(m4, start, q4, p);
    var m' := m4[p := m[p].(visited := true)];
    assert m'[start].visited by {
      if !m[start].visited {
        assert p == start;
      }
    }
    forall c | c in m
      ensures (m'[c].visited <==> m[c].visited || c == p) && m'[c].cost == m[c].cost
      ensures m[c].visited ==> m'[c] == m[c]
    {
      assert m4[c].visited == m[c].visited && m4[c].cost == m[c].cost;
    }
  }

  lemma InitialInv(m: NodeMap, start: Vector2Int)
    requires start in m
    requires forall c :: c in m ==> !m[c].visited && m[c].minCostToStart == 0 && m[c].cost >= 1
    ensures SearchInv(m, start, [start], start) && StartCase(m, start, [start])
  {
  }

  /** An empty frontier after the start was expanded means every cell of the
      rectangle was expanded, so the predecessors form a tree. */
  lemma FinishedTree(m: NodeMap, start: Vector2Int, size: Vector2Int)
    requires m.Keys == Cells(size)
    requires SearchInv(m, start, [], start) && m[start].visited
    ensures SearchTree(m, start)
  {
    var done := set c | c in m && m[c].visited;
    assert Closed(Cells(size), done);
    ClosedGridIsFull(size, done, start);
    forall c | c in m
      ensures c != start ==> PredOk(m, c)
    {
      assert EdgeOk(m, start, start, c);
    }
  }

  /** An element write, seen on the snapshot. */
  method SetNode(nodes: array2<DijkstraNode>, c: Vector2Int, v: DijkstraNode)
    requires InBounds(c, Size(nodes))
    modifies nodes
    ensures Snapshot(nodes) == old(Snapshot(nodes))[c := v]
  {
    nodes[c.x, c.y] := v;
  }

  /** A neighbour update on the node array, as RelaxStep says. */
  method Relax(nodes: array2<DijkstraNode>, position: Vector2Int, next: Vector2Int, queue: seq<Vector2Int>)
    returns (queue': seq<Vector2Int>)
    requires InBounds(position, Size(nodes)) && InBounds(next, Size(nodes))
    modifies nodes
    ensures (Snapshot(nodes), queue') == RelaxStep(old(Snapshot(nodes)), queue, position, next)
  {
    ghost var m := Snapshot(nodes);
    var node := nodes[position.x, position.y];
    var child := nodes[next.x, next.y];
    queue' := queue;
    if !child.visited {
      if child.minCostToStart == 0 || node.minCostToStart + child.cost < child.minCostToStart {
        SetNode(nodes, next, child.(minCostToStart := node.minCostToStart + child.cost, nearestToStart := position));
        if next !in queue {
          queue' := queue + [next];
        }
      }
    }
  }

  /** The four neighbour updates of one iteration of the search loop. */
  method RelaxAround(nodes: array2<DijkstraNode>, position: Vector2Int, queue: seq<Vector2Int>)
    returns (queue': seq<Vector2Int>)
    requires InBounds(position, Size(nodes))
    modifies nodes
    ensures (Snapshot(nodes), queue') == RelaxFrom(old(Snapshot(nodes)), queue, position, Size(nodes), 0)
  {
    ghost var size := Size(nodes);
    ghost var goal := RelaxFrom(Snapshot(nodes), queue, position, size, 0);
    queue' := queue;
    if position.x > 0 {
      queue' := Relax(nodes, position, Vector2Int(position.x - 1, position.y), queue');
    }
    assert goal == RelaxFrom(Snapshot(nodes), queue', position, size, 1);
    if position.y > 0 {
      queue' := Relax(nodes, position, Vector2Int(position.x, position.y - 1), queue');
    }
    assert goal == RelaxFrom(Snapshot(nodes), queue', position, size, 2);
    if position.x + 1 < nodes.Length0 {
      queue' := Relax(nodes, position, Vector2Int(position.x + 1, position.y), queue');
    }
    assert goal == RelaxFrom(Snapshot(nodes), queue', position, size, 3);
    if position.y + 1 < nodes.Length1 {
      queue' := Relax(nodes, position, Vector2Int(position.x, position.y + 1), queue');
    }
    assert goal == RelaxFrom(Snapshot(nodes), queue', position, size, 4);
  }

  /** One iteration of the search loop on the node array, as Expand says. */
  method ExpandFront(nodes: array2<DijkstraNode>, queue: seq<Vector2Int>) returns (queue': seq<Vector2Int>)
    requires queue != [] && InBounds(queue[0], Size(nodes))
    modifies nodes
    ensures (Snapshot(nodes), queue') == Expand(old(Snapshot(nodes)), queue, Size(nodes))
  {
    ghost var m := Snapshot(nodes);
    var position := queue[0];
    var node := nodes[position.x, position.y];
    assert m[position] == node;
    queue' := RelaxAround(nodes, position, queue);
    queue' := RemoveFirst(queue', position);
    SetNode(nodes, position, node.(visited := true));
  }

  /** The search loop of EnsureConnectivity, from `start`, over fresh nodes. */
  method BuildTree(nodes: array2<DijkstraNode>, start: Vector2Int)
    requires InBounds(start, Size(nodes))
    requires forall c :: InBounds(c, Size(nodes)) ==>
      !nodes[c.x, c.y].visited && nodes[c.x, c.y].minCostToStart == 0 && nodes[c.x, c.y].cost >= 1
    modifies nodes
    ensures SearchTree(Snapshot(nodes), start)
    ensures forall c :: InBounds(c, Size(nodes)) ==> nodes[c.x, c.y].cost == old(nodes[c.x, c.y].cost)
  {
    var queue := [start];
    ghost var size := Size(nodes);
    ghost var m0 := Snapshot(nodes);
    ghost var done: set<Vector2Int> := {};
    InitialInv(m0, start);
    while |queue| > 0
      invariant Snapshot(nodes).Keys == m0.Keys == Cells(size)
      invariant SearchInv(Snapshot(nodes), start, queue, start) && StartCase(Snapshot(nodes), start, queue)
      invariant forall c :: c in m0 ==> (Snapshot(nodes)[c].visited <==> c in done)
      invariant forall c :: c in m0 ==> Snapshot(nodes)[c].cost == m0[c].cost
      invariant done <= Cells(size)
      decreases Cells(size) - done
    {
      ExpandPreserves(Snapshot(nodes), start, queue, size);
      done := done + {queue[0]};
      queue := ExpandFront(nodes, queue);
    }
    FinishedTree(Snapshot(nodes), start, size);
  }
}
