/** The arena generator: a randomly sized wall grid whose walkable cells are
    split into regions, reconnected through the predecessor tree of the path
    search, turned into spawn positions, and populated with agents. */
module Generator {
  import opened Grid
  import opened Lists
  import opened Regions
  import opened PathSearch
  import opened Arena

  /** A placed agent: its world position and its team number. */
  datatype Agent = Agent(position: Vector2Int, teamId: int)

  /** How one generation ends: normally, or with the exception the generator
      raises when no cell is walkable or the spawn list runs out. */
  datatype Status = Generated | NoWalkableCell | SpawnExhausted

  class EnvironmentGenerator {
    const minSize: Vector2Int
    const maxSize: Vector2Int
    const minAgents: int
    const maxAgents: int
    const wallsDensity: real

    /** Whether a generated environment exists (to be destroyed first). */
    var built: bool
    var size: Vector2Int
    /** The interior cells holding a wall. */
    var walls: array2<bool>
    /** The world positions agents may spawn at. */
    var spawnPositions: seq<Vector2Int>
    var agentsNumber: int
    /** The agents of the current environment. */
    var agents: seq<Agent>
    /** The world positions of the wall blocks of the current environment. */
    var placedWalls: seq<Vector2Int>

    ghost predicate Valid()
      reads this`size, this`walls
    {
      0 <= size.x && 0 <= size.y && walls.Length0 == size.x && walls.Length1 == size.y &&
      0 <= minSize.x && 0 <= minSize.y && 0 <= maxSize.x && 0 <= maxSize.y
    }

    /** Before the first generation there is nothing to destroy. */
    ghost predicate Consistent()
      reads this`built, this`spawnPositions, this`agents, this`placedWalls
    {
      !built ==> spawnPositions == [] && agents == [] && placedWalls == []
    }

    /** The walkable cells. */
    ghost function Open(): set<Vector2Int>
      reads this`walls, walls
    {
      CellsWhere(walls, false)
    }

    /** The configured generator before its first generation. */
    constructor (minSize: Vector2Int, maxSize: Vector2Int, minAgents: int, maxAgents: int, wallsDensity: real)
      requires 0 <= minSize.x && 0 <= minSize.y && 0 <= maxSize.x && 0 <= maxSize.y
      ensures Valid() && Consistent() && !built
      ensures this.minSize == minSize && this.maxSize == maxSize
      ensures this.minAgents == minAgents && this.maxAgents == maxAgents && this.wallsDensity == wallsDensity
      ensures spawnPositions == [] && agents == [] && placedWalls == []
    {
      this.minSize, this.maxSize := minSize, maxSize;
      this.minAgents, this.maxAgents := minAgents, maxAgents;
      this.wallsDensity := wallsDensity;
      built := false;
      size := Vector2Int(0, 0);
      walls := new bool[0, 0];
      spawnPositions, agents, placedWalls := [], [], [];
      agentsNumber := 0;
    }

    /** One generation: destroys the previous environment if there is one,
        samples the size, places the border ring, draws the walls, splits the
        walkable cells into regions and repairs them, turns the walkable cells
        into spawn positions and the walls into wall blocks, and places the
        agents. `roll` gives the Random.value drawn for each cell; the result
        holds the cells logged as unconnectable. */
    method GenerateEnvironment(roll: (int, int) -> real) returns (status: Status, reported: seq<Vector2Int>)
      requires Valid() && Consistent()
      modifies this
      ensures Valid() && built
      ensures status == NoWalkableCell <==> AllWalls(roll, size, wallsDensity)
      ensures status == NoWalkableCell ==> reported == [] && spawnPositions == [] && agents == []
      ensures status != NoWalkableCell && reported == [] ==> Connected(Open())
      ensures forall i :: 0 <= i < |reported| ==> reported[i] in Open() && Adjacent(Zero, reported[i])
      ensures status != NoWalkableCell ==>
        multiset(Positions(agents)) + multiset(spawnPositions) == multiset(WorldPositions(Scan(walls, false)))
      ensures status == Generated <==> status != NoWalkableCell && agentsNumber <= |Open()|
      ensures Distinct(Positions(agents)) && Distinct(placedWalls)
    {
      Draw(roll);
      status, reported := RepairAndPopulate();
    }

    /** The generation on the drawn grid: the repair, then, unless no cell is
        walkable, the spawn step and the agent placement. */
    method RepairAndPopulate() returns (status: Status, reported: seq<Vector2Int>)
      requires Valid() && spawnPositions == [] && agents == [] && placedWalls == BlockPositions(Border(size))
      modifies walls, this`spawnPositions, this`placedWalls, this`agentsNumber, this`agents
      ensures Valid()
      ensures status == NoWalkableCell <==> old(Open()) == {}
      ensures status == NoWalkableCell ==> reported == [] && spawnPositions == [] && agents == []
      ensures status != NoWalkableCell && reported == [] ==> Connected(Open())
      ensures forall i :: 0 <= i < |reported| ==> reported[i] in Open() && Adjacent(Zero, reported[i])
      ensures status != NoWalkableCell ==>
        multiset(Positions(agents)) + multiset(spawnPositions) == multiset(WorldPositions(Scan(walls, false)))
      ensures status == Generated <==> status != NoWalkableCell && agentsNumber <= |Open()|
      ensures Distinct(Positions(agents)) && Distinct(placedWalls)
    {
      var ok, areas, k;
      ghost var m, start, sampled;
      ok, reported, areas, k, m, start, sampled := Repair();
      if !ok {
        WallsApart(size, []);
        status := NoWalkableCell;
        return;
      }
      status := Populate();
    }

    /** The first part of a generation: the previous environment is
        destroyed, the size is drawn, the border ring is placed and every
        interior cell draws a wall. */
    method Draw(roll: (int, int) -> real)
      requires Valid() && Consistent()
      modifies this`built, this`size, this`walls, this`spawnPositions, this`agents, this`placedWalls
      ensures Valid() && built && fresh(walls)
      ensures minSize.x <= maxSize.x ==> minSize.x <= size.x <= maxSize.x
      ensures minSize.y <= maxSize.y ==> minSize.y <= size.y <= maxSize.y
      ensures spawnPositions == [] && agents == [] && placedWalls == BlockPositions(Border(size))
      ensures forall x, y :: 0 <= x < size.x && 0 <= y < size.y ==> walls[x, y] == (roll(x, y) < wallsDensity)
      ensures Open() == {} <==> AllWalls(roll, size, wallsDensity)
      ensures Survivors(roll, size, wallsDensity, Open())
    {
      var sampled := SampleSize(minSize, maxSize);
      var border := BorderBlocks(sampled);
      // Destroying a previous environment empties the three lists; without
      // one they are empty already, so the lists are reset either way.
      built, size, placedWalls, spawnPositions, agents := true, sampled, border, [], [];
      FillWalls(roll);
    }

    /** Every interior cell becomes a wall when its roll falls below the
        density. */
    method FillWalls(roll: (int, int) -> real)
      requires 0 <= size.x && 0 <= size.y
      modifies this`walls
      ensures fresh(walls) && walls.Length0 == size.x && walls.Length1 == size.y
      ensures forall x, y :: 0 <= x < size.x && 0 <= y < size.y ==> walls[x, y] == (roll(x, y) < wallsDensity)
      ensures Open() == {} <==> AllWalls(roll, size, wallsDensity)
      ensures Survivors(roll, size, wallsDensity, Open())
    {
      walls := DrawWalls(size, roll, wallsDensity);
    }

    /** The spawn step and the agent placement: the walkable cells become
        spawn positions and the walls wall blocks, and the agents are drawn
        from the spawn positions. The wall grid is left as it is. */
    method Populate() returns (status: Status)
      requires Valid() && Open() != {} && spawnPositions == [] && agents == []
      requires placedWalls == BlockPositions(Border(size))
      modifies this`spawnPositions, this`placedWalls, this`agentsNumber, this`agents
      ensures Valid()
      ensures placedWalls == old(placedWalls) + WorldPositions(Scan(walls, true))
      ensures multiset(Positions(agents)) + multiset(spawnPositions) == multiset(WorldPositions(Scan(walls, false)))
      ensures minAgents <= maxAgents ==> minAgents <= agentsNumber <= maxAgents
      ensures status != NoWalkableCell && (status == Generated <==> agentsNumber <= |Open()|)
      ensures |agents| == if status == Generated then Clamp(agentsNumber) else |Open()|
      ensures forall i :: 0 <= i < |agents| ==> agents[i].teamId == i
      ensures Distinct(Positions(agents)) && Distinct(placedWalls)
    {
      CollectSpawns();
      ScanListsCells(walls, false);
      ScanEnumerates(walls, true);
      WallsApart(size, Scan(walls, true));
      var placed := PlaceAgents();
      status := if placed then Generated else SpawnExhausted;
    }

    /** Every walkable cell becomes a spawn position and every wall cell a
        wall block, both in scan order. */
    method CollectSpawns()
      requires Valid() && spawnPositions == []
      modifies this`spawnPositions, this`placedWalls
      ensures spawnPositions == WorldPositions(Scan(walls, false))
      ensures placedWalls == old(placedWalls) + WorldPositions(Scan(walls, true))
    {
      var spawns, blocks := SplitCells(walls);
      spawnPositions, placedWalls := spawns, placedWalls + blocks;
    }

    /** The agent count is drawn and each agent takes a spawn position drawn
        from those still free, which is then removed. */
    method PlaceAgents() returns (placed: bool)
      requires agents == []
      modifies this`agentsNumber, this`agents, this`spawnPositions
      ensures minAgents <= maxAgents ==> minAgents <= agentsNumber <= maxAgents
      ensures placed <==> agentsNumber <= |old(spawnPositions)|
      ensures |agents| == if placed then Clamp(agentsNumber) else |old(spawnPositions)|
      ensures forall i :: 0 <= i < |agents| ==> agents[i].teamId == i
      ensures multiset(Positions(agents)) + multiset(spawnPositions) == multiset(old(spawnPositions))
      ensures Distinct(old(spawnPositions)) ==> Distinct(Positions(agents))
    {
      var count := RandomRange(minAgents, maxAgents + 1);
      var done, placedAgents, rest := DrawAgents(spawnPositions, count);
      agentsNumber, agents, spawnPositions, placed := count, placedAgents, rest, done;
    }

    /** The region scan and the repair: the walkable cells are split into
        regions and the regions are reconnected to the largest one. Fails
        when no cell is walkable; otherwise returns the cells logged as
        unconnectable. */
    method Repair() returns (ok: bool, reported: seq<Vector2Int>, areas: seq<set<Vector2Int>>, k: nat,
                             ghost m: NodeMap, ghost start: Vector2Int, ghost sampled: seq<Vector2Int>)
      requires Valid()
      modifies walls
      ensures Valid()
      ensures ok <==> old(Open()) != {}
      ensures ok ==> Open() != {}
      ensures !ok ==> reported == [] && Open() == old(Open())
      ensures old(Open()) <= Open()
      ensures RepairOutcome(old(Open()), Open(), Cells(size), areas, k, reported, m, start, sampled)
      ensures forall i :: 0 <= i < |reported| ==> reported[i] in old(Open()) && Adjacent(Zero, reported[i])
      ensures ok && reported == [] ==> Connected(Open())
      ensures ok && Connected(old(Open())) ==> Open() == old(Open())
    {
      areas := FindRegions();
      NoRegionIffNoCell(Open(), areas);
      if Open() != {} && Connected(Open()) {
        OneRegionWhenConnected(Open(), areas);
      }
      ok, k, reported, m, start, sampled := EnsureConnectivity(areas);
      if ok {
        ReportsWalkable(old(Open()), Open(), Cells(size), areas, k, reported, m, start, sampled);
      }
    }

    /** The flood fill from `seed`: collects the walkable cells reachable from
        it that were not visited before, and marks them visited. The result is
        a connected set of walkable, newly visited cells that reaches every
        walkable neighbour not visited before. */
    method BasicFill(seed: Vector2Int, visited: array2<bool>) returns (area: set<Vector2Int>)
      requires Valid() && visited != walls
      requires visited.Length0 == size.x && visited.Length1 == size.y
      requires InBounds(seed, size) && !walls[seed.x, seed.y] && !visited[seed.x, seed.y]
      modifies visited
      ensures area <= Open() - old(CellsWhere(visited, true))
      ensures CellsWhere(visited, true) == old(CellsWhere(visited, true)) + area
      ensures seed in area && forall c :: c in area ==> Reaches(area, seed, c)
      ensures forall c, d :: c in area && d in Open() && Adjacent(c, d) ==>
        d in area || d in old(CellsWhere(visited, true))
    {
      ghost var v0 := CellsWhere(visited, true);
      ghost var open := Open();
      area := {};
      var queue := [seed];
      while |queue| > 0
        invariant FillInv(open, v0, area, queue, seed, size)
        invariant CellsWhere(visited, true) == v0 + area && Open() == open
        decreases Cells(size) - area, |queue|
      {
        ghost var q0, a0 := queue, area;
        var position := queue[0];
        queue := queue[1..];
        if !walls[position.x, position.y] && position !in area && !visited[position.x, position.y] {
          area := area + {position};
          SetCell(visited, position, true);
          UnionAddAssoc(v0, a0, position);
          queue := EnqueueNeighbours(position, area, queue);
          FillAdd(open, v0, a0, q0, seed, size);
        } else {
          FillSkip(open, v0, area, q0, seed, size);
        }
      }
    }

    /** The region scan: a cleared visited grid, then a flood fill from every
        walkable cell not yet visited, in scan order. The regions found are
        pairwise disjoint, each connected and maximal, and together hold
        exactly the walkable cells. */
    method FindRegions() returns (areas: seq<set<Vector2Int>>)
      requires Valid()
      ensures Labelled(Open(), Open(), areas)
      ensures ScanOrdered(areas)
    {
      var visited := new bool[size.x, size.y]((x, y) => false);
      areas := [];
      ghost var seeds := [];
      for x := 0 to size.x
        invariant Scanned(Open(), CellsWhere(visited, true), areas, seeds, x, 0)
      {
        areas, seeds := ScanColumnRegions(x, visited, areas, seeds);
      }
      assert CellsWhere(visited, true) == Open();
      SeededOrdered(areas, seeds);
    }

    /** The inner loop of the region scan: every cell of column `x`, bottom
        to top. */
    method ScanColumnRegions(x: int, visited: array2<bool>, areas: seq<set<Vector2Int>>, ghost seeds: seq<Vector2Int>)
      returns (areas': seq<set<Vector2Int>>, ghost seeds': seq<Vector2Int>)
      requires Valid() && visited != walls && visited.Length0 == size.x && visited.Length1 == size.y
      requires 0 <= x < size.x && Scanned(Open(), CellsWhere(visited, true), areas, seeds, x, 0)
      modifies visited
      ensures Scanned(Open(), CellsWhere(visited, true), areas', seeds', x + 1, 0)
    {
      areas', seeds' := areas, seeds;
      for y := 0 to size.y
        invariant Scanned(Open(), CellsWhere(visited, true), areas', seeds', x, y)
      {
        areas', seeds' := ScanCell(x, y, visited, areas', seeds');
      }
      NextColumn(Open(), CellsWhere(visited, true), areas', seeds', x, size);
    }

    /** One cell of the region scan: a walkable cell not yet visited seeds a
        flood fill whose region is appended, with the cell as its seed. */
    method ScanCell(x: int, y: int, visited: array2<bool>, areas: seq<set<Vector2Int>>, ghost seeds: seq<Vector2Int>)
      returns (areas': seq<set<Vector2Int>>, ghost seeds': seq<Vector2Int>)
      requires Valid() && visited != walls && visited.Length0 == size.x && visited.Length1 == size.y
      requires 0 <= x < size.x && 0 <= y < size.y && Scanned(Open(), CellsWhere(visited, true), areas, seeds, x, y)
      modifies visited
      ensures Scanned(Open(), CellsWhere(visited, true), areas', seeds', x, y + 1)
    {
      var c := Vector2Int(x, y);
      areas', seeds' := areas, seeds;
      if !visited[c.x, c.y] && !walls[c.x, c.y] {
        ghost var done := CellsWhere(visited, true);
        var area := BasicFill(c, visited);
        AddRegion(Open(), done, areas, area, c);
        AddSeed(Open(), done, areas, seeds, area, c);
        areas', seeds' := areas + [area], seeds + [c];
      }
      ScanPast(Open(), CellsWhere(visited, true), areas', seeds', c);
    }

    /** The repair: the largest region becomes the root, the path search
        runs from a random cell of it over the whole grid (walls included, at
        step cost 2), and every other region is then either linked to the
        root by clearing the walls along the recorded predecessors from a
        random cell of it, or reported when that cell's predecessor is
        Vector2Int.zero. With no region at all the generator fails on
        areas.First(), and nothing changes. */
    method EnsureConnectivity(areas: seq<set<Vector2Int>>)
      returns (ok: bool, k: nat, reported: seq<Vector2Int>, ghost m: NodeMap, ghost start: Vector2Int,
               ghost sampled: seq<Vector2Int>)
      requires Valid() && Labelled(Open(), Open(), areas)
      modifies walls
      ensures ok <==> areas != []
      ensures !ok ==> Open() == old(Open()) && reported == []
      ensures old(Open()) <= Open()
      ensures ok ==> RootRepair(old(Open()), Open(), Cells(size), areas, k, reported, m, start, sampled)
      ensures |areas| <= 1 ==> Open() == old(Open())
      ensures ok && reported == [] ==> Connected(Open())
    {
      if areas == [] {
        return false, 0, [], map[], Zero, [];
      }
      ok := true;
      k := Largest(areas);
      reported, m, start, sampled := ConnectToRoot(areas, k);
    }

    /** The repair once the root `areas[k]` is chosen: the search from a
        random cell of it, then the repair loop over the other regions in
        order. */
    method ConnectToRoot(areas: seq<set<Vector2Int>>, k: nat)
      returns (reported: seq<Vector2Int>, ghost m: NodeMap, ghost start: Vector2Int, ghost sampled: seq<Vector2Int>)
      requires Valid() && Labelled(Open(), Open(), areas) && IsRoot(areas, k)
      modifies walls
      ensures RootRepair(old(Open()), Open(), Cells(size), areas, k, reported, m, start, sampled)
      ensures |areas| == 1 ==> Open() == old(Open())
      ensures reported == [] ==> Connected(Open())
    {
      var largest := areas[k];
      ghost var open0 := Open();
      var nodes;
      nodes, m, start := SearchFrom(largest);
      Others(open0, areas, k);
      RemoveFirstAt(areas, k);
      var rest := RemoveFirst(areas, largest);
      reported, sampled := ConnectAll(nodes, m, start, largest, rest);
      RootRepaired(open0, Open(), areas, k, rest, reported);
      if reported == [] {
        NothingReported(open0, Open(), largest, rest);
      }
    }

    /** The search of the repair: nodes for the current walls, and the
        predecessor tree grown from a random cell of the root. */
    method SearchFrom(largest: set<Vector2Int>) returns (nodes: array2<DijkstraNode>, ghost m: NodeMap, start: Vector2Int)
      requires Valid() && largest != {} && largest <= Open()
      ensures fresh(nodes) && Size(nodes) == size && m == Snapshot(nodes) && m.Keys == Cells(size)
      ensures start in largest && SearchTree(m, start)
      ensures forall c :: c in m ==> m[c].cost == StepCost(walls[c.x, c.y])
    {
      nodes := CreateNodes();
      start :| start in largest;
      BuildTree(nodes, start);
      m := Snapshot(nodes);
    }

    /** The repair loop: each region of `rest` in turn, from the first, is
        linked to the root or reported. `sampled` holds the random cell drawn
        from each region; the unreached ones are reported, and the walls
        cleared are exactly the chains of the others. */
    method ConnectAll(nodes: array2<DijkstraNode>, ghost m: NodeMap, ghost start: Vector2Int, largest: set<Vector2Int>,
                      rest: seq<set<Vector2Int>>) returns (reported: seq<Vector2Int>, ghost sampled: seq<Vector2Int>)
      requires Valid() && Size(nodes) == size && m == Snapshot(nodes) && SearchTree(m, start)
      requires start in largest && largest <= Open()
      requires forall i :: 0 <= i < |rest| ==> IsRegion(Open(), rest[i]) && rest[i] !! largest
      modifies walls
      ensures Sampled(sampled, rest)
      ensures reported == Unreached(m, sampled)
      ensures Open() == old(Open()) + Corridors(m, start, largest, sampled)
      ensures Repaired(old(Open()), Open(), largest, rest, |rest|, reported)
    {
      ghost var open0 := Open();
      reported, sampled := [], [];
      var areas := rest;
      ghost var j := 0;
      while areas != []
        invariant 0 <= j <= |rest| && areas == rest[j..] && Valid()
        invariant Looped(m, start, largest, open0, Open(), rest, j, sampled, reported)
      {
        var current := areas[0];
        assert current == rest[j] && IsRegion(open0, current);
        ghost var open1, r1 := Open(), reported;
        var unreached, position := ConnectRegion(nodes, m, start, largest, current);
        reported := reported + Report(unreached, position);
        LoopStep(m, start, largest, open0, open1, Open(), rest, j, sampled, r1, unreached, position);
        sampled := sampled + [position];
        areas := RemoveFirst(areas, current);
        j := j + 1;
      }
    }

    /** One cell per node, as the node constructor leaves it: step cost 2 for
        a wall and 1 for a walkable cell. */
    method CreateNodes() returns (nodes: array2<DijkstraNode>)
      requires Valid()
      ensures fresh(nodes) && Size(nodes) == size
      ensures forall x, y :: 0 <= x < size.x && 0 <= y < size.y ==> nodes[x, y] == NewNode(StepCost(walls[x, y]))
    {
      nodes := new DijkstraNode[size.x, size.y];
      for x := 0 to size.x
        invariant forall i, j :: 0 <= i < x && 0 <= j < size.y ==> nodes[i, j] == NewNode(StepCost(walls[i, j]))
      {
        for y := 0 to size.y
          invariant forall i, j :: 0 <= i < x && 0 <= j < size.y ==> nodes[i, j] == NewNode(StepCost(walls[i, j]))
          invariant forall j :: 0 <= j < y ==> nodes[x, j] == NewNode(StepCost(walls[x, j]))
        {
          nodes[x, y] := NewNode(StepCost(walls[x, y]));
        }
      }
    }

    /** One pass of the repair loop for a region other than the root: a
        random cell of it whose predecessor is Vector2Int.zero is reported
        and nothing changes; otherwise the corridor walk from that cell clears
        exactly its chain and links the whole region to the root. */
    method ConnectRegion(nodes: array2<DijkstraNode>, ghost m: NodeMap, ghost start: Vector2Int, largest: set<Vector2Int>,
                         current: set<Vector2Int>) returns (unreached: bool, position: Vector2Int)
      requires Valid() && Size(nodes) == size && m == Snapshot(nodes) && SearchTree(m, start)
      requires start in largest && largest <= Open()
      requires current != {} && current <= Open() && Connected(current) && current !! largest
      modifies walls
      ensures position in current && position in m && (unreached <==> IsUnreached(m, position))
      ensures unreached ==> Adjacent(Zero, position) && Open() == old(Open())
      ensures !unreached ==> Open() == old(Open()) + Chain(m, start, largest, position)
      ensures !unreached ==> AllLinked(Open(), current, largest)
      ensures Grown(old(Open()), Open(), largest)
    {
      position :| position in current;
      var node := nodes[position.x, position.y];
      unreached := node.nearestToStart == Zero;
      if unreached {
        assert PredOk(m, position);
      } else {
        WalkToRoot(walls, nodes, m, start, largest, position);
        RegionLinked(Open(), current, position, largest);
      }
    }

    /** The neighbour step of the flood fill: appends, in the order left,
        down, right, up, every in-bounds walkable neighbour of `position` not
        yet in `area`. */
    method EnqueueNeighbours(position: Vector2Int, area: set<Vector2Int>, queue: seq<Vector2Int>)
      returns (queue': seq<Vector2Int>)
      requires Valid() && InBounds(position, size)
      ensures queue' == queue + Appended(Open(), area, position, size)
    {
      var left := Vector2Int(position.x - 1, position.y);
      var down := Vector2Int(position.x, position.y - 1);
      var right := Vector2Int(position.x + 1, position.y);
      var up := Vector2Int(position.x, position.y + 1);
      queue' := EnqueueIfOpen(left, position.x > 0, area, queue);
      queue' := EnqueueIfOpen(down, position.y > 0, area, queue');
      queue' := EnqueueIfOpen(right, position.x < size.x - 1, area, queue');
      queue' := EnqueueIfOpen(up, position.y < size.y - 1, area, queue');
      AppendFour(queue, Pending(Open(), area, left, position.x > 0), Pending(Open(), area, down, position.y > 0),
                 Pending(Open(), area, right, position.x < size.x - 1), Pending(Open(), area, up, position.y < size.y - 1));
    }

    /** One neighbour of the flood fill's step: enqueued when its bounds test
        passes, it is not a wall and it is not yet in the area. */
    function EnqueueIfOpen(n: Vector2Int, inBounds: bool, area: set<Vector2Int>, queue: seq<Vector2Int>): (queue': seq<Vector2Int>)
      reads this, walls
      requires Valid() && (inBounds ==> InBounds(n, size))
      ensures queue' == queue + Pending(Open(), area, n, inBounds)
    {
      if inBounds && !walls[n.x, n.y] && n !in area then queue + [n] else queue
    }
  }

  /** The world positions the agents stand at, in placement order. */
  function Positions(agents: seq<Agent>): (ps: seq<Vector2Int>)
    ensures |ps| == |agents| && forall i :: 0 <= i < |agents| ==> ps[i] == agents[i].position
  {
    seq(|agents|, i requires 0 <= i < |agents| => agents[i].position)
  }

  lemma PositionsAppend(agents: seq<Agent>, a: Agent)
    ensures Positions(agents + [a]) == Positions(agents) + [a.position]
  {
  }

  /** Agents placed from a list without duplicates stand on distinct
      positions. */
  lemma PlacedDistinct(agents: seq<Agent>, spawn0: seq<Vector2Int>, spawn: seq<Vector2Int>)
    requires multiset(Positions(agents)) + multiset(spawn) == multiset(spawn0)
    ensures Distinct(spawn0) ==> Distinct(Positions(agents))
  {
    if Distinct(spawn0) {
      SubDistinct(Positions(agents), spawn0);
    }
  }

  /** The number of loop passes `for (i = 0; i < n; i++)` makes. */
  function Clamp(n: int): (r: nat)
    ensures n >= 0 ==> r == n
    ensures n < 0 ==> r == 0
  {
    if n < 0 then 0 else n
  }

  /** The loop of the agent placement over a spawn list and a drawn count. */
  method DrawAgents(spawn: seq<Vector2Int>, count: int) returns (placed: bool, agents: seq<Agent>, rest: seq<Vector2Int>)
    ensures placed <==> count <= |spawn|
    ensures |agents| == if placed then Clamp(count) else |spawn|
    ensures forall i :: 0 <= i < |agents| ==> agents[i].teamId == i
    ensures multiset(Positions(agents)) + multiset(rest) == multiset(spawn)
    ensures Distinct(spawn) ==> Distinct(Positions(agents))
  {
    agents, rest := [], spawn;
    var i := 0;
    while i < count
      invariant 0 <= i <= Clamp(count) && i <= |spawn|
      invariant |agents| == i && |rest| == |spawn| - i
      invariant forall j :: 0 <= j < i ==> agents[j].teamId == j
      invariant multiset(Positions(agents)) + multiset(rest) == multiset(spawn)
    {
      var index := RandomRange(0, |rest|);
      if index >= |rest| {
        placed := false;
        PlacedDistinct(agents, spawn, rest);
        return;
      }
      var position := rest[index];
      RemoveFirstMultiset(rest, position);
      PositionsAppend(agents, Agent(position, i));
      agents := agents + [Agent(position, i)];
      rest := RemoveFirst(rest, position);
      i := i + 1;
    }
    placed := true;
    PlacedDistinct(agents, spawn, rest);
  }

  /** The interior scan of the spawn step over the wall array: the world
      positions of the walkable cells and of the walls, in scan order. */
  method SplitCells(walls: array2<bool>) returns (spawns: seq<Vector2Int>, blocks: seq<Vector2Int>)
    ensures spawns == WorldPositions(Scan(walls, false))
    ensures blocks == WorldPositions(Scan(walls, true))
  {
    spawns, blocks := [], [];
    for x := 0 to walls.Length0
      invariant spawns == WorldPositions(ScanRows(walls, false, x))
      invariant blocks == WorldPositions(ScanRows(walls, true, x))
    {
      for y := 0 to walls.Length1
        invariant spawns == WorldPositions(ScanRows(walls, false, x) + ScanColumn(walls, false, x, y))
        invariant blocks == WorldPositions(ScanRows(walls, true, x) + ScanColumn(walls, true, x, y))
      {
        var c := Vector2Int(x, y);
        WorldPositionsAppend(ScanRows(walls, false, x) + ScanColumn(walls, false, x, y), [c]);
        WorldPositionsAppend(ScanRows(walls, true, x) + ScanColumn(walls, true, x, y), [c]);
        if walls[x, y] == false {
          spawns := spawns + [WorldPos(c)];
        } else {
          blocks := blocks + [WorldPos(c)];
        }
      }
    }
  }

  /** The wall draw: a fresh grid of the sampled size in which cell (x, y)
      is a wall exactly when its draw `roll(x, y)` of Random.value is below
      the density. */
  method DrawWalls(size: Vector2Int, roll: (int, int) -> real, density: real) returns (walls: array2<bool>)
    requires 0 <= size.x && 0 <= size.y
    ensures fresh(walls) && walls.Length0 == size.x && walls.Length1 == size.y
    ensures forall x, y :: 0 <= x < size.x && 0 <= y < size.y ==> walls[x, y] == (roll(x, y) < density)
    ensures CellsWhere(walls, false) == {} <==> AllWalls(roll, size, density)
    ensures Survivors(roll, size, density, CellsWhere(walls, false))
  {
    walls := new bool[size.x, size.y];
    for x := 0 to size.x
      invariant forall i, j :: 0 <= i < x && 0 <= j < size.y ==> walls[i, j] == (roll(i, j) < density)
    {
      for y := 0 to size.y
        invariant forall i, j :: 0 <= i < x && 0 <= j < size.y ==> walls[i, j] == (roll(i, j) < density)
        invariant forall j :: 0 <= j < y ==> walls[x, j] == (roll(x, j) < density)
      {
        walls[x, y] := roll(x, y) < density;
      }
    }
    DrawnWalls(walls, roll, density);
  }

  /** The border walls: for x = 1 .. size.x the bottom and the top cell,
      then for x = 0 and x = size.x + 1 the whole column, each loop stepping
      over the interior in one stride. */
  method BorderBlocks(size: Vector2Int) returns (blocks: seq<Vector2Int>)
    requires 0 <= size.x && 0 <= size.y
    ensures blocks == BlockPositions(Border(size))
  {
    blocks := RowBlocks(size);
    blocks := ColumnBlocks(size, blocks);
  }

  /** The first border loop: for each x = 1 .. size.x, the stride over y
      places the bottom cell and the top cell of column x. */
  method RowBlocks(size: Vector2Int) returns (blocks: seq<Vector2Int>)
    requires 0 <= size.x && 0 <= size.y
    ensures blocks == BlockPositions(RowPairs(size, size.x))
  {
    blocks := [];
    for x := 1 to size.x + 1
      invariant blocks == BlockPositions(RowPairs(size, x - 1))
    {
      var y := 0;
      while y < size.y + 2
        invariant y == 0 || y == size.y + 1 || y == 2 * size.y + 2
        invariant y == 0 ==> blocks == BlockPositions(RowPairs(size, x - 1))
        invariant y == size.y + 1 ==> blocks == BlockPositions(RowPairs(size, x - 1)) + [Scaled(Vector2Int(x, 0))]
        invariant y == 2 * size.y + 2 ==> blocks == BlockPositions(RowPairs(size, x))
        decreases size.y + 2 - y
      {
        if y != 0 {
          BlockPositionsAppend(RowPairs(size, x - 1), [Vector2Int(x, 0), Vector2Int(x, size.y + 1)]);
        }
        blocks := blocks + [Scaled(Vector2Int(x, y))];
        y := y + size.y + 1;
      }
    }
  }

  /** The second border loop: x strides from 0 to size.x + 1, and each of
      the two columns is placed whole, bottom to top. */
  method ColumnBlocks(size: Vector2Int, rows: seq<Vector2Int>) returns (blocks: seq<Vector2Int>)
    requires 0 <= size.x && 0 <= size.y
    ensures blocks == rows + BlockPositions(Column(0, size.y + 2) + Column(size.x + 1, size.y + 2))
  {
    blocks := rows;
    var x := 0;
    while x < size.x + 2
      invariant x == 0 || x == size.x + 1 || x == 2 * size.x + 2
      invariant x == 0 ==> blocks == rows
      invariant x == size.x + 1 ==> blocks == rows + BlockPositions(Column(0, size.y + 2))
      invariant x == 2 * size.x + 2 ==> blocks == rows + BlockPositions(Column(0, size.y + 2) + Column(size.x + 1, size.y + 2))
      decreases size.x + 2 - x
    {
      var column := ColumnOf(x, size.y + 2);
      if x != 0 {
        BlockPositionsAppend(Column(0, size.y + 2), Column(size.x + 1, size.y + 2));
      }
      blocks := blocks + column;
      x := x + size.x + 1;
    }
  }

  /** The inner loop of the second border loop: column x, bottom to top. */
  method ColumnOf(x: int, h: nat) returns (blocks: seq<Vector2Int>)
    ensures blocks == BlockPositions(Column(x, h))
  {
    blocks := [];
    for y := 0 to h
      invariant blocks == BlockPositions(Column(x, y))
    {
      BlockPositionsAppend(Column(x, y), [Vector2Int(x, y)]);
      blocks := blocks + [Scaled(Vector2Int(x, y))];
    }
  }

  /** Every interior cell drew a wall. */
  ghost predicate AllWalls(roll: (int, int) -> real, size: Vector2Int, density: real)
  {
    forall x, y :: 0 <= x < size.x && 0 <= y < size.y ==> roll(x, y) < density
  }

  /** The walkable cells `open` are exactly the interior cells that drew no
      wall. */
  ghost predicate Survivors(roll: (int, int) -> real, size: Vector2Int, density: real, open: set<Vector2Int>)
  {
    forall c :: c in open <==> InBounds(c, size) && density <= roll(c.x, c.y)
  }

  /** The region scan finds no region exactly when no cell is walkable. */
  lemma NoRegionIffNoCell(open: set<Vector2Int>, areas: seq<set<Vector2Int>>)
    requires Labelled(open, open, areas)
    ensures areas == [] <==> open == {}
  {
    if areas != [] {
      assert IsRegion(open, areas[0]);
    }
  }

  /** A wall grid drawn from `roll`: it has no walkable cell exactly when
      every draw fell below the density, and every cell whose draw did not is
      walkable. */
  lemma DrawnWalls(walls: array2<bool>, roll: (int, int) -> real, density: real)
    requires forall x, y :: 0 <= x < walls.Length0 && 0 <= y < walls.Length1 ==> walls[x, y] == (roll(x, y) < density)
    ensures CellsWhere(walls, false) == {} <==> AllWalls(roll, Vector2Int(walls.Length0, walls.Length1), density)
    ensures Survivors(roll, Vector2Int(walls.Length0, walls.Length1), density, CellsWhere(walls, false))
  {
    var open := CellsWhere(walls, false);
    if open == {} {
      forall x, y | 0 <= x < walls.Length0 && 0 <= y < walls.Length1
        ensures roll(x, y) < density
      {
        assert Vector2Int(x, y) !in open;
      }
    }
  }

  lemma UnionAddAssoc<T>(a: set<T>, b: set<T>, x: T)
    ensures (a + b) + {x} == a + (b + {x})
  {
  }

  /** Sets one cell of a boolean grid to `v`, seen on the set of cells
      holding `v` (marking a cell visited, or clearing a wall). */
  method SetCell(a: array2<bool>, c: Vector2Int, v: bool)
    requires InBounds(c, Vector2Int(a.Length0, a.Length1))
    modifies a
    ensures CellsWhere(a, v) == old(CellsWhere(a, v)) + {c}
  {
    a[c.x, c.y] := v;
  }

  /** The neighbour `n` as the flood fill enqueues it: when its bounds test
      passes, it is walkable and it is not yet in the area. */
  function Pending(open: set<Vector2Int>, area: set<Vector2Int>, n: Vector2Int, inBounds: bool): seq<Vector2Int>
  {
    if inBounds && n in open && n !in area then [n] else []
  }

  /** What the four enqueue steps of the flood fill append, in order. */
  function Appended(open: set<Vector2Int>, area: set<Vector2Int>, p: Vector2Int, size: Vector2Int): seq<Vector2Int>
  {
    Pending(open, area, Vector2Int(p.x - 1, p.y), p.x > 0) +
    Pending(open, area, Vector2Int(p.x, p.y - 1), p.y > 0) +
    Pending(open, area, Vector2Int(p.x + 1, p.y), p.x < size.x - 1) +
    Pending(open, area, Vector2Int(p.x, p.y + 1), p.y < size.y - 1)
  }

  /** The four enqueue steps append exactly the walkable neighbours not yet in
      the area. */
  lemma AppendedNeighbours(open: set<Vector2Int>, area: set<Vector2Int>, p: Vector2Int, size: Vector2Int)
    requires open <= Cells(size)
    ensures forall x :: x in Appended(open, area, p, size) ==> x in open && x !in area && Adjacent(p, x)
    ensures forall d :: d in open && Adjacent(p, d) && d !in area ==> d in Appended(open, area, p, size)
  {
    forall d | d in open && Adjacent(p, d) && d !in area
      ensures d in Appended(open, area, p, size)
    {
      assert InBounds(d, size);
    }
  }

  /** The flood fill's loop invariant: the queue holds in-bounds cells next
      to the area (or just the seed, before the first step); the area holds
      walkable cells not visited before, all reachable from the seed inside
      it; and every walkable neighbour of the area is in it, waiting in the
      queue, or visited before. */
  ghost predicate FillInv(open: set<Vector2Int>, v0: set<Vector2Int>, area: set<Vector2Int>,
                          queue: seq<Vector2Int>, seed: Vector2Int, size: Vector2Int)
  {
    (forall i :: 0 <= i < |queue| ==> InBounds(queue[i], size)) &&
    seed in open - v0 && area <= open - v0 && area <= Cells(size) &&
    (area == {} ==> queue == [seed]) &&
    (area != {} ==> seed in area) &&
    (forall c :: c in area ==> Reaches(area, seed, c)) &&
    (forall i :: 0 <= i < |queue| && area != {} ==> Touches(area, queue[i])) &&
    (forall c, d :: c in area && d in open && Adjacent(c, d) ==> d in area || d in queue || d in v0)
  }

  /** A dequeued cell that is a wall, already in the area or visited before
      is dropped without breaking the invariant. */
  lemma FillSkip(open: set<Vector2Int>, v0: set<Vector2Int>, area: set<Vector2Int>,
                 queue: seq<Vector2Int>, seed: Vector2Int, size: Vector2Int)
    requires FillInv(open, v0, area, queue, seed, size) && queue != [] && area != {}
    requires queue[0] !in open || queue[0] in area || queue[0] in v0
    ensures FillInv(open, v0, area, queue[1..], seed, size)
  {
    forall c, d | c in area && d in open && Adjacent(c, d)
      ensures d in area || d in queue[1..] || d in v0
    {
      if d in queue && d !in queue[1..] {
        assert d == queue[0];
      }
    }
  }

  /** A dequeued cell that joins the area, followed by its enqueued
      neighbours, keeps the invariant. */
  lemma FillAdd(open: set<Vector2Int>, v0: set<Vector2Int>, area: set<Vector2Int>,
                queue: seq<Vector2Int>, seed: Vector2Int, size: Vector2Int)
    requires FillInv(open, v0, area, queue, seed, size) && queue != []
    requires queue[0] in open && queue[0] !in area && queue[0] !in v0
    requires open <= Cells(size)
    ensures FillInv(open, v0, area + {queue[0]}, queue[1..] + Appended(open, area + {queue[0]}, queue[0], size), seed, size)
  {
    var p, area' := queue[0], area + {queue[0]};
    var added := Appended(open, area', p, size);
    AppendedNeighbours(open, area', p, size);
    FillGrows(area, area', seed, p);
    FillAddQueue(open, area, queue, size, added);
    FillAddClosed(open, v0, area, queue, added);
  }

  /** After the step the queue still holds in-bounds neighbours of the area. */
  lemma FillAddQueue(open: set<Vector2Int>, area: set<Vector2Int>, queue: seq<Vector2Int>,
                     size: Vector2Int, added: seq<Vector2Int>)
    requires queue != [] && open <= Cells(size) && (area == {} ==> |queue| == 1)
    requires forall i :: 0 <= i < |queue| ==> InBounds(queue[i], size)
    requires forall i :: 0 <= i < |queue| && area != {} ==> Touches(area, queue[i])
    requires forall x :: x in added ==> x in open && Adjacent(queue[0], x)
    ensures var q' := queue[1..] + added; var area' := area + {queue[0]};
      forall i :: 0 <= i < |q'| ==> InBounds(q'[i], size) && Touches(area', q'[i])
  {
    var p, area' := queue[0], area + {queue[0]};
    var q' := queue[1..] + added;
    forall i | 0 <= i < |q'|
      ensures InBounds(q'[i], size) && Touches(area', q'[i])
    {
      if i < |queue| - 1 {
        assert q'[i] == queue[i + 1];
        var c :| c in area && Adjacent(c, queue[i + 1]);
        assert c in area';
      } else {
        assert q'[i] == added[i - |queue| + 1];
        assert p in area';
      }
    }
  }

  /** After the step every walkable neighbour of the area is in it, queued,
      or visited before. */
  lemma FillAddClosed(open: set<Vector2Int>, v0: set<Vector2Int>, area: set<Vector2Int>,
                      queue: seq<Vector2Int>, added: seq<Vector2Int>)
    requires queue != []
    requires forall c, d :: c in area && d in open && Adjacent(c, d) ==> d in area || d in queue || d in v0
    requires forall d :: d in open && Adjacent(queue[0], d) && d !in area + {queue[0]} ==> d in added
    ensures forall c, d :: c in area + {queue[0]} && d in open && Adjacent(c, d) ==>
      d in area + {queue[0]} || d in queue[1..] + added || d in v0
  {
    var p, area' := queue[0], area + {queue[0]};
    var q' := queue[1..] + added;
    forall c, d | c in area' && d in open && Adjacent(c, d)
      ensures d in area' || d in q' || d in v0
    {
      if c == p {
        if d !in area' {
          assert d in added;
        }
      } else if d !in area' && d !in v0 {
        assert d in queue && d != p;
        var i :| 0 <= i < |queue| && queue[i] == d;
        assert q'[i - 1] == d;
      }
    }
  }

  /** The corridor walk of the repair: from `c`, follow the recorded
      predecessors of the search tree until a cell of the root region,
      clearing the wall of every cell passed on the way. Exactly the chain of
      `c` becomes walkable, and afterwards `c` and every cleared cell reach
      the root through walkable cells. The walk ends because each step
      lowers the recorded cost, down to the start, which lies in the root. */
  method WalkToRoot(walls: array2<bool>, nodes: array2<DijkstraNode>, ghost m: NodeMap, ghost start: Vector2Int,
                    largest: set<Vector2Int>, c: Vector2Int)
    requires Size(nodes) == Vector2Int(walls.Length0, walls.Length1) && m == Snapshot(nodes) && SearchTree(m, start)
    requires start in largest && largest <= CellsWhere(walls, false)
    requires c in CellsWhere(walls, false) && c !in largest
    modifies walls
    ensures Corridor(old(CellsWhere(walls, false)), CellsWhere(walls, false), Chain(m, start, largest, c), largest, c)
  {
    ghost var open0 := CellsWhere(walls, false);
    ghost var path, cleared := [c], {};
    var position := c;
    var node := nodes[c.x, c.y];
    while true
      invariant Walking(m, start, largest, open0, c, position, path, cleared)
      invariant node == m[position] && CellsWhere(walls, false) == open0 + cleared
      decreases node.minCostToStart
    {
      WalkStep(m, start, largest, open0, c, position, path, cleared);
      position := node.nearestToStart;
      node := nodes[position.x, position.y];
      if position in largest {
        path := path + [position];
        break;
      }
      SetCell(walls, position, false);
      path, cleared := path + [position], cleared + {position};
    }
    WalkLinked(open0, cleared, path, largest);
  }

  /** The state of the corridor walk from `c` over the search tree `m`: it
      stands on `position`, outside the root, having cleared the cells
      `cleared` along `path`; what is left to clear is the chain of
      `position`. */
  ghost predicate Walking(m: NodeMap, start: Vector2Int, root: set<Vector2Int>, open0: set<Vector2Int>,
                          c: Vector2Int, position: Vector2Int, path: seq<Vector2Int>, cleared: set<Vector2Int>)
  {
    SearchTree(m, start) && start in root && root <= open0 &&
    position in m && position !in root && cleared !! root &&
    IsPath(open0 + cleared, path) && path[0] == c && path[|path| - 1] == position &&
    (forall d :: d in cleared ==> d in path) &&
    Chain(m, start, root, c) == cleared + Chain(m, start, root, position)
  }

  /** One step of the corridor walk: the predecessor of `position` has a
      lower recorded cost; when it lies in the root the walk has cleared the
      whole chain of `c`, otherwise the walk goes on from it, with it cleared. */
  lemma WalkStep(m: NodeMap, start: Vector2Int, root: set<Vector2Int>, open0: set<Vector2Int>,
                 c: Vector2Int, position: Vector2Int, path: seq<Vector2Int>, cleared: set<Vector2Int>)
    requires Walking(m, start, root, open0, c, position, path, cleared)
    ensures m[position].nearestToStart in m
    ensures var p := m[position].nearestToStart;
      0 <= m[p].minCostToStart < m[position].minCostToStart &&
      (forall d :: d in cleared ==> d in path + [p]) &&
      (p in root ==> IsPath(open0 + cleared, path + [p]) && Chain(m, start, root, c) == cleared) &&
      (p !in root ==> Walking(m, start, root, open0, c, p, path + [p], cleared + {p}) &&
                      (open0 + cleared) + {p} == open0 + (cleared + {p}))
  {
    assert PredOk(m, position);
    var p := m[position].nearestToStart;
    if p in root {
      PathGrow(open0 + cleared, open0 + cleared, path, p);
    } else {
      PathGrow(open0 + cleared, open0 + (cleared + {p}), path, p);
    }
  }

  /** The outcome of a corridor walk from `c` that clears `chain`: exactly
      those cells become walkable, each of them is linked to the root, and
      so is `c`. */
  ghost predicate Corridor(open0: set<Vector2Int>, open: set<Vector2Int>, chain: set<Vector2Int>,
                           root: set<Vector2Int>, c: Vector2Int)
  {
    open == open0 + chain && Grown(open0, open, root) && Linked(open, c, root)
  }

  /** A walk that ends in the root links its first cell to the root, and
      grows the walkable cells by cells that are all linked to it. */
  lemma WalkLinked(open0: set<Vector2Int>, cleared: set<Vector2Int>, path: seq<Vector2Int>, root: set<Vector2Int>)
    requires IsPath(open0 + cleared, path) && path[|path| - 1] in root
    requires cleared !! root && forall d :: d in cleared ==> d in path
    ensures Corridor(open0, open0 + cleared, cleared, root, path[0])
  {
    var open := open0 + cleared;
    PathLinked(open, path, root);
    forall d | d in open - open0
      ensures d !in root && Linked(open, d, root)
    {
      var i :| 0 <= i < |path| && path[i] == d;
    }
  }

  /** The step cost of a cell in the repair search. */
  function StepCost(wall: bool): (cost: int)
    ensures cost >= 1 && (wall <==> cost == 2)
  {
    if wall then 2 else 1
  }

  /** A region the repair loop has dealt with: linked to the root, or holding
      a cell reported as unconnectable. */
  ghost predicate Handled(open: set<Vector2Int>, r: set<Vector2Int>, root: set<Vector2Int>, reported: seq<Vector2Int>)
  {
    AllLinked(open, r, root) || exists i :: 0 <= i < |reported| && reported[i] in r
  }

  lemma HandledMono(open: set<Vector2Int>, open': set<Vector2Int>, r: set<Vector2Int>, root: set<Vector2Int>,
                    reported: seq<Vector2Int>, reported': seq<Vector2Int>)
    requires open <= open' && |reported| <= |reported'| && reported'[..|reported|] == reported
    requires Handled(open, r, root, reported)
    ensures Handled(open', r, root, reported')
  {
    if AllLinked(open, r, root) {
      AllLinkedMono(open, open', r, root);
    } else {
      var i :| 0 <= i < |reported| && reported[i] in r;
      assert reported'[i] == reported[i];
    }
  }

  /** What one pass of the repair loop logs: the sampled cell, when it was
      found unreached. */
  function Report(unreached: bool, position: Vector2Int): (r: seq<Vector2Int>)
    ensures unreached <==> r != []
    ensures forall w :: w in r ==> w == position
  {
    if unreached then [position] else []
  }

  /** Whether the repair finds `c` unreached: its recorded predecessor is
      Vector2Int.zero. */
  predicate IsUnreached(m: NodeMap, c: Vector2Int)
  {
    c in m && m[c].nearestToStart == Zero
  }

  /** What the repair loop logs for the cells it sampled, one per region,
      in order: the unreached ones. */
  function Unreached(m: NodeMap, sampled: seq<Vector2Int>): seq<Vector2Int>
  {
    if sampled == [] then []
    else
      var c := sampled[|sampled| - 1];
      Unreached(m, sampled[..|sampled| - 1]) + Report(IsUnreached(m, c), c)
  }

  /** The walls the repair loop clears for the cells it sampled: the chain
      of every sampled cell that is not unreached. */
  ghost function Corridors(m: NodeMap, start: Vector2Int, root: set<Vector2Int>, sampled: seq<Vector2Int>): set<Vector2Int>
    requires SearchTree(m, start) && start in root
  {
    if sampled == [] then {}
    else
      var c := sampled[|sampled| - 1];
      Corridors(m, start, root, sampled[..|sampled| - 1]) + if IsUnreached(m, c) then {} else Chain(m, start, root, c)
  }

  /** What the repair does once the root `areas[k]` is chosen: the search
      tree `m` covers `cells`, weighs each cell 1 when it was walkable and 2
      when it was a wall, and grows from `start` in the root; `sampled`
      holds one cell of every other region, in order; the unreached ones are
      reported and the walls cleared are exactly the chains of the others;
      and every region is then linked to the root or reported. */
  ghost predicate RootRepair(open0: set<Vector2Int>, open: set<Vector2Int>, cells: set<Vector2Int>,
                             areas: seq<set<Vector2Int>>, k: int, reported: seq<Vector2Int>,
                             m: NodeMap, start: Vector2Int, sampled: seq<Vector2Int>)
  {
    IsRoot(areas, k) && m.Keys == cells && SearchTree(m, start) && start in areas[k] &&
    (forall c :: c in m ==> m[c].cost == if c in open0 then 1 else 2) &&
    Sampled(sampled, areas[..k] + areas[k + 1..]) &&
    reported == Unreached(m, sampled) && open == open0 + Corridors(m, start, areas[k], sampled) &&
    Repaired(open0, open, areas[k], areas, |areas|, reported)
  }

  /** What the region scan and the repair leave behind on the walkable cells
      `open0`: the regions in scan order and, when there is one, the root
      repair that takes `open0` to `open`. */
  ghost predicate RepairOutcome(open0: set<Vector2Int>, open: set<Vector2Int>, cells: set<Vector2Int>,
                                areas: seq<set<Vector2Int>>, k: int, reported: seq<Vector2Int>,
                                m: NodeMap, start: Vector2Int, sampled: seq<Vector2Int>)
  {
    Labelled(open0, open0, areas) && ScanOrdered(areas) &&
    (open0 != {} ==> RootRepair(open0, open, cells, areas, k, reported, m, start, sampled))
  }

  /** Every cell the repair reports was walkable before it and lies next
      to Vector2Int.zero. */
  lemma ReportsWalkable(open0: set<Vector2Int>, open: set<Vector2Int>, cells: set<Vector2Int>,
                        areas: seq<set<Vector2Int>>, k: int, reported: seq<Vector2Int>,
                        m: NodeMap, start: Vector2Int, sampled: seq<Vector2Int>)
    requires RootRepair(open0, open, cells, areas, k, reported, m, start, sampled)
    ensures forall i :: 0 <= i < |reported| ==> reported[i] in open0 && Adjacent(Zero, reported[i])
  {
    assert Unconnectable(reported, open0, areas[k]);
  }

  /** `sampled` holds one cell of each region of `rs`, in order. */
  ghost predicate Sampled(sampled: seq<Vector2Int>, rs: seq<set<Vector2Int>>)
  {
    |sampled| == |rs| && forall i :: 0 <= i < |rs| ==> sampled[i] in rs[i]
  }

  /** The state of the repair loop after the first `j` regions of `rest`,
      with one cell sampled from each: the report is the unreached sampled
      cells, the walls cleared are the chains of the others, and the regions
      handled so far are linked or reported. */
  ghost predicate Looped(m: NodeMap, start: Vector2Int, root: set<Vector2Int>, open0: set<Vector2Int>,
                         open: set<Vector2Int>, rest: seq<set<Vector2Int>>, j: nat, sampled: seq<Vector2Int>,
                         reported: seq<Vector2Int>)
  {
    SearchTree(m, start) && start in root && j <= |rest| &&
    Sampled(sampled, rest[..j]) &&
    reported == Unreached(m, sampled) && open == open0 + Corridors(m, start, root, sampled) &&
    Repaired(open0, open, root, rest, j, reported)
  }

  /** One pass of the repair loop: the region `rest[j]` is linked or its
      sampled cell reported, and the loop state moves on by one region. */
  lemma LoopStep(m: NodeMap, start: Vector2Int, root: set<Vector2Int>, open0: set<Vector2Int>,
                 open1: set<Vector2Int>, open2: set<Vector2Int>, rest: seq<set<Vector2Int>>, j: nat,
                 sampled: seq<Vector2Int>, reported: seq<Vector2Int>, unreached: bool, position: Vector2Int)
    requires Looped(m, start, root, open0, open1, rest, j, sampled, reported)
    requires j < |rest| && rest[j] <= open0 && rest[j] !! root && Grown(open1, open2, root)
    requires position in rest[j] && (unreached <==> IsUnreached(m, position))
    requires unreached ==> Adjacent(Zero, position) && open2 == open1
    requires !unreached ==> open2 == open1 + Chain(m, start, root, position) && AllLinked(open2, rest[j], root)
    ensures Looped(m, start, root, open0, open2, rest, j + 1, sampled + [position], reported + Report(unreached, position))
  {
    RepairedStep(open0, open1, open2, root, rest, j, unreached, position, reported);
    var sampled' := sampled + [position];
    assert sampled'[..|sampled|] == sampled;
    forall i | 0 <= i < j + 1
      ensures sampled'[i] in rest[..j + 1][i]
    {
      if i < j {
        assert sampled[i] in rest[..j][i];
      }
    }
    assert Unreached(m, sampled') == reported + Report(unreached, position);
    assert open2 == open0 + Corridors(m, start, root, sampled');
  }

  /** The cells reported as unconnectable: walkable cells outside the root,
      each next to Vector2Int.zero. */
  ghost predicate Unconnectable(reported: seq<Vector2Int>, open: set<Vector2Int>, root: set<Vector2Int>)
  {
    forall i :: 0 <= i < |reported| ==> reported[i] in open - root && Adjacent(Zero, reported[i])
  }

  /** The state of the repair loop after the first `j` regions of `rs`: the
      walkable cells grew from `open0` to `open` by cells linked to the root,
      each of those regions is handled, and every report is an unconnectable
      cell. */
  ghost predicate Repaired(open0: set<Vector2Int>, open: set<Vector2Int>, root: set<Vector2Int>,
                           rs: seq<set<Vector2Int>>, j: int, reported: seq<Vector2Int>)
  {
    Grown(open0, open, root) && Unconnectable(reported, open0, root) &&
    forall i :: 0 <= i < j && i < |rs| ==> Handled(open, rs[i], root, reported)
  }

  /** A repair that reported nothing linked every other region to the
      root, so the walkable cells are connected. */
  lemma NothingReported(open0: set<Vector2Int>, open: set<Vector2Int>, root: set<Vector2Int>,
                        others: seq<set<Vector2Int>>)
    requires root <= open0 && Connected(root) && open0 == root + Union(others)
    requires Repaired(open0, open, root, others, |others|, [])
    ensures Connected(open)
  {
    forall i | 0 <= i < |others|
      ensures AllLinked(open, others[i], root)
    {
      assert Handled(open, others[i], root, []);
    }
    RepairedConnected(open0, open, root, others);
  }

  /** The other regions handled, the root is too: every region is. */
  lemma RootRepaired(open0: set<Vector2Int>, open: set<Vector2Int>, rs: seq<set<Vector2Int>>, k: nat,
                     others: seq<set<Vector2Int>>, reported: seq<Vector2Int>)
    requires k < |rs| && others == rs[..k] + rs[k + 1..] && rs[k] <= open0
    requires Repaired(open0, open, rs[k], others, |others|, reported)
    ensures Repaired(open0, open, rs[k], rs, |rs|, reported)
  {
    forall i | 0 <= i < |rs|
      ensures Handled(open, rs[i], rs[k], reported)
    {
      if i < k {
        assert others[i] == rs[i];
      } else if i > k {
        assert others[i - 1] == rs[i];
      } else {
        forall c | c in rs[k]
          ensures Linked(open, c, rs[k])
        {
          ReachesRefl(open, c);
        }
      }
    }
  }

  /** One pass of the repair loop keeps the loop's state. */
  lemma RepairedStep(open0: set<Vector2Int>, open1: set<Vector2Int>, open2: set<Vector2Int>, root: set<Vector2Int>,
                     rs: seq<set<Vector2Int>>, j: nat, unreached: bool, position: Vector2Int, before: seq<Vector2Int>)
    requires j < |rs| && rs[j] <= open0 && rs[j] !! root
    requires Repaired(open0, open1, root, rs, j, before) && Grown(open1, open2, root)
    requires position in rs[j] && (unreached ==> Adjacent(Zero, position))
    requires !unreached ==> AllLinked(open2, rs[j], root)
    ensures Repaired(open0, open2, root, rs, j + 1, before + Report(unreached, position))
  {
    var after := before + Report(unreached, position);
    GrownTrans(open0, open1, open2, root);
    forall i | 0 <= i < j
      ensures Handled(open2, rs[i], root, after)
    {
      HandledMono(open1, open2, rs[i], root, before, after);
    }
    if unreached {
      assert after[|before|] == position;
    }
  }

  /** The regions found so far label the visited cells, every walkable cell
      before (x, y) in scan order is visited, and the regions were seeded in
      scan order at cells before (x, y). */
  ghost predicate Scanned(open: set<Vector2Int>, done: set<Vector2Int>, areas: seq<set<Vector2Int>>,
                          seeds: seq<Vector2Int>, x: int, y: int)
  {
    Labelled(open, done, areas) &&
    (forall c :: c in open && ScanBefore(c, Vector2Int(x, y)) ==> c in done) &&
    Seeded(areas, seeds) &&
    forall i :: 0 <= i < |seeds| ==> ScanBefore(seeds[i], Vector2Int(x, y))
  }

  /** Once cell `c` is visited or found to be a wall, the scan moves past
      it. */
  lemma ScanPast(open: set<Vector2Int>, done: set<Vector2Int>, areas: seq<set<Vector2Int>>,
                 seeds: seq<Vector2Int>, c: Vector2Int)
    requires Labelled(open, done, areas) && Seeded(areas, seeds)
    requires forall d :: d in open && ScanBefore(d, c) ==> d in done
    requires c in open ==> c in done
    requires forall i :: 0 <= i < |seeds| ==> ScanBefore(seeds[i], Vector2Int(c.x, c.y + 1))
    ensures Scanned(open, done, areas, seeds, c.x, c.y + 1)
  {
    forall d | d in open && ScanBefore(d, Vector2Int(c.x, c.y + 1))
      ensures d in done
    {
      assert d == c || ScanBefore(d, c);
    }
  }

  lemma NextColumn(open: set<Vector2Int>, done: set<Vector2Int>, areas: seq<set<Vector2Int>>,
                   seeds: seq<Vector2Int>, x: int, size: Vector2Int)
    requires open <= Cells(size) && Scanned(open, done, areas, seeds, x, size.y)
    ensures Scanned(open, done, areas, seeds, x + 1, 0)
  {
    forall c | c in open && c.x < x + 1
      ensures c in done
    {
      assert InBounds(c, size);
    }
  }

  /** `q` is a neighbour of a cell of `area`. */
  ghost predicate Touches(area: set<Vector2Int>, q: Vector2Int)
  {
    exists c :: c in area && Adjacent(c, q)
  }

  /** Adding a cell next to a connected area keeps every cell reachable from
      the seed. */
  lemma FillGrows(area: set<Vector2Int>, area': set<Vector2Int>, seed: Vector2Int, p: Vector2Int)
    requires area' == area + {p}
    requires area == {} ==> p == seed
    requires area != {} ==> seed in area && Touches(area, p)
    requires forall c :: c in area ==> Reaches(area, seed, c)
    ensures seed in area' && forall c :: c in area' ==> Reaches(area', seed, c)
  {
    if area == {} {
      ReachesRefl(area', seed);
    } else {
      forall c | c in area
        ensures Reaches(area', seed, c)
      {
        ReachesMono(area, area', seed, c);
      }
      var b :| b in area && Adjacent(b, p);
      ReachesStep(area', seed, b, p);
    }
  }
}
