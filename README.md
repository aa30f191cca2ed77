# Arena generator model

A Dafny model of the arena generator of a Unity ML-Agents project
(`EnvironmentGenerator`), with proofs about it. Each generation does the
following:

- draws a random arena size;
- places a ring of border walls;
- draws a wall in each interior cell with probability `wallsDensity`;
- splits the walkable cells into 4-connected regions with a row-by-row scan
  of queue-based flood fills (`BasicFill`);
- reconnects the regions to the largest one (`EnsureConnectivity`). It runs
  a relaxation search over the whole grid, with step cost 1 for a walkable
  cell and 2 for a wall, and records a predecessor for each cell. From one
  random cell of every other region it then walks the predecessors back to
  the largest region and clears the walls on the way;
- turns the walkable cells into spawn positions and the wall cells into wall
  blocks;
- places the agents. Each takes a random free spawn position, which is then
  removed from the list.

The model keeps the generator's imperative form:

- The generator is a class (`Generator.EnvironmentGenerator`) whose fields
  are what the generation changes: `built`, `size`, the `walls` grid, the
  `spawnPositions` list, `agentsNumber`, `agents` and `placedWalls`.
- The `walls` and `visited` grids and the search's node grid are `array2`s,
  changed cell by cell.
- Every loop of the original is a `while` or `for` loop with its
  invariants.
- The pathfinding node (`DijkstraNode`) is a datatype stored in the node
  grid. Each cell owns its node and the original never aliases two of them.
  Its three updates (`Relax`, `RelaxAround`, `ExpandFront`) are proved equal
  to functions on a map snapshot of the grid (`RelaxStep`, `RelaxFrom`,
  `Expand`), and the invariant of the search is proved about those
  functions.

Randomness is a parameter or a nondeterministic choice:

- `Random.Range` on integers is `Arena.RandomRange`, any value in the range
  the engine allows.
- `RandomElement` of a set is a `:|` choice of any member.
- `Random.value` for the wall of cell `(x, y)` is `roll(x, y)`, an argument
  of `GenerateEnvironment`.

Outcomes are modelled as follows:

- The exceptions the original throws are a `Status`:
  - `NoWalkableCell` for `areas.First()` on an empty region list;
  - `SpawnExhausted` for indexing an empty spawn list when more agents are
    asked for than there are cells.
- The cells logged with `Debug.LogWarning` as unconnectable are returned as
  the `reported` list.

Two behaviours of the code are worth stating on their own:

- Agent placement does not check the agent count up front. It places agents
  until the spawn list runs out and only then fails (`SpawnExhausted`).
- A failed generation does not keep the previous environment. That
  environment is destroyed first, and the new one stays half built.

Main results:

- **Scan.** The region scan partitions the walkable cells into maximal
  connected regions and lists them in scan order (`FindRegions`,
  `Regions.Labelled`, `Regions.ScanOrdered`).
- **Root.** The root is the largest region, the first one in scan order on
  a tie (`Arena.Largest`).
- **Search tree.** After the search every cell is expanded, and every cell
  but the start records an adjacent predecessor whose recorded cost is lower
  by the cell's step cost (`PathSearch.BuildTree`, `PathSearch.SearchTree`).
- **Repair.** The repair only clears walls, and exactly the predecessor
  chains of the sampled cells that are not reported (`PathSearch.Chain`,
  `Generator.Corridors`). Every other region either ends up linked to the
  root through walkable cells, or has a reported cell. When the walkable
  cells are connected already, nothing changes (`Repair`, `RepairOutcome`).
  Every reported cell is a neighbour of `(0,0)`, because "no predecessor" is
  encoded as `Vector2Int.zero` and the search reaches every cell.
- **Connected.** When nothing is reported, the walkable cells after repair
  are connected (`GenerateEnvironment`, `EnsureConnectivity`).
- **Spawns and agents.** The spawn list is exactly the world positions of
  the walkable cells, in scan order. The agents' positions and the remaining
  spawn positions together are exactly that list, and the agents' positions
  are pairwise distinct. No two wall blocks share a position.

## Model

| member | source | states |
|---|---|---|
| Generator.EnvironmentGenerator.constructor | Assets/Scripts/EnvironmentGenerator.cs:34-38 | the generator starts with the configured bounds and density, no environment and empty spawn, agent and wall lists |
| Generator.EnvironmentGenerator.GenerateEnvironment | Assets/Scripts/EnvironmentGenerator.cs:55-127 | the generation fails for lack of a walkable cell exactly when every roll is below the density, and then leaves no spawn position and no agent; otherwise, when no cell is reported, the walkable cells are connected, the placed agents and the left-over spawn positions are together exactly the world positions of the walkable cells, and placement succeeds exactly when the agent count is at most the number of walkable cells; every reported cell is walkable and next to (0,0); agent positions are pairwise distinct, and so are the wall blocks |
| Generator.EnvironmentGenerator.RepairAndPopulate | Assets/Scripts/EnvironmentGenerator.cs:85-126 | on the drawn grid: the generation fails exactly when no cell is walkable and then leaves no spawn position and no agent; otherwise the reported cells are walkable and next to (0,0), with no report the walkable cells are connected, agents plus left-over spawn positions are exactly the walkable cells' world positions, placement succeeds exactly when the count is at most the number of walkable cells; agent positions and wall blocks are each pairwise distinct |
| Generator.EnvironmentGenerator.Draw | Assets/Scripts/EnvironmentGenerator.cs:57-83 | the old lists are emptied, each sampled dimension lies in its configured range, the wall blocks are the border ring, each grid cell is a wall exactly when its roll is below the density, so the walkable cells are exactly the cells whose roll reaches the density, and none is walkable exactly when every roll is below it |
| Generator.EnvironmentGenerator.FillWalls | Assets/Scripts/EnvironmentGenerator.cs:79-83 | a fresh grid of the sampled size in which a cell is a wall exactly when its roll is below the density |
| Generator.EnvironmentGenerator.Repair | Assets/Scripts/EnvironmentGenerator.cs:85-104 | the repair fails exactly when no cell is walkable and then changes nothing; it returns the regions of the walkable cells in scan order and, when there is one, the root repair it performed (RepairOutcome): the walls cleared are exactly the predecessor chains of the sampled cells that are not reported, and the reports are exactly the sampled cells whose predecessor is (0,0); it only clears walls; every reported cell was walkable and is next to (0,0); with no report the walkable cells are connected; when the walkable cells were connected already, no wall is cleared |
| Generator.EnvironmentGenerator.Populate | Assets/Scripts/EnvironmentGenerator.cs:105-126 | wall blocks are appended for the wall cells in scan order; agents plus left-over spawn positions are exactly the walkable cells' world positions; the agent count lies in its configured range; placement succeeds exactly when the count is at most the number of walkable cells, and otherwise every walkable cell got an agent; team ids are 0, 1, ...; agent positions are distinct; the wall blocks, border ring first, stand at pairwise distinct positions |
| Generator.EnvironmentGenerator.CollectSpawns | Assets/Scripts/EnvironmentGenerator.cs:105-115 | the spawn list becomes the world positions of the walkable cells in scan order, and the wall blocks of the wall cells in scan order are appended |
| Generator.EnvironmentGenerator.PlaceAgents | Assets/Scripts/EnvironmentGenerator.cs:117-126 | the agent count lies in its configured range; placement succeeds exactly when the count is at most the spawn list's length; agents plus the remaining spawn list are a permutation of the old spawn list; distinct spawn positions give distinct agent positions |
| Generator.EnvironmentGenerator.BasicFill | Assets/Scripts/EnvironmentGenerator.cs:132-168 | the region holds only walkable cells not visited before, exactly its cells become visited, every cell of it is reachable from the seed inside it, and every walkable neighbour of it is in it or was visited before |
| Generator.EnvironmentGenerator.EnqueueNeighbours | Assets/Scripts/EnvironmentGenerator.cs:147-163 | the queue grows by the in-bounds walkable neighbours not in the region, in the order left, down, right, up |
| Generator.EnvironmentGenerator.EnqueueIfOpen | Assets/Scripts/EnvironmentGenerator.cs:148-151 | one neighbour is enqueued exactly when it is in bounds, walkable and not yet in the region |
| Generator.EnvironmentGenerator.FindRegions | Assets/Scripts/EnvironmentGenerator.cs:85-103 | the regions are pairwise disjoint, each is connected and closed under walkable neighbours, their union is exactly the walkable cells, and they are listed in scan order: each region holds a cell that comes before every cell of every later region |
| Generator.EnvironmentGenerator.ScanColumnRegions | Assets/Scripts/EnvironmentGenerator.cs:96-103 | scanning column x moves the scan invariant from the start of column x to the start of column x + 1 |
| Generator.EnvironmentGenerator.ScanCell | Assets/Scripts/EnvironmentGenerator.cs:98-102 | one cell of the scan keeps the scan invariant: the regions found so far cover exactly the visited cells, which include every walkable cell scanned so far, and each region's first cell in scan order is the cell that seeded it, before the current cell |
| Generator.ScanPast | Assets/Scripts/EnvironmentGenerator.cs:96-102 | once the current cell is visited or a wall, the scan invariant holds one cell further on |
| Generator.EnvironmentGenerator.EnsureConnectivity | Assets/Scripts/EnvironmentGenerator.cs:170-298 | it fails exactly on an empty region list and then changes nothing; otherwise the root is the largest region and the repair is RootRepair: the search tree weighs each cell 1 when walkable and 2 when a wall, one cell sampled from every other region in order, the reports are exactly the sampled cells whose predecessor is (0,0), the walls cleared are exactly the predecessor chains of the other sampled cells, and every region is linked to the root or holds a reported cell; with a single region nothing changes; with no report the walkable cells are connected |
| Generator.EnvironmentGenerator.SearchFrom | Assets/Scripts/EnvironmentGenerator.cs:180-264 | the start lies in the root and the finished node grid, as a map over every cell of the grid, is a predecessor tree rooted at it whose step costs are 2 on a wall and 1 on a walkable cell |
| Generator.EnvironmentGenerator.CreateNodes | Assets/Scripts/EnvironmentGenerator.cs:180-186 | every node is fresh (not expanded, no predecessor, no cost) with step cost 2 on a wall and 1 otherwise |
| Generator.EnvironmentGenerator.ConnectToRoot | Assets/Scripts/EnvironmentGenerator.cs:180-297 | once the largest region is the root: RootRepair holds; with a single region nothing changes; with no report the walkable cells are connected |
| Generator.EnvironmentGenerator.ConnectAll | Assets/Scripts/EnvironmentGenerator.cs:266-297 | the reports are exactly the sampled cells, one per region in order, whose predecessor is (0,0); the walkable cells grow by exactly the predecessor chains of the other sampled cells; each region is linked to the root or holds a reported cell |
| Generator.EnvironmentGenerator.ConnectRegion | Assets/Scripts/EnvironmentGenerator.cs:270-296 | the sampled cell is reported exactly when its recorded predecessor is (0,0), and then it is next to (0,0) and no wall changes; otherwise exactly its predecessor chain is cleared and the whole region ends up linked to the root |
| Generator.WalkToRoot | Assets/Scripts/EnvironmentGenerator.cs:283-295 | the walk ends; the walkable cells grow by exactly the chain of the start cell (its predecessors up to, not including, the first root cell); the start cell and every cleared cell are linked to the root through walkable cells |
| Generator.DrawAgents | Assets/Scripts/EnvironmentGenerator.cs:117-126 | all agents are placed exactly when the count is at most the number of spawn positions; otherwise the spawn list runs out; team ids are sequential; agents plus the rest are a permutation of the spawn list, and distinct spawns give distinct agent positions |
| Generator.PlacedDistinct | Assets/Scripts/EnvironmentGenerator.cs:119-125 | positions drawn without replacement from a list of distinct positions are distinct |
| Generator.SplitCells | Assets/Scripts/EnvironmentGenerator.cs:105-115 | the spawn list is the world positions of the walkable cells and the block list those of the wall cells, both in scan order |
| Generator.DrawWalls | Assets/Scripts/EnvironmentGenerator.cs:79-83 | a fresh grid with a wall exactly where the roll is below the density; no cell is walkable exactly when all rolls are below it |
| Generator.DrawnWalls | Assets/Scripts/EnvironmentGenerator.cs:79-83 | a grid drawn from the rolls has no walkable cell exactly when every roll is below the density, and its walkable cells are exactly the cells whose roll is at least the density |
| Generator.BorderBlocks | Assets/Scripts/EnvironmentGenerator.cs:71-77 | the blocks placed by the two border loops are the world positions of the border ring, in loop order |
| Generator.RowBlocks | Assets/Scripts/EnvironmentGenerator.cs:72-74 | the first loop places, for each column 1..width, the bottom and top border cells |
| Generator.ColumnBlocks | Assets/Scripts/EnvironmentGenerator.cs:75-77 | the second loop appends the full left and right border columns |
| Generator.ColumnOf | Assets/Scripts/EnvironmentGenerator.cs:76-77 | one border column, bottom to top |
| Generator.NoRegionIffNoCell | Assets/Scripts/EnvironmentGenerator.cs:173 | the region list is empty exactly when no cell is walkable, so the list's first element fails exactly then |
| Generator.AppendedNeighbours | Assets/Scripts/EnvironmentGenerator.cs:148-163 | what the fill enqueues are walkable neighbours not in the region, and every such neighbour is enqueued |
| Generator.FillAdd | Assets/Scripts/EnvironmentGenerator.cs:143-163 | adding a dequeued walkable, unvisited cell and enqueueing its neighbours keeps the fill invariant |
| Generator.FillSkip | Assets/Scripts/EnvironmentGenerator.cs:141-143 | dropping a dequeued wall, member or visited cell keeps the fill invariant |
| Generator.FillGrows | Assets/Scripts/EnvironmentGenerator.cs:145 | a cell added next to the region keeps every member reachable from the seed |
| Generator.NextColumn | Assets/Scripts/EnvironmentGenerator.cs:95-96 | finishing a column of the scan moves the scan invariant to the next column |
| Generator.StepCost | Assets/Scripts/EnvironmentGenerator.cs:185 | the step cost is at least 1, and it is 2 exactly for a wall |
| Generator.Report | Assets/Scripts/EnvironmentGenerator.cs:275-279 | a warning is logged exactly for an unreached cell, and names that cell |
| Generator.WalkLinked | Assets/Scripts/EnvironmentGenerator.cs:283-295 | a walk ending in the root, with every cleared cell on it, links its first cell to the root and grows the walkable cells only by cells outside the root that are linked to it |
| Generator.WalkStep | Assets/Scripts/EnvironmentGenerator.cs:285-294 | each step of the walk moves to an adjacent predecessor of lower recorded cost; on reaching the root the cells cleared are the whole chain, otherwise the walk state holds one step further with the predecessor cleared |
| PathSearch.Chain | Assets/Scripts/EnvironmentGenerator.cs:283-295 | the cells of a predecessor chain lie in the grid and outside the root |
| Generator.LoopStep | Assets/Scripts/EnvironmentGenerator.cs:268-296 | one pass of the repair loop extends the sampled cells by one, the report by that cell when it is unreached, and the cleared walls by its chain otherwise, and handles one more region |
| Generator.ReportsWalkable | Assets/Scripts/EnvironmentGenerator.cs:275-280 | every cell the repair reports was walkable before the repair and is next to (0,0) |
| Generator.NothingReported | Assets/Scripts/EnvironmentGenerator.cs:266-297 | a repair that reported no cell leaves the walkable cells connected |
| Generator.RepairedStep | Assets/Scripts/EnvironmentGenerator.cs:268-296 | one pass of the outer repair loop handles exactly one more region and keeps the loop invariant |
| Generator.RootRepaired | Assets/Scripts/EnvironmentGenerator.cs:267 | once the other regions are handled, every region of the original list is, the root included |
| Generator.HandledMono | Assets/Scripts/EnvironmentGenerator.cs:294 | clearing more walls and logging more warnings never undoes a handled region |
| Arena.RandomRange | Assets/Scripts/EnvironmentGenerator.cs:67 | the integer draw lies in [lo, hi), is lo for an empty range and in (hi, lo] for an inverted one |
| Arena.SampleSize | Assets/Scripts/EnvironmentGenerator.cs:67 | each dimension lies in the inclusive configured range and is non-negative for non-negative bounds |
| Arena.Largest | Assets/Scripts/EnvironmentGenerator.cs:173-178 | the chosen region is at least as large as every region and strictly larger than every earlier one |
| Arena.WorldPosInjective | Assets/Scripts/EnvironmentGenerator.cs:111 | distinct cells have distinct world positions |
| Arena.WorldPositionsDistinct | Assets/Scripts/EnvironmentGenerator.cs:107-114 | mapping distinct cells to world positions keeps them distinct, and a cell is listed exactly when its world position is |
| Arena.ScanEnumerates | Assets/Scripts/EnvironmentGenerator.cs:105-109 | the scan lists exactly the cells holding the value, each once, column by column and bottom to top |
| Arena.ScanListsCells | Assets/Scripts/EnvironmentGenerator.cs:105-115 | the spawn positions are pairwise distinct and as many as the walkable cells |
| Arena.DistinctCard | Assets/Scripts/EnvironmentGenerator.cs:105-115 | a list without repeats that holds exactly the members of a set is as long as the set is large |
| Arena.BorderRing | Assets/Scripts/EnvironmentGenerator.cs:71-77 | the border loops place each cell of the ring around the interior exactly once, and nothing else |
| Arena.RowPairsCells | Assets/Scripts/EnvironmentGenerator.cs:72-74 | the first border loop places the bottom and top cells of columns 1..n, each once |
| Arena.ColumnCells | Assets/Scripts/EnvironmentGenerator.cs:75-77 | a border column holds the cells of its x from 0 to its height, each once |
| Arena.BorderDistinct | Assets/Scripts/EnvironmentGenerator.cs:71-77 | rows and the two side columns never overlap |
| Arena.ScaledApart | Assets/Scripts/EnvironmentGenerator.cs:76-114 | border blocks and interior blocks never share a world position |
| Arena.WallsApart | Assets/Scripts/EnvironmentGenerator.cs:72-114 | the border blocks and the blocks of any duplicate-free list of interior cells together stand at pairwise distinct world positions |
| Lists.RemoveFirst | Assets/Scripts/EnvironmentGenerator.cs:125 | List.Remove shortens the list by one when the value is present and changes nothing otherwise |
| Lists.RemoveFirstMultiset | Assets/Scripts/EnvironmentGenerator.cs:125 | List.Remove takes exactly one occurrence of the value out of the list |
| Lists.RemoveFirstAt | Assets/Scripts/EnvironmentGenerator.cs:267 | removing the root region by value removes exactly its entry |
| Lists.SubDistinct | Assets/Scripts/EnvironmentGenerator.cs:119-125 | a sub-multiset of a list without repeats has no repeats |
| Regions.AddRegion | Assets/Scripts/EnvironmentGenerator.cs:97-101 | appending a filled region keeps the regions a partition of the visited cells into maximal connected regions |
| Regions.AddSeed | Assets/Scripts/EnvironmentGenerator.cs:98-101 | a region filled from the first walkable cell not yet visited has that cell as its first cell in scan order, after every earlier region's first cell |
| Regions.SeededOrdered | Assets/Scripts/EnvironmentGenerator.cs:95-101 | regions whose first cells come in scan order are listed in scan order |
| Regions.OneRegionWhenConnected | Assets/Scripts/EnvironmentGenerator.cs:85-103 | once the walkable cells are connected, a new scan finds exactly one region |
| Regions.Others | Assets/Scripts/EnvironmentGenerator.cs:267 | the regions other than the root are regions disjoint from it, and with the root they cover the walkable cells |
| Regions.LinkedToConnected | Assets/Scripts/EnvironmentGenerator.cs:266-297 | every walkable cell linked to a connected root makes the walkable cells connected |
| Regions.RepairedConnected | Assets/Scripts/EnvironmentGenerator.cs:266-297 | when every other region and every cleared cell is linked to the root, the walkable cells are connected |
| Regions.RegionLinked | Assets/Scripts/EnvironmentGenerator.cs:288-294 | linking one cell of a connected region to the root links the whole region |
| Regions.GrownTrans | Assets/Scripts/EnvironmentGenerator.cs:283-296 | corridors cleared one after the other still only add cells outside the root that are linked to it |
| PathSearch.NewNode | Assets/Scripts/EnvironmentGenerator.cs:307-313 | a new node is not expanded, has predecessor (0,0) and cost 0, and keeps its step cost |
| PathSearch.RelaxStep | Assets/Scripts/EnvironmentGenerator.cs:198-211 | one neighbour update changes at most that neighbour's cost and predecessor, keeps its expanded flag and step cost, appends it to the frontier at most once, and changes nothing for an already expanded neighbour |
| PathSearch.RelaxPreserves | Assets/Scripts/EnvironmentGenerator.cs:198-211 | one neighbour update keeps the search invariant: every recorded cost hangs off an adjacent expanded predecessor with a cost lower by the step cost, and the frontier holds each waiting cell once |
| PathSearch.RelaxFromPreserves | Assets/Scripts/EnvironmentGenerator.cs:198-260 | the four neighbour updates of one expansion keep the search invariant |
| PathSearch.RelaxNeighboursPreserves | Assets/Scripts/EnvironmentGenerator.cs:198-260 | after the four updates every neighbour of the expanded cell is expanded or on the frontier |
| PathSearch.MarkFrontier | Assets/Scripts/EnvironmentGenerator.cs:261-262 | removing the expanded cell from the frontier and marking it expanded keeps the frontier invariant |
| PathSearch.ExpandPreserves | Assets/Scripts/EnvironmentGenerator.cs:195-263 | one pass of the search loop keeps the search invariant, marks exactly the front cell expanded, and leaves every node expanded before unchanged |
| PathSearch.InitialInv | Assets/Scripts/EnvironmentGenerator.cs:189-191 | the frontier holding only the start satisfies the search invariant |
| PathSearch.FinishedTree | Assets/Scripts/EnvironmentGenerator.cs:193-264 | an empty frontier after the start was expanded leaves every cell expanded with a predecessor tree rooted at the start |
| PathSearch.Relax | Assets/Scripts/EnvironmentGenerator.cs:198-211 | the in-place neighbour update is the map update RelaxStep |
| PathSearch.RelaxAround | Assets/Scripts/EnvironmentGenerator.cs:198-260 | the four in-place updates are RelaxFrom |
| PathSearch.ExpandFront | Assets/Scripts/EnvironmentGenerator.cs:195-263 | one in-place pass of the search loop is Expand |
| PathSearch.BuildTree | Assets/Scripts/EnvironmentGenerator.cs:188-264 | the search loop ends with every cell expanded and every cell but the start recording an adjacent predecessor whose cost is lower by the cell's step cost; step costs are unchanged |
| Grid.GridConnected | Assets/Scripts/EnvironmentGenerator.cs:193-264 | the full rectangle of cells is connected, which is why the search reaches every cell |
| Grid.ClosedGridIsFull | Assets/Scripts/EnvironmentGenerator.cs:193-264 | a set of cells closed under neighbours that holds the start is the whole grid |

## Left out

- Engine objects and rendering: `Instantiate`, `DestroyImmediate`, the prefabs, the environment `GameObject` and the camera placement (line 129). Wall blocks and agents are kept only as lists of world positions (`placedWalls`, `agents`). The object graph is a flag, `built`.
- The random heading of each agent (`Random.Range(0f, 360f)`) is left out, and the `TeamId` component call is kept only as the agent's `teamId` field.
- The `Start` and `Update` triggers, which read `Input` and `Academy.Instance.StepCount`, are left out. A caller calls `GenerateEnvironment` instead. The class invariant `Consistent` says that before the first generation there is nothing to destroy and every list is empty. That is the state `Start` creates.
- `Debug.LogWarning` is modelled as the returned `reported` list of cells.
- Floating point is replaced as follows:
  - `minCostToStart` is an `int`, since it only ever holds sums of the step costs 1 and 2;
  - `wallsDensity` and the rolls are `real`, and only compared;
  - the world positions (`Vector3`) are integer `Vector2Int`s with the wall size 4, the same values exactly.
- Generator.EnvironmentGenerator.constructor: the size bounds are required to be non-negative. A negative bound can draw a negative size, on which the original either loops forever in the border loop (a step of 0 when the height is -1) or fails to allocate the grid. Neither is modelled.
- Generator.EnvironmentGenerator.GenerateEnvironment: the contract gives the end-to-end facts only. The size range, the border ring, the survival of high-roll cells, the wall blocks, the team ids and the agent count live in the contracts of `Draw`, `Repair`, `Populate` and their parts, which it calls in order. The region list and the cleared chains (`RepairOutcome`) are stated on `Repair` and not carried up through `RepairAndPopulate`, because the verifier cannot carry them through the rest of the generation within its resource bound.
- Generator.EnvironmentGenerator.RepairAndPopulate: this split of the generation after the draw exists only to keep the proof small, and it has the same gap as `GenerateEnvironment`: the region list and the cleared chains stay on `Repair`.
- Generator.EnvironmentGenerator.EnsureConnectivity: no optimality is claimed for the recorded costs. The frontier is first in, first out, and a cell is frozen once expanded, so the search is not Dijkstra's algorithm. Only the predecessor tree is proved, and that is what the corridor walk needs.
- Generator.EnvironmentGenerator.ConnectRegion: the model keeps the original's test for "unreached" (predecessor equal to `Vector2Int.zero`). The search reaches every cell, so the test fires only for a sampled cell whose real predecessor is `(0,0)`. Such a region is reported and left unconnected. The model proves that a report can only name a neighbour of `(0,0)`. It does not prove that this case occurs.
- Generator.DrawAgents: when more agents are asked for than there are spawn positions, the original places an agent on every position and then throws. The model stops with `SpawnExhausted` in the same state and does not model the exception's unwinding.
- Arena.RandomRange: the engine's result for an inverted range is modelled as any value in `(hi, lo]`.
- The `visited` grid is created already cleared, because the clearing loop only writes `false` over a fresh grid. The removal from `areas` in the repair loop runs on a local copy of the region list, since the caller never reads the list afterwards.
- The border blocks, spawn positions and agents are computed into local lists and then assigned to the fields. The original appends to the fields one element at a time. Nothing writes them in between, so the final state is the same. The agent code that reads the spawn list at the start of an episode (Assets/Scripts/UnitAgent.cs:34) is not part of this model.
- Assets/Scripts/CollectionsExtension.cs is not part of this model beyond `RandomElement`, which is a nondeterministic choice of a member.
