# AStarRVO core in Dafny

A Dafny model of the bookkeeping core of AStarRVO, a Unity project that combines grid
pathfinding with reciprocal velocity obstacles (RVO) for local collision avoidance. The model
covers these parts, and proves what each promises:

- **The grid** (`grid.dfy`, `map.dfy`): cells with a block kind, and a bounds-checked 2-D
  array of them.
- **The RVO world** (`world_physic.dfy`, `rvo_node.dfy`):
  - the agent registry: an intrusive doubly-linked list of nodes, an id counter, slot pools
    of 64 nodes and 32 obstacles, and the one-entry lookup cache;
  - deferred unlinking of destroyed nodes during `Update`, and the node list handed to the
    spatial index;
  - the static obstacle store: cyclic polygon edges, circles, and the 64-bit removal key;
  - the sorted obstacle-neighbour list.
- **The integer RVO sampler** (`rvo_algorithm.dfy`): vectors with C#'s truncating division,
  agent integration, neighbour selection by a stable insertion sort (`sorting.dfy`), the
  piecewise collision risk, and the first-strict-minimum velocity choice (`scans.dfy`).
- **The path cache and the level-of-detail grids** (`path_cache.dfy`, `lod_system.dfy`).
- **The unit occupancy tracker** (`unit_manager.dfy`): the occupied cells are always the
  union of the registered units' footprints.
- **Combat state and target selection** (`combat_unit.dfy`).
- **Path shaping** (`path_smoother.dfy`): simplification, Bezier segments, corner rounding,
  de-duplication of grid cells, path length and validity.
- **The geometry kernel, bounding boxes and KD nodes** (`rvo_math.dfy`, `bound_box.dfy`,
  `kd_node.dfy`), over the reals.

`seqs.dfy` and `options.dfy` hold the sequence facts and the optional value the other modules
share.

The source works by mutating objects, and the model follows it. `RVONode`, `WorldPhysic`,
`Map`, `Grid`, `PathCache`, `LODSystem`, `UnitManager`, `TargetManager`, `CombatUnit`,
`BuildingTarget`, `RVOAgent` and `RVOAlgorithm` are classes, and their methods carry
`modifies` clauses. Each loop is a `while` loop whose invariants tie it to a specification
function. Pure operations are functions, and lemmas relate them.

Time (`Time.time`) is passed in as the parameter `now`. Vector geometry that Unity supplies is
passed in as function parameters: distance, normalisation, the Bezier point and the
point-to-line distance. C# `float` is modelled as `real`.

## Model

| member | source | states |
|---|---|---|
| Cells.Grid.constructor | Assets/AStar/Grid.cs:25-34 | the coordinates, height, cost and block kind are the arguments; the defaults are height 0, cost 1 and Walkable; the new cell is walkable exactly when its kind is Walkable (0) |
| Cells.Grid.SetY | Assets/AStar/Grid.cs:22 | the height setter stores its value; X and Z are constants with no setter |
| Cells.Grid.SetCost | Assets/AStar/Grid.cs:23 | the cost setter stores its value |
| Cells.Grid.SetBlockType | Assets/AStar/Grid.cs:24-25 | the block-kind setter stores its value, and the cell is walkable afterwards exactly when that kind is Walkable (0); Unwalkable (1) and Wall (2) both block |
| Maps.Map.constructor | Assets/AStar/Map.cs:11-26 | width, height and cell size are stored; every in-range (x, z) holds its own fresh cell with X = x, Z = z, height 0, cost 1, walkable; the dimensions are constants from then on |
| Maps.Map.GetGrid | Assets/AStar/Map.cs:36-41 | null exactly when (x, z) is off the map; otherwise the cell with those coordinates |
| Maps.Map.SetGrid | Assets/AStar/Map.cs:45-54 | off the map nothing changes; on the map only that cell's height, cost and kind become the arguments, every other cell keeps its values and the map stays well formed |
| KDNodes.KDNode.constructor | Assets/AStar/WorldPhysic/KDTree/KDNode.cs:18-29 | a new node has partition axis -1, no children and the empty range, so it is a leaf with Count 0 |
| BoundBoxes.MinMaxNormalises | Assets/AStar/WorldPhysic/Math/BoundBox.cs:30-35 | Vector3.Min/Max do not depend on argument order, bracket both points componentwise and give an ordered pair back unchanged |
| BoundBoxes.BoundBox.constructor | Assets/AStar/WorldPhysic/Math/BoundBox.cs:30-35 | the corners are the componentwise min and max of the arguments, so Min <= Max; the transform is the identity |
| BoundBoxes.BoundBox.Copy | Assets/AStar/WorldPhysic/Math/BoundBox.cs:37-42 | the corners are copied and the transform is reset to the identity |
| BoundBoxes.BoundBox.SetTransform | Assets/AStar/WorldPhysic/Math/BoundBox.cs:44-52 | the transform becomes the argument, GetTransform then hands it back, and the corners are untouched |
| BoundBoxes.BoundBox.Clear | Assets/AStar/WorldPhysic/Math/BoundBox.cs:54-59 | both corners zero and the identity transform |
| BoundBoxes.BoundBox.Set | Assets/AStar/WorldPhysic/Math/BoundBox.cs:99-103 | the corners are normalised by Min/Max whatever the argument order; the transform is kept |
| BoundBoxes.BoundBox.SetFromBox | Assets/AStar/WorldPhysic/Math/BoundBox.cs:105-109 | the other box's corners, normalised; the transform is kept |
| BoundBoxes.CornersOfBox | Assets/AStar/WorldPhysic/Math/BoundBox.cs:55-87 | the local corners (bWorld false) are the stored ones whatever the transform, and ordered in a normalised box; under the identity transform the world corners and the world centre are the local ones |
| BoundBoxes.BoundBox.GetSize | Assets/AStar/WorldPhysic/Math/BoundBox.cs:72-75 | Min + size is Max, and no component is negative for a normalised box |
| BoundBoxes.BoundBox.GetHalf | Assets/AStar/WorldPhysic/Math/BoundBox.cs:67-70 | twice the half is the size, and no component is negative for a normalised box |
| BoundBoxes.BoundBox.GetCenter | Assets/AStar/WorldPhysic/Math/BoundBox.cs:61-65 | the local centre is Min + half and Max - half, so it lies between the corners |
| BoundBoxes.BoundSizeSqrNonNegative | Assets/AStar/WorldPhysic/Math/BoundBox.cs:94-97 | the squared diagonal is never negative and is zero exactly when the two corners coincide |
| RVOMath.SqrNonNegative | Assets/AStar/WorldPhysic/Math/RVOMath.cs:172-175 | sqr(x) is never negative and is zero exactly at zero |
| RVOMath.AbsSqNonNegative | Assets/AStar/WorldPhysic/Math/RVOMath.cs:52-55 | absSq(v), the dot product of all three components with themselves, is never negative and is zero only for the zero vector |
| RVOMath.DetAntisymmetric | Assets/AStar/WorldPhysic/Math/RVOMath.cs:84-87 | det(a, b) = -det(b, a) |
| RVOMath.DetSelfZero | Assets/AStar/WorldPhysic/Math/RVOMath.cs:84-87 | det(a, a) = 0 |
| RVOMath.DetIgnoresY | Assets/AStar/WorldPhysic/Math/RVOMath.cs:84-87 | det does not depend on the vertical components |
| RVOMath.MulSymmetric | Assets/AStar/WorldPhysic/Math/RVOMath.cs:92-95 | mul(a, b) = mul(b, a) |
| RVOMath.MulIsNotDot | Assets/AStar/WorldPhysic/Math/RVOMath.cs:92-95 | mul differs from the dot product on (1, 0, 0) with itself |
| RVOMath.LeftOfDegenerate | Assets/AStar/WorldPhysic/Math/RVOMath.cs:160-163 | leftOf(a, b, c) is 0 when c = a and when a = b |
| RVOMath.CrossSelfZero | Assets/AStar/WorldPhysic/Math/RVOMath.cs:88-91 | cross(a, a) is the zero vector |
| RVOMath.CrossOrthogonal | Assets/AStar/WorldPhysic/Math/RVOMath.cs:88-91 | cross(a, b) is orthogonal to a and to b |
| RVOMath.DistSqIsProjectionDistance | Assets/AStar/WorldPhysic/Math/RVOMath.cs:109-124 | the squared segment distance is the squared distance from the point to its projection onto the segment (ProjectPointToSegment, RVOMath.cs:206-212) |
| RVOMath.DistSqIsMinimum | Assets/AStar/WorldPhysic/Math/RVOMath.cs:109-124 | the squared segment distance is at most the squared distance to any point a + t(b - a) with t in [0, 1]: it is the distance to the nearest point of the segment |
| RVOMath.DistSqNonNegative | Assets/AStar/WorldPhysic/Math/RVOMath.cs:109-124 | the squared segment distance is never negative |
| RVOMath.IsZeroXZIgnoresY | Assets/AStar/WorldPhysic/Math/RVOMath.cs:143-146 | IsZeroXZ (both planar components within 0.001 of zero) does not depend on y |
| RVOMath.Clamp01 | Assets/AStar/WorldPhysic/Math/RVOMath.cs:209 | Mathf.Clamp01: the result lies in [0, 1], is t inside that range, 0 below it and 1 above it |
| RVOMath.ProjectPointToSegment | Assets/AStar/WorldPhysic/Math/RVOMath.cs:206-212 | the result is a + (b - a)t for some t in [0, 1]: a when the projection parameter is at most 0, b when it is at least 1, and a + (b - a)t with t the parameter itself in between |
| RVONodes.RVONode.constructor | Assets/AStar/WorldPhysic/Node/RVONode.cs:20-37 | a fresh slot has id and dummy id 0, zero vectors and radius, weight 1, no links, and counts as destroyed |
| RVONodes.RVONode.SetId | Assets/AStar/WorldPhysic/Node/RVONode.cs:39-42 | afterwards GetID returns the given id; only the id changes |
| RVONodes.RVONode.SetNext | Assets/AStar/WorldPhysic/Node/RVONode.cs:49-52 | afterwards GetNext returns the given node; only the next link changes |
| RVONodes.RVONode.SetPrev | Assets/AStar/WorldPhysic/Node/RVONode.cs:59-62 | afterwards GetPrev returns the given node; only the previous link changes |
| RVONodes.RVONode.SetDummyID | Assets/AStar/WorldPhysic/Node/RVONode.cs:74-77 | afterwards GetDummyID returns the given value; nothing else changes |
| RVONodes.RVONode.SetPosition | Assets/AStar/WorldPhysic/Node/RVONode.cs:84-87 | afterwards GetPosition returns the given position; nothing else changes |
| RVONodes.RVONode.SetPrefSpeed | Assets/AStar/WorldPhysic/Node/RVONode.cs:94-97 | afterwards GetPrefSpeed returns the given vector; nothing else changes |
| RVONodes.RVONode.SetNodeTargetPositon | Assets/AStar/WorldPhysic/Node/RVONode.cs:99-104 | the preferred speed is the ground-plane direction to the target, normalised and scaled by the move speed; its vertical part is 0 |
| RVONodes.RVONode.SetAdvSpeed | Assets/AStar/WorldPhysic/Node/RVONode.cs:111-114 | afterwards GetAdvSpeed returns the given vector; nothing else changes |
| RVONodes.RVONode.SetVelocity | Assets/AStar/WorldPhysic/Node/RVONode.cs:121-124 | afterwards GetVelocity returns the given vector; nothing else changes |
| RVONodes.RVONode.SetWeight | Assets/AStar/WorldPhysic/Node/RVONode.cs:131-134 | afterwards GetWeight returns the given weight; nothing else changes |
| RVONodes.RVONode.SetPhysicRadius | Assets/AStar/WorldPhysic/Node/RVONode.cs:141-144 | afterwards GetPhysicRadius returns the given radius; nothing else changes |
| RVONodes.RVONode.Destroy | Assets/AStar/WorldPhysic/Node/RVONode.cs:151-162 | ids, vectors and radius go back to zero, both links to null, the weight is left as it was, and the slot counts as destroyed |
| RVOIntegers.QuotRemainder | Assets/AStar/RVOAlgorithm.cs:35-38 | the vector division's `/` truncates: the remainder is smaller than the divisor and has the dividend's sign |
| RVOIntegers.QuotNegate | Assets/AStar/RVOAlgorithm.cs:35-38 | truncating division is odd in the dividend: -a / b == -(a / b) |
| RVOIntegers.QuotTruncates | Assets/AStar/RVOAlgorithm.cs:35-38 | -7 / 2 is -3 under C# division, where Euclidean division gives -4 |
| RVOIntegers.DivNegate | Assets/AStar/RVOAlgorithm.cs:35-38 | dividing a negated vector by a scalar negates the quotient |
| RVOIntegers.AddSub | Assets/AStar/RVOAlgorithm.cs:20-28 | vector subtraction undoes vector addition, both ways round |
| RVOIntegers.SqrMagnitudeProperties | Assets/AStar/RVOAlgorithm.cs:40-43 | the squared magnitude is the vector's dot product with itself, never negative, and zero only for the zero vector |
| RVOIntegers.DotSymmetric | Assets/AStar/RVOAlgorithm.cs:58-61 | the dot product is symmetric |
| RVOIntegers.ISqrtBounds | Assets/AStar/RVOAlgorithm.cs:45-48 | the truncated square root r of n satisfies r*r <= n < (r+1)*(r+1) |
| RVOIntegers.ISqrtMaximal | Assets/AStar/RVOAlgorithm.cs:45-48 | every m with m*m <= n is at most the truncated square root of n |
| RVOIntegers.MagnitudeProperties | Assets/AStar/RVOAlgorithm.cs:45-48 | the integer magnitude is zero exactly for the zero vector and is at least the size of each component |
| RVOIntegers.NormalizedComponents | Assets/AStar/RVOAlgorithm.cs:50-56 | an integer-normalised vector has components in {-1, 0, 1}; the zero vector stays zero; a non-zero vector becomes zero exactly when both its components are smaller than its magnitude |
| RVOIntegers.MovedProperties | Assets/AStar/RVOAlgorithm.cs:92-99 | Update keeps id and velocity, moves by exactly the velocity over 1000 ms, drops per-component motion under 1 cm, and moves symmetrically when the velocity is reversed |
| RVOIntegers.DesiredVelocityComponents | Assets/AStar/RVOAlgorithm.cs:102-115 | each component of SetTarget's preferred velocity is -s, 0 or s for the desired speed s (MaxSpeed when the speed is -1); a target at the agent's own position gives zero |
| RVOIntegers.DesiredVelocityLosesDirection | Assets/AStar/RVOAlgorithm.cs:102-115 | as written, a direction with both components smaller than its magnitude gives a zero preferred velocity at every speed |
| RVOIntegers.ThreeFourLosesDirection | Assets/AStar/RVOAlgorithm.cs:102-115 | as written, a target offset by (3, 4) is 5 away and yields a zero preferred velocity |
| RVOIntegers.ScaledVelocityMoves | Assets/AStar/RVOAlgorithm.cs:102-115 | scaling before dividing by the magnitude gives a non-zero velocity for any non-zero direction at a speed of at least its magnitude |
| RVOIntegers.RVOAgent.constructor | Assets/AStar/RVOAlgorithm.cs:80-89 | a new agent has the given id, position, radius and speed, zero velocities and a horizon of 300 |
| RVOIntegers.RVOAgent.Update | Assets/AStar/RVOAlgorithm.cs:92-99 | the agent's new state is its old state moved by the truncated displacement over the step |
| RVOIntegers.RVOAgent.SetTarget | Assets/AStar/RVOAlgorithm.cs:102-115 | only the preferred velocity changes, to the normalised direction times the desired speed |
| RVOIntegers.CandidatesKeyed | Assets/AStar/RVOAlgorithm.cs:180-193 | each collected candidate comes from the list, has another id, lies strictly inside the search distance, and is paired with its squared distance |
| RVOIntegers.NeighborsOfProperties | Assets/AStar/RVOAlgorithm.cs:176-225 | the neighbours are list agents with another id, strictly inside the search distance, in non-decreasing squared distance, min(candidates, maxNeighbors) of them, and all candidates when that many fit |
| RVOIntegers.FindNeighbors | Assets/AStar/RVOAlgorithm.cs:176-225 | the filter, in-place stable insertion sort and RemoveRange compute exactly NeighborsOf |
| RVOIntegers.CollisionRiskRange | Assets/AStar/RVOAlgorithm.cs:310-356 | the risk is 1000 exactly for overlapping discs; otherwise it is in [0, 10], and it is positive only when the relative velocity is non-zero and not moving apart |
| RVOIntegers.RiskRange | Assets/AStar/RVOAlgorithm.cs:318-355 | the same facts stated on the quantities the rule computes: distance, radii, dot product, relative speed and horizon |
| RVOIntegers.CostAlone | Assets/AStar/RVOAlgorithm.cs:291-307 | with no neighbours the preferred velocity costs 0 |
| RVOIntegers.DeviationCost | Assets/AStar/RVOAlgorithm.cs:291-307 | with no neighbours the cost is the squared deviation from the preferred velocity over 10000, never negative |
| RVOIntegers.OptimalVelocityProperties | Assets/AStar/RVOAlgorithm.cs:228-248 | the chosen velocity is the preferred one or a candidate, no candidate and not the preferred velocity is cheaper, and the preferred velocity is kept unless a candidate is strictly cheaper |
| RVOIntegers.ComputeOptimalVelocity | Assets/AStar/RVOAlgorithm.cs:228-248 | the scan keeping the first strictly cheaper candidate returns OptimalVelocity |
| RVOIntegers.PassShape | Assets/AStar/RVOAlgorithm.cs:156-166 | the velocity loop changes only velocities, and only of agents whose turn has come |
| RVOIntegers.PassFinal | Assets/AStar/RVOAlgorithm.cs:156-166 | an agent's new velocity is never changed by later turns |
| RVOIntegers.PassTurn | Assets/AStar/RVOAlgorithm.cs:156-166 | agent j's final velocity is the rule applied to the states at its turn: its own old state and the new velocities of the agents before it |
| RVOIntegers.OptimalStepRule | Assets/AStar/RVOAlgorithm.cs:159-165 | DoStep's rule gives every agent ComputeOptimalVelocity's choice against FindNeighbors' list |
| RVOIntegers.TurnVelocity | Assets/AStar/RVOAlgorithm.cs:159-162 | one agent's new velocity is the optimal velocity against its neighbours in the current states |
| RVOIntegers.OptimalPassChoices | Assets/AStar/RVOAlgorithm.cs:156-166 | every velocity DoStep assigns is the agent's preferred velocity or one of its candidates |
| RVOIntegers.MovePass | Assets/AStar/RVOAlgorithm.cs:169-172 | the second loop moves every agent by its own velocity, keeping the list's length |
| RVOIntegers.VelocityPass | Assets/AStar/RVOAlgorithm.cs:156-166 | the first loop leaves the agents in the state Pass describes |
| RVOIntegers.MoveAll | Assets/AStar/RVOAlgorithm.cs:169-172 | the second loop leaves the agents in the state MovePass describes |
| RVOIntegers.RVOAlgorithm.constructor | Assets/AStar/RVOAlgorithm.cs:128-138 | the agent list is empty and the time step, search distance and neighbour limit are stored |
| RVOIntegers.RVOAlgorithm.AddAgent | Assets/AStar/RVOAlgorithm.cs:141-144 | the agent is appended to the list |
| RVOIntegers.RVOAlgorithm.RemoveAgent | Assets/AStar/RVOAlgorithm.cs:147-150 | every agent with the id is removed and the others keep their order |
| RVOIntegers.RVOAlgorithm.ClearAgents | Assets/AStar/RVOAlgorithm.cs:377-380 | the agent list becomes empty |
| RVOIntegers.RVOAlgorithm.DoStep | Assets/AStar/RVOAlgorithm.cs:153-173 | the new states are the velocity pass in list order followed by the move pass over the time step |
| RVOIntegers.IntendedVelocityKeepsDirection | Assets/AStar/RVOAlgorithm.cs:102-115 | with the speed applied before the division and a desired speed of at least the distance, the preferred velocity is Zero only for a zero direction and keeps the sign of each of the direction's components |
| StableInsertion.Take | Assets/AStar/RVOAlgorithm.cs:219-222 | cutting the list keeps its first min(n, length) entries, in order |
| StableInsertion.InsertAt | Assets/AStar/WorldPhysic/WorldPhysic.cs:47-54 | the shifting loop stops after the last entry whose key is not larger than the new key and before every strictly larger one, and the entry goes there |
| StableInsertion.Insert | Assets/AStar/WorldPhysic/WorldPhysic.cs:45-54 | appending and then shifting left past strictly larger keys computes InsertSorted |
| StableInsertion.InsertSortedMultiset | Assets/AStar/WorldPhysic/WorldPhysic.cs:45-54 | an insertion adds exactly the new entry to the list's multiset and one to its length |
| StableInsertion.InsertSortedSorted | Assets/AStar/WorldPhysic/WorldPhysic.cs:45-54 | inserting into a list sorted by key keeps it sorted |
| StableInsertion.InsertSortedAppends | Assets/AStar/WorldPhysic/WorldPhysic.cs:49 | a key no smaller than the last one is appended, so entries with equal keys keep their arrival order |
| StableInsertion.InsSortSortedPermutation | Assets/AStar/RVOAlgorithm.cs:196-216 | the insertion sort yields a list sorted by key that is a permutation of its input |
| StableInsertion.InsSortOfSorted | Assets/AStar/RVOAlgorithm.cs:196-216 | the insertion sort leaves a sorted list unchanged |
| StableInsertion.InsSortIdempotent | Assets/AStar/RVOAlgorithm.cs:196-216 | sorting twice is the same as sorting once |
| Scans.Pick | Assets/AStar/RVOAlgorithm.cs:237-245 | the scan's choice is -1 (keep the initial value) or an index of the list |
| Scans.PickMinimal | Assets/AStar/RVOAlgorithm.cs:229-247 | the chosen cost is at most the initial cost and every listed cost; an entry is chosen only when it is strictly cheaper than the initial value and every entry before it |
| Scans.PickExtend | Assets/AStar/RVOAlgorithm.cs:240-244 | one more entry replaces the best so far exactly when it is strictly cheaper |
| WorldPhysics.PackKey | Assets/AStar/WorldPhysic/WorldPhysic.cs:392 | a key packed from two non-negative 32-bit ids is a non-negative 64-bit value |
| WorldPhysics.ToInt32 | Assets/AStar/WorldPhysic/WorldPhysic.cs:417 | the cast to int of a low-32-bit value is a signed 32-bit value congruent to it modulo 2^32 |
| WorldPhysics.DecodeEnd | Assets/AStar/WorldPhysic/WorldPhysic.cs:418 | the arithmetic shift of a 64-bit key by 32 is a signed 32-bit value |
| WorldPhysics.KeyRoundTrip | Assets/AStar/WorldPhysic/WorldPhysic.cs:415-418 | every key AddStaticObstacle packs from an id range decodes back to that range |
| WorldPhysics.FailureKeyIsEmptyRange | Assets/AStar/WorldPhysic/WorldPhysic.cs:415-418 | the failure key -1 decodes to the empty range [-1, -1), so removing it removes nothing |
| WorldPhysics.RVOObstacle.constructor | Assets/AStar/WorldPhysic/WorldPhysic.cs:337-341 | a new obstacle record has zero point and direction, ids 0, no flags and no links |
| WorldPhysics.PolygonSpec | Assets/AStar/WorldPhysic/WorldPhysic.cs:360-386 | entry i of a polygon holds vertex i moved by the position, the normalised direction to the next vertex (the last wraps to the first) and the vertex's convexity |
| WorldPhysics.CycleLinks | Assets/AStar/WorldPhysic/WorldPhysic.cs:368-378 | in the records of one polygon, each record's next and prev are the records of the following and preceding vertices, wrapping around |
| WorldPhysics.ScanerObser.constructor | Assets/AStar/WorldPhysic/WorldPhysic.cs:22-26 | a new scanner has no agent, no obstacle neighbours and no inside groups |
| WorldPhysics.ScanerObser.Clear | Assets/AStar/WorldPhysic/WorldPhysic.cs:27-32 | the scanner forgets its agent, its obstacle neighbours and its inside groups |
| WorldPhysics.ScanerObser.InsertNeighbor | Assets/AStar/WorldPhysic/WorldPhysic.cs:45-54 | the pair is appended and shifted left past strictly larger keys: the list becomes InsertSorted of the old list |
| WorldPhysics.ScanerObser.InsertObstacleNeighbor | Assets/AStar/WorldPhysic/WorldPhysic.cs:37-56 | an edge is inserted, keyed by its squared distance to the agent, only when that distance is below rangeSq; a degenerate edge is never inserted; a sorted list stays sorted |
| WorldPhysics.ScanerObser.InsertCircleObstacleNeighbor | Assets/AStar/WorldPhysic/WorldPhysic.cs:57-72 | only circle records are inserted, keyed by the given distance whatever rangeSq is; a sorted list stays sorted |
| WorldPhysics.RemoveEvery | Assets/AStar/WorldPhysic/WorldPhysic.cs:479-489 | the in-place filter removes every occurrence of the ignored id and keeps the rest in order |
| WorldPhysics.WorldPhysic.constructor | Assets/AStar/WorldPhysic/WorldPhysic.cs:98-127 | a new world has no nodes, no ids in use, empty pools and obstacle stores, and both counters at 1 |
| WorldPhysics.WorldPhysic.MallocNode | Assets/AStar/WorldPhysic/WorldPhysic.cs:321-328 | the slot is the top of the pool (popped) or a fresh one, unlinked, stamped with the counter's value, which then moves on; the slot no longer counts as destroyed |
| WorldPhysics.WorldPhysic.FreeNode | Assets/AStar/WorldPhysic/WorldPhysic.cs:330-335 | the slot is destroyed (its weight kept) and pushed onto the pool only while fewer than 64 are pooled |
| WorldPhysics.WorldPhysic.AttachNode | Assets/AStar/WorldPhysic/WorldPhysic.cs:178-195 | the slot is appended after the tail, takes the caller's data and is entered in the id map under its id |
| WorldPhysics.WorldPhysic.AddNode | Assets/AStar/WorldPhysic/WorldPhysic.cs:175-197 | the returned id is the counter before the call and was not in use; the new tail is registered under it with the caller's data; the registry invariant is kept |
| WorldPhysics.WorldPhysic.UnlinkList | Assets/AStar/WorldPhysic/WorldPhysic.cs:208-217 | the slot's neighbours are joined, root and tail move off it, and the list loses exactly that slot |
| WorldPhysics.WorldPhysic.UnlinkNode | Assets/AStar/WorldPhysic/WorldPhysic.cs:206-220 | the slot leaves the list, its id optionally leaves the map, and the cache forgets it |
| WorldPhysics.WorldPhysic.RemoveNodeObject | Assets/AStar/WorldPhysic/WorldPhysic.cs:206-223 | the same, and the slot is destroyed and offered to the pool |
| WorldPhysics.WorldPhysic.GetNode | Assets/AStar/WorldPhysic/WorldPhysic.cs:225-235 | the result is the slot the map holds under the id, or null; the cache changes nothing about the answer; a found slot becomes the cached one |
| WorldPhysics.WorldPhysic.RemoveNode | Assets/AStar/WorldPhysic/WorldPhysic.cs:199-204 | a registered id is unlinked, unmapped, uncached and its slot freed; an unknown id changes nothing |
| WorldPhysics.WorldPhysic.GetNodeDummyID | Assets/AStar/WorldPhysic/WorldPhysic.cs:237-242 | the registered slot's dummy id, or -1 for an unknown id |
| WorldPhysics.WorldPhysic.GetNodeWeight | Assets/AStar/WorldPhysic/WorldPhysic.cs:251-256 | the registered slot's weight, or 0 for an unknown id |
| WorldPhysics.WorldPhysic.GetNodePosition | Assets/AStar/WorldPhysic/WorldPhysic.cs:265-270 | the registered slot's position, or the zero vector for an unknown id |
| WorldPhysics.WorldPhysic.GetNodePrefSpeed | Assets/AStar/WorldPhysic/WorldPhysic.cs:300-305 | the registered slot's preferred speed, or the zero vector for an unknown id |
| WorldPhysics.WorldPhysic.GetNodePhysicRadius | Assets/AStar/WorldPhysic/WorldPhysic.cs:314-319 | the registered slot's radius, or 0 for an unknown id |
| WorldPhysics.WorldPhysic.SetNodeWeight | Assets/AStar/WorldPhysic/WorldPhysic.cs:244-249 | the registered slot takes the weight; an unknown id changes nothing |
| WorldPhysics.WorldPhysic.SetNodePosition | Assets/AStar/WorldPhysic/WorldPhysic.cs:258-263 | the registered slot takes the position; an unknown id changes nothing |
| WorldPhysics.WorldPhysic.SetNodePrefSpeed | Assets/AStar/WorldPhysic/WorldPhysic.cs:272-277 | the registered slot takes the preferred speed; an unknown id changes nothing |
| WorldPhysics.WorldPhysic.SetNodeTargetPositon | Assets/AStar/WorldPhysic/WorldPhysic.cs:279-284 | the registered slot is steered towards the target in the ground plane at the move speed; an unknown id changes nothing |
| WorldPhysics.WorldPhysic.SetNodeAdvSpeed | Assets/AStar/WorldPhysic/WorldPhysic.cs:286-291 | the registered slot takes the advisory speed; an unknown id changes nothing |
| WorldPhysics.WorldPhysic.SetNodeVelocity | Assets/AStar/WorldPhysic/WorldPhysic.cs:293-298 | the registered slot takes the velocity; an unknown id changes nothing |
| WorldPhysics.WorldPhysic.SetNodePhysicRadius | Assets/AStar/WorldPhysic/WorldPhysic.cs:307-312 | the registered slot takes the radius; an unknown id changes nothing |
| WorldPhysics.WorldPhysic.MallocObstacle | Assets/AStar/WorldPhysic/WorldPhysic.cs:337-341 | the record is the top of the pool (popped) or a fresh one, held in neither store |
| WorldPhysics.WorldPhysic.FreeObstacle | Assets/AStar/WorldPhysic/WorldPhysic.cs:343-348 | the record is pushed onto the pool only while fewer than 32 are pooled |
| WorldPhysics.WorldPhysic.AppendPolygon | Assets/AStar/WorldPhysic/WorldPhysic.cs:362-390 | the vertex loop appends one record per vertex with consecutive ids, linked into a cycle in vertex order, and marks the obstacle set dirty |
| WorldPhysics.WorldPhysic.AddStaticObstacle | Assets/AStar/WorldPhysic/WorldPhysic.cs:356-394 | fewer than two vertices give -1 and no change; otherwise the records form a cycle, take ids [begin, begin+n) in group begin, the set is dirty, and the key packs that range |
| WorldPhysics.WorldPhysic.AppendCircle | Assets/AStar/WorldPhysic/WorldPhysic.cs:401-409 | one circle record at the position, with direction radius * (1,1,1), group and id equal to the next generator id, is appended |
| WorldPhysics.WorldPhysic.AddStaticCircleObstacle | Assets/AStar/WorldPhysic/WorldPhysic.cs:396-413 | a radius that is not positive gives -1 and no change; otherwise one circle record takes one id, the key packs [begin, begin+1), and the dirty flag is left alone |
| WorldPhysics.WorldPhysic.SweepStatic | Assets/AStar/WorldPhysic/WorldPhysic.cs:420-432 | every polygon record with an id in range is freed and removed in place, the rest keep their order, and the set becomes dirty when anything was removed |
| WorldPhysics.WorldPhysic.SweepCircle | Assets/AStar/WorldPhysic/WorldPhysic.cs:434-445 | every circle record with an id in range is freed and removed in place, the rest keep their order |
| WorldPhysics.WorldPhysic.RemoveStaticObstacle | Assets/AStar/WorldPhysic/WorldPhysic.cs:415-446 | the key's range is decoded; polygon records in it are removed and pooled, or, only when there are none, the circle records in it are |
| WorldPhysics.WorldPhysic.QueryRadius | Assets/AStar/WorldPhysic/WorldPhysic.cs:469-493 | a null list or unknown node gives false and leaves the list alone; otherwise the list is refilled with the index's ids minus the ignored id, and the result says whether it is non-empty |
| WorldPhysics.WorldPhysic.FreeAll | Assets/AStar/WorldPhysic/WorldPhysic.cs:1233-1243 | the walk reads each successor before freeing, so every linked slot is destroyed (keeping its weight) and offered to the pool in list order |
| WorldPhysics.WorldPhysic.Clear | Assets/AStar/WorldPhysic/WorldPhysic.cs:1231-1259 | every linked slot is freed, the map, cache, destroy list, index and both obstacle stores are emptied, both counters restart at 1, the set is dirty, and the scanner is cleared |
| WorldPhysics.WorldPhysic.WalkList | Assets/AStar/WorldPhysic/WorldPhysic.cs:143-159 | the walk queues the destroyed slots in list order and hands the live ones to the index in list order |
| WorldPhysics.WorldPhysic.PurgeQueued | Assets/AStar/WorldPhysic/WorldPhysic.cs:161-170 | every queued slot is unlinked and freed in queue order with its map entry kept; afterwards no destroyed slot is linked |
| WorldPhysics.WorldPhysic.Update | Assets/AStar/WorldPhysic/WorldPhysic.cs:140-172 | the linked slots become exactly the live ones in their old order, the index holds them, the dead ones are pooled in list order, and the map and cache are unchanged |
| PathCaching.Wrap | Assets/AStar/PathCache.cs:26-36 | unchecked int arithmetic: the value is brought into [-2^31, 2^31) and stays congruent modulo 2^32 |
| PathCaching.HashCode | Assets/AStar/PathCache.cs:26-36 | the hash is a 32-bit signed value |
| PathCaching.EqualsIff | Assets/AStar/PathCache.cs:38-49 | Equals holds exactly for an argument that is a key with the same six fields |
| PathCaching.EqualKeysEqualHash | Assets/AStar/PathCache.cs:26-49 | keys that are Equal have equal hash codes |
| PathCaching.HashCollides | Assets/AStar/PathCache.cs:26-36 | two different footprints on the same route hash alike, so the dictionary relies on Equals |
| PathCaching.OldestIndex | Assets/AStar/PathCache.cs:117-127 | the scan's position is -1 (float.MaxValue kept) or a position of the enumeration order |
| PathCaching.OldestScan | Assets/AStar/PathCache.cs:117-127 | the loop finds the first strictly smallest timestamp below float.MaxValue and its key, or float.MaxValue and the default key |
| PathCaching.SizeMatches | Assets/AStar/PathCache.cs:161-164 | the dictionary has one key per enumerated position |
| PathCaching.EvictOldestProperties | Assets/AStar/PathCache.cs:115-133 | an empty cache is left alone; otherwise exactly one entry goes, one with a minimal timestamp and the first such in enumeration order, and the rest keep their entries and order |
| PathCaching.OldestFound | Assets/AStar/PathCache.cs:129-132 | a non-empty cache always has an oldest entry, since every timestamp is below float.MaxValue |
| PathCaching.AddedProperties | Assets/AStar/PathCache.cs:81-91 | afterwards the key holds the new item; a cache below capacity keeps all its entries; a full one loses exactly one oldest entry, even when the key was present; a capacity of at least 1 stays respected |
| PathCaching.PutProperties | Assets/AStar/PathCache.cs:90 | storing adds one entry for a new key and replaces the item of a present one |
| PathCaching.FetchProperties | Assets/AStar/PathCache.cs:94-112 | the path is returned exactly when the key is present and younger than the lifetime, and then restamped with now; an expired entry is removed; a missing key changes nothing |
| PathCaching.AddThenFetch | Assets/AStar/PathCache.cs:81-112 | a path just stored is found again at once when the lifetime is positive |
| PathCaching.ExpireProperties | Assets/AStar/PathCache.cs:136-152 | exactly the entries with now - timestamp >= lifetime are removed; the others are kept unchanged and in order |
| PathCaching.CollectExpired | Assets/AStar/PathCache.cs:140-146 | the first loop lists the expired keys in enumeration order |
| PathCaching.ExpiredListed | Assets/AStar/PathCache.cs:140-146 | the listed keys are exactly the expired keys |
| PathCaching.RemoveKeys | Assets/AStar/PathCache.cs:148-151 | the second loop removes exactly the listed keys and keeps the order of the rest |
| PathCaching.Trim | Assets/AStar/PathCache.cs:167-176 | the trimmed cache stays well formed |
| PathCaching.TrimStep | Assets/AStar/PathCache.cs:171-174 | one round of the loop: an over-full cache evicts its oldest entry and gets smaller |
| PathCaching.TrimStop | Assets/AStar/PathCache.cs:171 | the loop stops once the cache fits |
| PathCaching.TrimProperties | Assets/AStar/PathCache.cs:167-176 | at most m entries remain; a cache that fits is unchanged; the kept entries are unchanged; no kept entry is older than an evicted one |
| PathCaching.PathCache.constructor | Assets/AStar/PathCache.cs:73-78 | a new cache is empty with the given capacity and lifetime |
| PathCaching.PathCache.CacheSize | Assets/AStar/PathCache.cs:161-164 | the number of entries |
| PathCaching.PathCache.AddPath | Assets/AStar/PathCache.cs:81-91 | the new contents are Added of the old, with the item stamped now; capacity and lifetime are unchanged |
| PathCaching.PathCache.GetPath | Assets/AStar/PathCache.cs:94-112 | the result and the new contents are Fetch of the old contents at now with the cache's lifetime |
| PathCaching.PathCache.RemoveOldestPath | Assets/AStar/PathCache.cs:115-133 | the new contents are EvictOldest of the old |
| PathCaching.PathCache.ClearExpiredCache | Assets/AStar/PathCache.cs:136-152 | the new contents are Expire of the old at now with the cache's lifetime |
| PathCaching.PathCache.ClearAllCache | Assets/AStar/PathCache.cs:155-158 | no entries remain; capacity and lifetime are unchanged |
| PathCaching.PathCache.SetMaxCacheSize | Assets/AStar/PathCache.cs:167-176 | the capacity is stored and the contents become Trim of the old, at most maxSize entries |
| PathCaching.PathCache.SetCacheLifetime | Assets/AStar/PathCache.cs:178-181 | the lifetime is stored |
| LevelsOfDetail.ScaleDoubles | Assets/AStar/PathCache.cs:355-371 | every scale is positive, and each level's scale is twice the one before: 1, 2, 4, 8 |
| LevelsOfDetail.GetLODLevelMonotone | Assets/AStar/PathCache.cs:297-315 | a farther distance never gets a finer level nor a smaller scale |
| LevelsOfDetail.LODRoundTrip | Assets/AStar/PathCache.cs:341-353 | scaling a coarse coordinate up and back down gives it back, negative coordinates included |
| LevelsOfDetail.OriginalInLOD | Assets/AStar/PathCache.cs:341-353 | an original cell with non-negative coordinates lies in the coarse cell it is mapped to, at or after its corner and before the next |
| LevelsOfDetail.CeilDivIsCeiling | Assets/AStar/PathCache.cs:241-242 | the coarse map's side covers the original side with less than one coarse cell to spare |
| LevelsOfDetail.BlockCounts | Assets/AStar/PathCache.cs:258-276 | within the map, the block loops count every original cell of the block once and each walkable one once more |
| LevelsOfDetail.CoarseWalkable | Assets/AStar/PathCache.cs:279-285 | every coarse cell merges at least one original cell, and it is walkable exactly when every merged cell is |
| LevelsOfDetail.LODSystem.constructor | Assets/AStar/PathCache.cs:200-209 | the system keeps the map and its cell size and holds exactly the Medium, Low and VeryLow maps, each merged from the map at its scale |
| LevelsOfDetail.LODSystem.PrecomputeLODMaps | Assets/AStar/PathCache.cs:211-234 | all three coarse levels are stored, each a fresh map merged from the original at its scale |
| LevelsOfDetail.LODSystem.CreateLODMap | Assets/AStar/PathCache.cs:236-294 | a fresh map whose every cell is the merge (average height and cost, walkability of all) of its block of original cells |
| LevelsOfDetail.SumBlock | Assets/AStar/PathCache.cs:258-276 | the two inner loops compute the block's sums of height, cost, walkable cells and cells |
| LevelsOfDetail.FillCell | Assets/AStar/PathCache.cs:251-290 | one coarse cell is written with the merge of its block |
| LevelsOfDetail.LODSystem.GetMap | Assets/AStar/PathCache.cs:318-332 | High, or a level without a coarse map, gives the original map; otherwise the stored coarse map |
| LevelsOfDetail.FreshSystemMaps | Assets/AStar/PathCache.cs:200-332 | a freshly built system serves the original map for High and a coarse map of the right scale for every other level |
| LevelsOfDetail.LODSystem.ClearLODMaps | Assets/AStar/PathCache.cs:373-376 | afterwards every level gives the original map |
| UnitTracking.NewUnit | Assets/AStar/UnitManager.cs:17-25 | the unit keeps its id, position and footprint, its radius is half the larger side, and it is not moving |
| UnitTracking.FootprintContains | Assets/AStar/UnitManager.cs:111-121 | the nested footprint scan finds the cell exactly when it lies in the width x height block at the corner |
| UnitTracking.FloorCell | Assets/AStar/UnitManager.cs:193-198 | the cell of a world position is the one whose square, cellSize on a side, contains the point's x and z |
| UnitTracking.UnitManager.constructor | Assets/AStar/UnitManager.cs:36-42 | a new manager has no units and no occupied cells, takes the map's cell size, and satisfies the invariant |
| UnitTracking.UnitManager.GridToWorld | Assets/AStar/UnitManager.cs:201-206 | the point lies strictly inside the cell's square, at height 0 |
| UnitTracking.UnitManager.GridRoundTrip | Assets/AStar/UnitManager.cs:193-206 | mapping a cell to its centre and back gives the same cell |
| UnitTracking.UnitManager.ValidGridOnMap | Assets/AStar/UnitManager.cs:209-212 | a cell is valid exactly when the map returns a cell for it |
| UnitTracking.UnitManager.Footprint | Assets/AStar/UnitManager.cs:132-141 | the marked cells of a unit are exactly the on-map cells of its footprint |
| UnitTracking.UnitManager.Covered | Assets/AStar/UnitManager.cs:31-32 | the occupied set the invariant demands: the on-map cells some registered unit covers |
| UnitTracking.UnitManager.IsPositionOccupiedByUnit | Assets/AStar/UnitManager.cs:103-125 | true exactly when some unit whose id is not the excluded one covers the cell, on the map or not |
| UnitTracking.UnitManager.UpdateOccupiedGrids | Assets/AStar/UnitManager.cs:128-143 | the on-map footprint cells are added to the occupied set |
| UnitTracking.UnitManager.ClearOccupiedGrids | Assets/AStar/UnitManager.cs:146-190 | exactly the on-map footprint cells that no other unit covers are removed from the occupied set |
| UnitTracking.UnitManager.CoveredInsert | Assets/AStar/UnitManager.cs:45-52 | a unit with a new id adds exactly its footprint to the covered cells |
| UnitTracking.UnitManager.CoveredRemove | Assets/AStar/UnitManager.cs:55-63 | clearing a unit's cells that no other unit covers leaves exactly the cells the other units cover |
| UnitTracking.UnitManager.AddUnit | Assets/AStar/UnitManager.cs:45-52 | a new id is registered and its footprint marked; a known id changes nothing; the invariant is kept |
| UnitTracking.UnitManager.RemoveUnit | Assets/AStar/UnitManager.cs:55-63 | a known unit is dropped and its cells no other unit covers are unmarked; an unknown id changes nothing; the invariant is kept |
| UnitTracking.UnitManager.UpdateUnitPosition | Assets/AStar/UnitManager.cs:66-75 | a known unit takes the new position and the occupied set follows its footprint; an unknown id changes nothing; the invariant is kept |
| UnitTracking.UnitManager.ClearAllUnits | Assets/AStar/UnitManager.cs:281-285 | no units and no occupied cells remain |
| UnitTracking.UnitManager.IsPositionOccupiedAsWritten | Assets/AStar/UnitManager.cs:78-100 | as written: true exactly when some footprint cell is marked and no unit other than the excluded one covers it |
| UnitTracking.UnitManager.AsWrittenMissesUnits | Assets/AStar/UnitManager.cs:91 | as written, when no unit has the excluded id the answer is always false, although the intended answer is true whenever a footprint cell is marked |
| UnitTracking.UnitManager.IsPositionOccupied | Assets/AStar/UnitManager.cs:78-100 | corrected: true exactly when some footprint cell is marked and covered by a unit other than the excluded one |
| UnitTracking.UnitManager.OccupiedMeans | Assets/AStar/UnitManager.cs:78-100 | under the invariant, the corrected query holds exactly when some on-map footprint cell is covered by a unit other than the excluded one |
| UnitTracking.UnitManager.IsPathBlocked | Assets/AStar/UnitManager.cs:261-272 | as written: true exactly when the centre of some path cell satisfies the as-written occupancy query, i.e. the cell is marked and no unit other than the given one covers it |
| UnitTracking.UnitManager.PathBlockedAsWrittenMeans | Assets/AStar/UnitManager.cs:261-272 | under the invariant, the as-written query reports a path cell exactly when it is on the map and covered by the given unit itself and by no other unit |
| UnitTracking.UnitManager.PathBlockedAsWrittenMissesUnits | Assets/AStar/UnitManager.cs:261-272 | under the invariant, the as-written query is false for every path when the given id is not a registered unit, however many units stand on the path |
| UnitTracking.UnitManager.IsPathBlockedIntended | Assets/AStar/UnitManager.cs:261-272 | corrected: true exactly when the centre of some path cell is occupied by a unit other than the given one |
| UnitTracking.UnitManager.PathBlockedMeans | Assets/AStar/UnitManager.cs:261-272 | corrected: under the invariant, a path is blocked exactly when one of its cells is on the map and covered by another unit |
| Combat.BuildingTarget.constructor | Assets/AStar/CombatUnit.cs:261-270 | a new building has the given id, position, radius and priority, is alive, and has full health 100 |
| Combat.BuildingTarget.TakeDamage | Assets/AStar/CombatUnit.cs:273-281 | health drops by the damage rounded down and stops at 0; the building dies exactly when its health reaches 0 |
| Combat.ClosestIsFirstMinimum | Assets/AStar/CombatUnit.cs:172-191 | the choice is the first live target within range at minimal distance, nearer than every live target before it; -1 exactly when no live target within range is nearer than float.MaxValue |
| Combat.PriorityIsFirstMaximum | Assets/AStar/CombatUnit.cs:194-212 | the choice is the first live target within range with the largest priority above int.MinValue; -1 when there is none |
| Combat.TargetManager.constructor | Assets/AStar/CombatUnit.cs:144-148 | a new manager has no targets and stores the cell size |
| Combat.TargetManager.AddTarget | Assets/AStar/CombatUnit.cs:151-157 | a target not yet listed is appended; a listed one is ignored; no target is listed twice |
| Combat.TargetManager.RemoveTarget | Assets/AStar/CombatUnit.cs:160-163 | the target's one occurrence is deleted and the rest keep their order; an unlisted target changes nothing |
| Combat.TargetManager.RemoveTargetById | Assets/AStar/CombatUnit.cs:166-169 | exactly the targets with the id are removed; the rest keep their order |
| Combat.TargetManager.FindClosestTarget | Assets/AStar/CombatUnit.cs:172-191 | the loop returns the target ClosestIndex designates, or null |
| Combat.TargetManager.FindHighestPriorityTarget | Assets/AStar/CombatUnit.cs:194-212 | the loop returns the target PriorityIndex designates, or null |
| Combat.TargetManager.FindTargetsInRange | Assets/AStar/CombatUnit.cs:215-228 | exactly the live targets within range, in list order |
| Combat.TargetManager.ClearAllTargets | Assets/AStar/CombatUnit.cs:231-234 | no targets remain |
| Combat.TargetManager.UpdateTargets | Assets/AStar/CombatUnit.cs:243-247 | exactly the dead targets are removed; the rest keep their order |
| Combat.CombatUnit.constructor | Assets/AStar/CombatUnit.cs:27-35 | the unit part is as new Unit makes it; damage 10, cooldown 1, last attack at 0, not attacking, no target |
| Combat.CombatUnit.SetTargetManager | Assets/AStar/CombatUnit.cs:38-41 | the manager is stored |
| Combat.CombatUnit.FindNewTarget | Assets/AStar/CombatUnit.cs:100-118 | with no manager nothing changes; otherwise the closest target within attack range is attacked, or the unit stops attacking when there is none; never moving and attacking at once |
| Combat.CombatUnit.Update | Assets/AStar/CombatUnit.cs:44-81 | a moving unit whose target is in range stops and attacks; an attacking unit with a live target attacks once the cooldown has passed and records the time; otherwise it looks for a new target |
| Combat.CombatUnit.SetMoveTarget | Assets/AStar/CombatUnit.cs:121-127 | the unit heads for the point and drops any attack |
| Combat.CombatUnit.SetAttackTarget | Assets/AStar/CombatUnit.cs:130-135 | the unit attacks the target and stops moving |
| PathSmoothing.PathSmoother.constructor | Assets/AStar/PathSmoother.cs:12-16 | the smoother works on the given map with the map's cell size |
| PathSmoothing.PathSmoother.SmoothPath | Assets/AStar/PathSmoother.cs:19-104 | a missing path or one of fewer than two cells gives no points; otherwise the result is the cell centres, simplified with tolerance 0.1, turned into Bezier segments and rounded at sharp corners |
| PathSmoothing.SmoothedEnds | Assets/AStar/PathSmoother.cs:19-104 | a smoothed path of at least two cells has at least three points, begins at the first cell's centre and ends at the last cell's centre |
| PathSmoothing.PathSmoother.Centre | Assets/AStar/PathSmoother.cs:28-33 | the world point of a cell has the cell's height and falls back into that same cell |
| UnitTracking.CentreInCell | Assets/AStar/PathSmoother.cs:30-31 | the centre of cell n, divided by the cell size and floored, is n again |
| PathSmoothing.PathSmoother.WorldPoints | Assets/AStar/PathSmoother.cs:27-33 | the first loop yields one centre per cell, in the path's order |
| PathSmoothing.PathSmoother.BezierCurve | Assets/AStar/PathSmoother.cs:44-98 | the curve loop yields exactly the smoothed curve: the first point, the points of every step, the last point |
| PathSmoothing.PathSmoother.BezierSegment | Assets/AStar/PathSmoother.cs:52-94 | the inner loop yields the segment points of step i: the Bezier point at t = j/segments when walkable, the straight-line point at t otherwise |
| PathSmoothing.Segments | Assets/AStar/PathSmoother.cs:78 | a step is cut into at least two pieces, and into more only when the step is at least that many cells long |
| PathSmoothing.SegmentPoints | Assets/AStar/PathSmoother.cs:79-94 | a step contributes one point fewer than its number of pieces, so at least one |
| PathSmoothing.Smoothed | Assets/AStar/PathSmoother.cs:44-98 | the curve has at least one point more than the simplified path and keeps its first and last points |
| PathSmoothing.PathSmoother.SimplifyPath | Assets/AStar/PathSmoother.cs:124-150 | the loop yields exactly the simplified path |
| PathSmoothing.Simplified | Assets/AStar/PathSmoother.cs:124-150 | a path of fewer than three points is returned unchanged; a longer one keeps its two endpoints and shrinks to no fewer than two points |
| PathSmoothing.SimplifiedKeepsOnlyStandouts | Assets/AStar/PathSmoother.cs:134-146 | every point strictly inside the simplified path is an interior input point farther than the tolerance from the line through its neighbours |
| PathSmoothing.SimplifiedKeepsStandouts | Assets/AStar/PathSmoother.cs:134-146 | every interior input point farther than the tolerance from the line through its neighbours is kept strictly inside the simplified path |
| PathSmoothing.PathSmoother.HandleCorners | Assets/AStar/PathSmoother.cs:171-217 | the loop yields exactly the cornered path |
| PathSmoothing.Cornered | Assets/AStar/PathSmoother.cs:171-217 | the path keeps its length and endpoints, and an interior point changes only at a sharp corner (dot product below -0.5), to the rounded point 0.3 cells out, and only when that point is walkable |
| PathSmoothing.PathSmoother.IsWalkable | Assets/AStar/PathSmoother.cs:220-232 | a point is walkable exactly when its cell is on the map and that cell is walkable |
| PathSmoothing.PathSmoother.GetGridPath | Assets/AStar/PathSmoother.cs:235-258 | the result holds the map cells of the on-map points, once each, in the order the points first reach them, and no cell twice |
| PathSmoothing.VisitStep | Assets/AStar/PathSmoother.cs:240-255 | one round of the loop adds the point's cell exactly when it is on the map and not yet visited |
| PathSmoothing.PathSmoother.CellsOfDistinct | Assets/AStar/PathSmoother.cs:246-253 | distinct coordinates give distinct map cells, so the visited set keeps the result free of repeats |
| PathSmoothing.PathSmoother.CalculatePathLength | Assets/AStar/PathSmoother.cs:261-269 | the loop sums the distances between consecutive points |
| PathSmoothing.PathLengthNonNegative | Assets/AStar/PathSmoother.cs:261-269 | with a non-negative distance, no path has negative length |
| PathSmoothing.PathLengthAppend | Assets/AStar/PathSmoother.cs:261-269 | the length of two joined paths is the sum of their lengths plus the step across the joint |
| PathSmoothing.PathSmoother.IsPathValid | Assets/AStar/PathSmoother.cs:272-288 | a path is valid exactly when it is present, has at least two points and every point is walkable |

## Left out

- The ORCA solver: `ComputerNewVelocity` and `linearProgram1`, `linearProgram2` and `linearProgram3` in WorldPhysic.cs. They are floating-point geometry with square roots, epsilon tests and case splits on float signs.
- `IsNodeCollisioned`, `ComputeObstacleNeighbors` and `ScanerObser.IsInsideObstacle`. They query the KD tree and `RVOObstacle.GetNearestPointOnPolygon`, neither of which is part of this model.
- The KD tree and `KDBounds`. `Update` records the node sequence it hands to the index (`kdAgents`), but the tree and its rebuild are not modelled.
- `SetCheckPositionValid`, `CheckPositionValid` and `DrawDebug`: a caller-supplied callback and debug drawing.
- `ScanerObser.GetPosition`, `RVONode.GetBound`, `RVOMath.fabs` and `BoundBox.GetBoundSize`: one-line accessors, or wrappers of a square root.
- Float numerics: `RVOMath.abs`, `normalize`, `sqrt` and `PositionInView`, and `BoundBox.RayHit` and `IsInView`. Where the model needs normalisation or a distance, it takes the function as a parameter.
- WorldPhysics.WorldPhysic.AddStaticObstacle: the edge directions and convexity flags are computed up front (`PolygonSpec`). The source computes each one as its loop reaches the vertex; the values are the same.
- WorldPhysics.WorldPhysic.AddNode: requires the id counter to be below 2^31 - 1. The source's counter would wrap around there; wrap-around is not modelled.
- WorldPhysics.WorldPhysic.AddStaticObstacle: requires the next obstacle ids to stay within 32 bits, so the packed removal key stays exact.
- RVOIntegers.ISqrtBounds: states the exact integer square root. The source computes `(int)Mathf.Sqrt`, which rounds the squared magnitude and its root to single-precision floats, so from 2^24 on its value can be one larger. For the direction (4608, 96) the squared magnitude is 21242880 = 4609^2 - 1: the root rounds to 4609.0f, so the source's magnitude is 4609 and `Normalized()` is (0, 0), while the model's are 4608 and (1, 0). `Magnitude`, `Normalized`, `SetTarget` and `DoStep` follow the exact root; float rounding is not modelled.
- WorldPhysics.WorldPhysic.FreeObstacle: does not call `RVOObstacle.Destroy`, since RVOObstacle.cs is not part of this model and its reset is unknown. A pooled polygon record therefore keeps its old links and fields until `MallocObstacle`'s caller overwrites them; a circle record reused from the pool keeps its old `next` and `prev`.
- C# 32-bit `int` arithmetic is unbounded in the model. This covers `IntVector2`, the cache's hash code (which is reduced to 32 bits explicitly) and `BuildingTarget.Health`.
- `GenerateCandidateVelocities` (cos/sin sampling): the candidate list is a parameter of `DoStep`. `IsPositionWalkable` in RVOAlgorithm.cs always returns true and is left out.
- `RVOAStarIntegrator`: float/centimetre conversions and a ring search over float positions.
- RVOIntegers.RVOAlgorithm.DoStep: requires the agent list to hold no agent twice, and every time horizon to be non-zero. With a zero horizon and t = 0, the source computes 0/0 in float (NaN), which exact reals cannot express.
- RVOIntegers.RVOAgent.SetTarget: models the source's truncating normalisation as written. The corrected velocity `IntendedVelocity` (see Findings) is proved beside it but is not wired into the agent, so the sampler keeps the source's behaviour.
- PathCaching.PathCache.SetMaxCacheSize: requires a non-negative size. With a negative size the source's eviction loop never ends once the cache is empty.
- PathCaching.PathCache.AddPath: requires `now` below the float maximum that `RemoveOldestPath` starts its scan from.
- The order in which the cache's dictionary enumerates its keys is an explicit sequence in the model; C# does not specify it.
- `Time.time` is the parameter `now` throughout; `Debug.Log` is dropped.
- UnitTracking.UnitManager.constructor: requires a positive cell size, since the grid conversion divides by it. The same holds for PathSmoothing.PathSmoother.constructor.
- Maps.Map.constructor: requires a non-negative width and height.
- `Unit` is a value in the model, so a caller holding the same `Unit` object as the manager is not modelled. Positions change only through `UpdateUnitPosition`.
- `GetNearbyUnits`, `AvoidCollisions` and `GetAllUnits` in UnitManager.cs, and `GetAllTargets` and `GetAgents`: float radius queries, or accessors that return the internal collections.
- `ITarget` is modelled by its one implementation, `BuildingTarget`.
- `CombatUnit.Attack` only writes a log line and deals no damage. The model reports whether `Update` would call it. `Update`'s `deltaTime` argument is unused in the source and is dropped.
- `LODSystem.GetMapByDistance` is modelled as a function with no contract of its own; `GetLODLevelMonotone` and `GetMap` carry the properties.
- `CalculateBezierPoint` and `DistanceToLine` in PathSmoother.cs are parameters (a `Geometry` value). Walkability is read from the map as a snapshot (`Terrain`).
- PathSmoothing.PathSmoother.SmoothPath: the source returns early when simplification leaves fewer than two points. Simplification keeps both endpoints, so that branch cannot run, and the model proves it rather than modelling it.
- `Mathf.FloorToInt` and `Mathf.CeilToInt` are the real floor and an integer ceiling division.

## Findings

| source | as written | input that shows it | evidently intended | confidence | as-written member | corrected member |
|---|---|---|---|---|---|---|
| Assets/AStar/RVOAlgorithm.cs:102-115 | `SetTarget` normalises the integer direction before scaling it. Truncation turns every component whose size is below the magnitude into 0. | An agent at (0, 0) with target (3, 4): the magnitude is 5, `Normalized()` is (0, 0), and the preferred velocity is Zero at any speed. | Scale by the speed, then divide by the magnitude, so the agent heads toward its target. | not executed | RVOIntegers.ThreeFourLosesDirection | RVOIntegers.IntendedVelocityKeepsDirection |
| Assets/AStar/UnitManager.cs:91 | `IsPositionOccupied` returns true for a marked cell only when `IsPositionOccupiedByUnit` is false, i.e. when no unit other than the excluded one covers it. | One registered unit, id 1, at cell (0, 0), and the query `IsPositionOccupied` at that cell with `excludeUnitId` -1: the answer is false. | True when a marked footprint cell is covered by some unit other than the excluded one. | not executed | UnitTracking.UnitManager.AsWrittenMissesUnits | UnitTracking.UnitManager.IsPositionOccupied |
| Assets/AStar/UnitManager.cs:266 | `IsPathBlocked` probes each path cell with the inverted `IsPositionOccupied`, so another unit's cell never blocks the path, while a cell of the caller's own unit does. | Unit 2 registered at cell (0, 0), the path [cell (0, 0)] and `unitId` 1: the answer is false. | True when some path cell is occupied by a unit other than `unitId`. | not executed | UnitTracking.UnitManager.PathBlockedAsWrittenMeans | UnitTracking.UnitManager.PathBlockedMeans |
