/**
 * The bookkeeping of the RVO world (WorldPhysic.cs): the agent registry kept as an
 * intrusive doubly-linked list of RVONode slots with an id map, a one-entry lookup cache,
 * bounded slot pools, the static obstacle store with its removal keys, and the sorted
 * obstacle-neighbour list of the scanner.
 */
module WorldPhysics {
  import opened Options
  import opened RVOMath
  import opened RVONodes
  import opened Seqs
  import opened StableInsertion

  const NodePoolCapacity: nat := 64
  const ObstaclePoolCapacity: nat := 32
  const Int32Max: int := 0x7FFF_FFFF
  const Int64Min: int := -0x8000_0000_0000_0000
  const Int64Max: int := 0x7FFF_FFFF_FFFF_FFFF
  const TwoTo32: int := 0x1_0000_0000

  // ---------------------------------------------------------------------------
  // Removal keys: a [begin, end) id range packed into one 64-bit value

  /** (long)begin | ((long)end << 32); for non-negative 32-bit ids the OR is a sum. */
  function PackKey(begin: int, end: int): (key: int)
    requires 0 <= begin <= Int32Max && 0 <= end <= Int32Max
    ensures 0 <= key <= Int64Max
  {
    begin + end * TwoTo32
  }

  /** (int)v for a value of the low 32 bits: the upper half of the range wraps negative. */
  function ToInt32(v: int): (r: int)
    requires 0 <= v < TwoTo32
    ensures -0x8000_0000 <= r <= Int32Max
    ensures r % TwoTo32 == v
  {
    if v > Int32Max then v - TwoTo32 else v
  }

  /** (int)(key & 0xFFFFFFFF): the low 32 bits, read as a signed int. */
  function DecodeBegin(key: int): int
    requires Int64Min <= key <= Int64Max
  {
    ToInt32(key % TwoTo32)
  }

  /** (int)(key >> 32): the arithmetic shift is the floor of the division by 2^32. */
  function DecodeEnd(key: int): (e: int)
    requires Int64Min <= key <= Int64Max
    ensures -0x8000_0000 <= e <= Int32Max
  {
    key / TwoTo32
  }

  /** Every key that AddStaticObstacle issues decodes to the range it was made from. */
  lemma KeyRoundTrip(begin: int, end: int)
    requires 0 <= begin <= Int32Max && 0 <= end <= Int32Max
    ensures DecodeBegin(PackKey(begin, end)) == begin
    ensures DecodeEnd(PackKey(begin, end)) == end
  {
    var key := PackKey(begin, end);
    assert key == end * TwoTo32 + begin;
    assert key / TwoTo32 == end && key % TwoTo32 == begin by {
      DivModUnique(key, end, begin);
    }
  }

  /** The failure value -1 decodes to the empty range [-1, -1), so it removes nothing. */
  lemma FailureKeyIsEmptyRange()
    ensures DecodeBegin(-1) == -1 && DecodeEnd(-1) == -1
  {
    assert -1 == -1 * TwoTo32 + (TwoTo32 - 1);
    DivModUnique(-1, -1, TwoTo32 - 1);
  }

  /** Division by 2^32 is unique: quotient and remainder are fixed by a = q * 2^32 + r. */
  lemma DivModUnique(a: int, q: int, r: int)
    requires 0 <= r < TwoTo32 && a == q * TwoTo32 + r
    ensures a / TwoTo32 == q && a % TwoTo32 == r
  {}

  // ---------------------------------------------------------------------------
  // Obstacle records

  /** A static obstacle record: one polygon edge (point to next.point) or one circle. */
  class RVOObstacle {
    var point: Vec3
    var unitDir: Vec3
    var id: int
    var group: int
    var IsCircle: bool
    var IsConvex: bool
    var prev: RVOObstacle?
    var next: RVOObstacle?

    constructor ()
      ensures point == Zero && unitDir == Zero && id == 0 && group == 0
      ensures !IsCircle && !IsConvex && prev == null && next == null
    {
      point, unitDir := Zero, Zero;
      id, group := 0, 0;
      IsCircle, IsConvex := false, false;
      prev, next := null, null;
    }
  }

  /** The records of `s` whose id lies in [begin, end). */
  ghost function InRange(s: seq<RVOObstacle>, begin: int, end: int): set<RVOObstacle>
    reads s
  {
    set o | o in s && begin <= o.id < end
  }

  /** The destroyed slots of a node list (IsDestroy: an id that is not positive). */
  ghost function Dead(s: seq<RVONode>): set<RVONode>
    reads s
  {
    set n | n in s && n.id <= 0
  }

  /** Index of the next vertex of an n-gon, wrapping the last one to the first. */
  function NextIndex(i: nat, n: nat): nat
    requires i < n
  {
    if i == n - 1 then 0 else i + 1
  }

  /** Index of the previous vertex of an n-gon, wrapping the first one to the last. */
  function PrevIndex(i: nat, n: nat): nat
    requires i < n
  {
    if i == 0 then n - 1 else i - 1
  }

  /** A two-vertex polygon is convex; otherwise vertex i is convex when it turns left. */
  function ConvexAt(vertices: seq<Vec3>, position: Vec3, i: nat): bool
    requires i < |vertices|
  {
    var n := |vertices|;
    n == 2 ||
    LeftOf(Add(vertices[PrevIndex(i, n)], position), Add(vertices[i], position),
           Add(vertices[NextIndex(i, n)], position)) >= 0.0
  }

  /** What AddStaticObstacle writes into the record of one vertex. */
  datatype EdgeSpec = EdgeSpec(point: Vec3, unitDir: Vec3, convex: bool)

  /**
   * The record contents of a polygon added from `vertices` at `position`: the moved
   * vertex, the (caller-normalised) direction to the next vertex, and the convexity.
   * AddStaticObstacle computes entry i as its loop reaches vertex i; none of them depends
   * on the store, so the model collects them before the loop.
   */
  function PolygonSpec(position: Vec3, vertices: seq<Vec3>, normalize: Vec3 -> Vec3): (spec: seq<EdgeSpec>)
    ensures |spec| == |vertices|
    ensures forall i :: 0 <= i < |vertices| ==>
      spec[i] == EdgeSpec(Add(vertices[i], position), normalize(Sub(vertices[NextIndex(i, |vertices|)], vertices[i])),
                          ConvexAt(vertices, position, i))
  {
    seq(|vertices|, i requires 0 <= i < |vertices| =>
      EdgeSpec(Add(vertices[i], position), normalize(Sub(vertices[NextIndex(i, |vertices|)], vertices[i])),
               ConvexAt(vertices, position, i)))
  }

  /** Record r is the record of vertex i of a polygon whose first id is `begin`. */
  ghost predicate PolygonRecord(r: RVOObstacle, i: nat, begin: int, spec: seq<EdgeSpec>)
    reads r`id, r`group, r`IsCircle, r`point, r`unitDir, r`IsConvex
    requires i < |spec|
  {
    r.id == begin + i && r.group == begin && !r.IsCircle &&
    r.point == spec[i].point && r.unitDir == spec[i].unitDir && r.IsConvex == spec[i].convex
  }

  /** rs holds the records of the first |rs| vertices, in order. */
  ghost predicate PolygonRecords(rs: seq<RVOObstacle>, begin: int, spec: seq<EdgeSpec>)
    reads rs`id, rs`group, rs`IsCircle, rs`point, rs`unitDir, rs`IsConvex
  {
    |rs| <= |spec| &&
    forall i :: 0 <= i < |rs| ==> PolygonRecord(rs[i], i, begin, spec)
  }

  /** Consecutive records are linked both ways (the chain is still open at its ends). */
  ghost predicate Chained(rs: seq<RVOObstacle>)
    reads rs`next, rs`prev
  {
    (forall i {:trigger rs[i].prev} :: 0 < i < |rs| ==> rs[i].prev == rs[i-1]) &&
    (forall i {:trigger rs[i].next} :: 0 <= i < |rs| - 1 ==> rs[i].next == rs[i+1])
  }

  /** The records of one polygon, linked into a cycle in vertex order. */
  ghost predicate PolygonCycle(rs: seq<RVOObstacle>, begin: int, spec: seq<EdgeSpec>)
    reads rs
  {
    |rs| == |spec| && |rs| > 0 &&
    PolygonRecords(rs, begin, spec) && Chained(rs) &&
    rs[|rs|-1].next == rs[0] && rs[0].prev == rs[|rs|-1]
  }

  /** In a cycle, every record's links point at the neighbouring vertices' records. */
  lemma CycleLinks(rs: seq<RVOObstacle>, begin: int, spec: seq<EdgeSpec>)
    requires PolygonCycle(rs, begin, spec)
    ensures forall i :: 0 <= i < |rs| ==> rs[i].next == rs[NextIndex(i, |rs|)] && rs[i].prev == rs[PrevIndex(i, |rs|)]
  {}

  // ---------------------------------------------------------------------------
  // The obstacle scanner

  /** The per-query scratch state: the agent being scanned and its obstacle neighbours. */
  class ScanerObser {
    var pNode: RVONode?
    var obstacleNeighbors: seq<(real, RVOObstacle)>
    var obstacleInsideSets: set<int>

    constructor ()
      ensures pNode == null && obstacleNeighbors == [] && obstacleInsideSets == {}
    {
      pNode, obstacleNeighbors, obstacleInsideSets := null, [], {};
    }

    method Clear()
      modifies this
      ensures pNode == null && obstacleNeighbors == [] && obstacleInsideSets == {}
    {
      pNode := null;
      obstacleNeighbors := [];
      obstacleInsideSets := {};
    }

    /**
     * Appends (distSq, obstacle) and shifts it left past every strictly larger key:
     * the list becomes InsertSorted of the old list.
     */
    method InsertNeighbor(distSq: real, obstacle: RVOObstacle)
      modifies this`obstacleNeighbors
      ensures obstacleNeighbors == InsertSorted(old(obstacleNeighbors), (distSq, obstacle))
    {
      obstacleNeighbors := Insert(obstacleNeighbors, (distSq, obstacle));
    }

    /**
     * insertObstacleNeighbor: the edge from obstacle.point to obstacle.next.point is
     * inserted, keyed by its squared distance to the scanned agent, only when that
     * distance is below rangeSq. A degenerate edge has a NaN distance and is never
     * inserted.
     */
    method InsertObstacleNeighbor(obstacle: RVOObstacle, rangeSq: real)
      requires pNode != null && obstacle.next != null
      modifies this`obstacleNeighbors
      ensures obstacle.point == obstacle.next.point ==> obstacleNeighbors == old(obstacleNeighbors)
      ensures obstacle.point != obstacle.next.point ==>
        var d := DistSqPointLineSegment(obstacle.point, obstacle.next.point, pNode.GetPosition());
        obstacleNeighbors == if d < rangeSq then InsertSorted(old(obstacleNeighbors), (d, obstacle))
                             else old(obstacleNeighbors)
      ensures Sorted(old(obstacleNeighbors)) ==> Sorted(obstacleNeighbors)
    {
      var nextObstacle := obstacle.next;
      if obstacle.point == nextObstacle.point {
        return;
      }
      var distSq := DistSqPointLineSegment(obstacle.point, nextObstacle.point, pNode.GetPosition());
      if distSq < rangeSq {
        if Sorted(obstacleNeighbors) {
          InsertSortedSorted(obstacleNeighbors, (distSq, obstacle));
        }
        InsertNeighbor(distSq, obstacle);
      }
    }

    /** insertCircleObstacleNeighbor: only circle records are inserted; rangeSq is not used. */
    method InsertCircleObstacleNeighbor(obstacle: RVOObstacle, distSq: real, rangeSq: real)
      modifies this`obstacleNeighbors
      ensures !obstacle.IsCircle ==> obstacleNeighbors == old(obstacleNeighbors)
      ensures obstacle.IsCircle ==>
        obstacleNeighbors == InsertSorted(old(obstacleNeighbors), (distSq, obstacle))
      ensures Sorted(old(obstacleNeighbors)) ==> Sorted(obstacleNeighbors)
    {
      if !obstacle.IsCircle {
        return;
      }
      if Sorted(obstacleNeighbors) {
        InsertSortedSorted(obstacleNeighbors, (distSq, obstacle));
      }
      InsertNeighbor(distSq, obstacle);
    }
  }

  // ---------------------------------------------------------------------------
  // The world

  /** The singleton set of a possibly-null reference. */
  function Opt(x: RVONode?): set<RVONode> {
    if x == null then {} else {x}
  }

  /** The top of a stack kept as a sequence (top at the end), as a frame. */
  function Top<T>(s: seq<T>): set<T> {
    if |s| == 0 then {} else {s[|s|-1]}
  }

  /** A prefix of a distinct sequence is distinct and misses the entries cut off. */
  lemma PoolPrefix<T>(s: seq<T>, n: nat)
    requires n <= |s| && Distinct(s)
    ensures Distinct(s[..n])
    ensures forall i :: n <= i < |s| ==> s[i] !in s[..n]
  {
    forall i | n <= i < |s| ensures s[i] !in s[..n] {
      forall k | 0 <= k < n ensures s[..n][k] != s[i] {
        assert s[..n][k] == s[k];
      }
    }
  }

  /**
   * The ignore filter of QueryRadius: an index loop that deletes in place every entry
   * equal to `x`, stepping past the others.
   */
  method RemoveEvery(s: seq<int>, x: int) returns (r: seq<int>)
    ensures r == Without(s, x)
    ensures forall y :: y in r <==> y in s && y != x
  {
    r := s;
    var i := 0;
    ghost var k := 0;
    while i < |r|
      invariant 0 <= k <= |s| && i == |Without(s[..k], x)|
      invariant r == Without(s[..k], x) + s[k..]
      decreases |r| - i
    {
      WithoutStep(s, k, x, r, i);
      if r[i] == x {
        r := r[..i] + r[i+1..];
      } else {
        i := i + 1;
      }
      k := k + 1;
    }
    assert s[..k] == s;
    WithoutMembers(s, x);
  }

  class WorldPhysic {
    var nodeId: int
    var staticGenId: int
    var root: RVONode?
    var tail: RVONode?
    var nodes: map<int, RVONode>
    var dealNode: RVONode?
    var destroyList: seq<RVONode>
    var nodePool: seq<RVONode>
    var dirtyObs: bool
    var staticObs: seq<RVOObstacle>
    var circleObs: seq<RVOObstacle>
    var obsPool: seq<RVOObstacle>
    /** The node sequence last handed to the KD index; node kdAgents[i] was given index i. */
    var kdAgents: seq<RVONode>
    const scaner: ScanerObser
    /** The linked nodes from m_pRoot to m_pTail, in order. */
    ghost var list: seq<RVONode>

    /** root..tail is exactly `list`, doubly linked and without repetition. */
    ghost predicate Linked()
      reads this`root, this`tail, this`list, list`next, list`prev
    {
      Distinct(list) &&
      (root == null <==> |list| == 0) && (tail == null <==> |list| == 0) &&
      (|list| > 0 ==> root == list[0] && tail == list[|list|-1] &&
                      list[0].prev == null && list[|list|-1].next == null) &&
      (forall i {:trigger list[i].prev} :: 0 < i < |list| ==> list[i].prev == list[i-1]) &&
      (forall i {:trigger list[i].next} :: 0 <= i < |list| - 1 ==> list[i].next == list[i+1])
    }

    /**
     * The id map holds exactly the linked nodes that are not destroyed, each under its own
     * id, all below the next id to issue; the cache, when set, is one of them.
     */
    ghost predicate Registry()
      reads this`nodes, this`nodeId, this`dealNode, this`list, list`id
    {
      (forall k :: k in nodes ==> nodes[k] in list && nodes[k].id == k && 0 < k < nodeId) &&
      (forall i {:trigger list[i].id} :: 0 <= i < |list| && list[i].id > 0 ==> list[i].id in nodes && nodes[list[i].id] == list[i]) &&
      (dealNode != null ==> dealNode in list && dealNode.id in nodes && nodes[dealNode.id] == dealNode)
    }

    /** Pooled slots are destroyed, unlinked, distinct and at most 64. */
    ghost predicate NodePoolOK()
      reads this`nodePool, this`list, nodePool`id, nodePool`next, nodePool`prev,
            nodePool`velocity, nodePool`advSpeed
    {
      |nodePool| <= NodePoolCapacity && Distinct(nodePool) && Disjoint(nodePool, list) &&
      forall i :: 0 <= i < |nodePool| ==>
        nodePool[i].id == 0 && nodePool[i].next == null && nodePool[i].prev == null &&
        nodePool[i].velocity == Zero && nodePool[i].advSpeed == Zero
    }

    /** No obstacle record is held twice, and at most 32 are pooled. */
    ghost predicate ObstacleStore()
      reads this`obsPool, this`staticObs, this`circleObs
    {
      |obsPool| <= ObstaclePoolCapacity &&
      Distinct(staticObs) && Distinct(circleObs) && Distinct(obsPool) &&
      Disjoint(staticObs, circleObs) && Disjoint(staticObs, obsPool) && Disjoint(circleObs, obsPool)
    }

    ghost predicate Valid()
      reads this`root, this`tail, this`list, list`next, list`prev,
            this`nodes, this`nodeId, this`dealNode, list`id,
            this`nodePool, nodePool`id, nodePool`next, nodePool`prev, nodePool`velocity, nodePool`advSpeed,
            this`obsPool, this`staticObs, this`circleObs, this`staticGenId
    {
      Linked() && Registry() && NodePoolOK() && ObstacleStore() && 1 <= nodeId && 1 <= staticGenId
    }

    /** The list shape survives any step that leaves the list, its ends and its links alone. */
    twostate lemma LinkedFrame()
      requires old(Linked())
      requires unchanged(this`root, this`tail, this`list)
      requires forall n :: n in old(list) ==> unchanged(n`next, n`prev)
      ensures Linked()
    {
      assert list == old(list);
      forall i | 0 <= i < |list| ensures list[i].next == old(list[i].next) && list[i].prev == old(list[i].prev) {
        assert list[i] in old(list);
      }
    }

    /** The registry survives any step that only raises the id counter and leaves linked ids alone. */
    twostate lemma RegistryFrame()
      requires old(Registry())
      requires unchanged(this`nodes, this`dealNode, this`list) && old(nodeId) <= nodeId
      requires forall n :: n in old(list) ==> unchanged(n`id)
      ensures Registry()
    {
      assert list == old(list);
      forall i | 0 <= i < |list| ensures list[i].id == old(list[i].id) {
        assert list[i] in old(list);
      }
    }

    /**
     * The pool invariant survives any step that leaves the pool and the pooled slots alone
     * and links nothing that is pooled.
     */
    twostate lemma PoolFrame()
      requires old(NodePoolOK())
      requires unchanged(this`nodePool)
      requires forall n :: n in old(nodePool) ==> unchanged(n`id, n`next, n`prev, n`velocity, n`advSpeed)
      requires forall n :: n in list ==> n in old(list) || n !in nodePool
      ensures NodePoolOK()
    {
      assert nodePool == old(nodePool);
      forall i | 0 <= i < |nodePool|
        ensures nodePool[i].id == old(nodePool[i].id) && nodePool[i].next == old(nodePool[i].next)
        ensures nodePool[i].prev == old(nodePool[i].prev) && nodePool[i].velocity == old(nodePool[i].velocity)
        ensures nodePool[i].advSpeed == old(nodePool[i].advSpeed)
      {
        assert nodePool[i] in old(nodePool);
      }
      forall i, j | 0 <= i < |nodePool| && 0 <= j < |list| ensures nodePool[i] != list[j] {
        assert list[j] in list;
        if list[j] in old(list) {
          var k :| 0 <= k < |old(list)| && old(list)[k] == list[j];
          assert old(nodePool)[i] != old(list)[k];
        }
      }
    }

    /** Appending an unlinked slot p at the tail keeps the list shape. */
    twostate lemma LinkedAppend(p: RVONode)
      requires old(Linked()) && p !in old(list)
      requires list == old(list) + [p]
      requires root == (if old(root) == null then p else old(root)) && tail == p
      requires p.next == null && p.prev == old(tail)
      requires old(tail) != null ==> old(tail).next == p
      requires forall n :: n in old(list) && n != old(tail) ==> unchanged(n`next)
      requires forall n :: n in old(list) ==> unchanged(n`prev)
      ensures Linked()
    {
      DistinctAppend(old(list), p);
      var L := old(list);
      if |L| > 0 {
        assert list[0] == L[0] && L[0] in L;
      }
      forall i | 0 < i < |list| ensures list[i].prev == list[i-1] {
        if i < |L| {
          assert list[i] == L[i] && list[i] in L;
        }
      }
      forall i | 0 <= i < |list| - 1 ensures list[i].next == list[i+1] {
        assert list[i] == L[i] && list[i] in L;
        if i < |L| - 1 {
          assert L[i] != L[|L|-1];
        }
      }
    }

    /** Registering a stamped slot p under its own unused id, as it is appended to the list, keeps the registry. */
    twostate lemma RegistryAppend(p: RVONode)
      requires old(Registry()) && p !in old(list)
      requires list == old(list) + [p]
      requires 0 < p.id < nodeId && old(nodeId) <= nodeId && p.id !in old(nodes)
      requires nodes == old(nodes)[p.id := p] && unchanged(this`dealNode)
      requires forall n :: n in old(list) ==> unchanged(n`id)
      ensures Registry()
    {
      var L := old(list);
      forall k | k in nodes ensures nodes[k] in list && nodes[k].id == k && 0 < k < nodeId {
        if k != p.id {
          assert old(nodes)[k] in L;
        }
      }
      forall i | 0 <= i < |list| && list[i].id > 0 ensures list[i].id in nodes && nodes[list[i].id] == list[i] {
        if i < |L| {
          assert list[i] == L[i] && L[i] in L;
          assert L[i].id < old(nodeId);
        }
      }
      if dealNode != null {
        assert dealNode in L;
      }
    }

    /** Unlinking list[i], whose neighbours are joined to each other, keeps the list shape. */
    twostate lemma LinkedRemove(i: nat)
      requires old(Linked()) && i < |old(list)|
      requires list == old(list[..i] + list[i+1..])
      requires root == (if old(root) == old(list[i]) then old(list[i].next) else old(root))
      requires tail == (if old(tail) == old(list[i]) then old(list[i].prev) else old(tail))
      requires old(list[i].prev) != null ==> old(list[i].prev).next == old(list[i].next)
      requires old(list[i].next) != null ==> old(list[i].next).prev == old(list[i].prev)
      requires forall n :: n in old(list) && n != old(list[i].prev) ==> unchanged(n`next)
      requires forall n :: n in old(list) && n != old(list[i].next) ==> unchanged(n`prev)
      ensures Linked()
    {
      var L := old(list);
      var p := L[i];
      assert old(p.prev) == (if i > 0 then L[i-1] else null);
      assert old(p.next) == (if i < |L| - 1 then L[i+1] else null);
      forall a, b | 0 <= a < b < |list| ensures list[a] != list[b] {
        var a' := if a < i then a else a + 1;
        var b' := if b < i then b else b + 1;
        assert list[a] == L[a'] && list[b] == L[b'];
      }
      forall k | 0 < k < |list| ensures list[k].prev == list[k-1] {
        var k' := if k < i then k else k + 1;
        assert list[k] == L[k'] && L[k'] in L;
        if k' != i + 1 {
          assert i + 1 >= |L| || L[k'] != L[i+1];
        }
      }
      forall k | 0 <= k < |list| - 1 ensures list[k].next == list[k+1] {
        var k' := if k < i then k else k + 1;
        assert list[k] == L[k'] && L[k'] in L;
        if k' != i - 1 && i > 0 {
          assert L[k'] != L[i-1];
        }
      }
      if |list| > 0 {
        var f := if 0 < i then 0 else 1;
        var e := if |L| - 1 > i then |L| - 1 else |L| - 2;
        assert list[0] == L[f] && L[f] in L;
        assert list[|list|-1] == L[e] && L[e] in L;
        if f != i + 1 {
          assert i + 1 >= |L| || L[f] != L[i+1];
        }
        if e != i - 1 && i > 0 {
          assert L[e] != L[i-1];
        }
      }
    }

    /**
     * Unlinking list[i] and, when asked, dropping its id keeps the registry, provided a
     * slot whose id stays in the map is destroyed (and so was never under a key).
     */
    twostate lemma RegistryRemove(i: nat, new removeMaps: bool)
      requires old(Registry()) && Distinct(old(list)) && i < |old(list)|
      requires list == old(list[..i] + list[i+1..])
      requires removeMaps || old(list[i].id) <= 0
      requires nodes == (if removeMaps then old(nodes) - {old(list[i].id)} else old(nodes))
      requires dealNode == (if old(dealNode) == old(list[i]) then null else old(dealNode))
      requires unchanged(this`nodeId)
      requires forall n :: n in old(list) ==> unchanged(n`id)
      ensures Registry()
    {
      var L := old(list);
      var p := L[i];
      forall j | 0 <= j < |L| && j != i ensures L[j] in list {
        if j < i {
          assert list[j] == L[j];
        } else {
          assert list[j-1] == L[j];
        }
      }
      forall k | k in nodes ensures nodes[k] in list && nodes[k].id == k && 0 < k < nodeId {
        var j :| 0 <= j < |L| && L[j] == old(nodes)[k];
        assert L[j] in L;
      }
      forall k | 0 <= k < |list| && list[k].id > 0 ensures list[k].id in nodes && nodes[list[k].id] == list[k] {
        var k' := if k < i then k else k + 1;
        assert list[k] == L[k'] && L[k'] in L && L[k'] != p;
        if old(p.id) > 0 {
          assert old(nodes)[old(p.id)] == p;
        }
      }
      if dealNode != null {
        assert old(dealNode) in L;
        if old(p.id) > 0 {
          assert old(nodes)[old(p.id)] == p;
        }
      }
    }

    /** The obstacle store depends on the three obstacle sequences alone. */
    twostate lemma ObstacleFrame()
      requires old(ObstacleStore()) && unchanged(this`obsPool, this`staticObs, this`circleObs)
      ensures ObstacleStore()
    {
      assert obsPool == old(obsPool) && staticObs == old(staticObs) && circleObs == old(circleObs);
    }

    /** Pushing a destroyed, unlinked slot onto the bounded pool keeps the pool invariant. */
    twostate lemma PoolPush(p: RVONode)
      requires old(NodePoolOK()) && p !in old(nodePool) && p !in list && unchanged(this`list)
      requires nodePool == Push(old(nodePool), p, NodePoolCapacity)
      requires p.id == 0 && p.next == null && p.prev == null && p.velocity == Zero && p.advSpeed == Zero
      requires forall n :: n in old(nodePool) ==> unchanged(n`id, n`next, n`prev, n`velocity, n`advSpeed)
      ensures NodePoolOK()
    {
      var P := old(nodePool);
      forall k | 0 <= k < |P|
        ensures P[k].id == old(P[k].id) && P[k].next == old(P[k].next) && P[k].prev == old(P[k].prev)
        ensures P[k].velocity == old(P[k].velocity) && P[k].advSpeed == old(P[k].advSpeed)
      {
        assert P[k] in P;
      }
      if |P| < NodePoolCapacity {
        DistinctAppend(P, p);
        assert nodePool == P + [p];
        forall a, b | 0 <= a < |nodePool| && 0 <= b < |list| ensures nodePool[a] != list[b] {
          if a < |P| {
            assert nodePool[a] == P[a];
          }
        }
      }
    }

    constructor ()
      ensures Valid() && fresh(scaner)
      ensures list == [] && nodes == map[] && nodePool == [] && dealNode == null
      ensures nodeId == 1 && staticGenId == 1 && !dirtyObs
      ensures staticObs == [] && circleObs == [] && obsPool == [] && kdAgents == [] && destroyList == []
    {
      nodeId, staticGenId := 1, 1;
      root, tail, dealNode := null, null, null;
      nodes := map[];
      destroyList, nodePool := [], [];
      dirtyObs := false;
      staticObs, circleObs, obsPool := [], [], [];
      kdAgents := [];
      scaner := new ScanerObser();
      list := [];
    }

    // -------------------------------------------------------------------------
    // Slot pools

    /** The slot MallocNode hands out: the top of the pool, popped, or a new slot. */
    method TakeSlot() returns (p: RVONode)
      requires Valid()
      modifies this`nodePool
      ensures Valid()
      ensures |old(nodePool)| > 0 ==> p == old(nodePool[|nodePool|-1]) && nodePool == old(nodePool[..|nodePool|-1])
      ensures |old(nodePool)| == 0 ==> fresh(p) && nodePool == [] && p.weight == 1.0
      ensures p !in list && p !in nodePool && p.next == null && p.prev == null && p.id == 0
      ensures p.velocity == Zero && p.advSpeed == Zero
    {
      if |nodePool| > 0 {
        p := nodePool[|nodePool|-1];
        PoolPrefix(nodePool, |nodePool| - 1);
        nodePool := nodePool[..|nodePool|-1];
      } else {
        p := new RVONode();
      }
    }

    /** MallocNode: the top pooled slot, or a new one, stamped with the next id. */
    method MallocNode() returns (p: RVONode)
      requires Valid() && nodeId < Int32Max
      modifies this`nodeId, this`nodePool, Top(nodePool)`id
      ensures Valid()
      ensures p.id == old(nodeId) && nodeId == old(nodeId) + 1 && p.id !in nodes
      ensures !p.IsDestroy()
      ensures |old(nodePool)| > 0 ==> p == old(nodePool[|nodePool|-1]) && nodePool == old(nodePool[..|nodePool|-1])
      ensures |old(nodePool)| == 0 ==> fresh(p) && nodePool == [] && p.weight == 1.0
      ensures p !in list && p !in nodePool && p.next == null && p.prev == null
      ensures p.velocity == Zero && p.advSpeed == Zero
    {
      p := TakeSlot();
      label taken:
      p.SetId(nodeId);
      nodeId := nodeId + 1;
      LinkedFrame@taken();
      RegistryFrame@taken();
      PoolFrame@taken();
    }

    /** FreeNode: destroy the slot and keep it only while fewer than 64 are pooled. */
    method FreeNode(p: RVONode)
      requires p !in nodePool
      modifies this`nodePool, p
      ensures nodePool == Push(old(nodePool), p, NodePoolCapacity)
      ensures p.id == 0 && p.dummyId == 0 && p.next == null && p.prev == null
      ensures p.position == Zero && p.prefSpeed == Zero && p.advSpeed == Zero && p.velocity == Zero
      ensures p.physicRadius == 0.0 && p.weight == old(p.weight)
    {
      p.Destroy();
      if |nodePool| < NodePoolCapacity {
        nodePool := nodePool + [p];
      }
    }

    // -------------------------------------------------------------------------
    // The agent registry

    /** The linking half of AttachNode: p is appended after the tail (or becomes the root). */
    method LinkTail(p: RVONode)
      requires Linked() && p !in list && p.next == null && p.prev == null
      modifies this`root, this`tail, this`list, Opt(tail)`next, p`prev
      ensures Linked() && list == old(list) + [p] && tail == p
    {
      if root == null {
        root := p;
      }
      if tail == null {
        tail := root;
      } else {
        tail.next := p;
        p.prev := tail;
      }
      tail := p;
      list := list + [p];
      LinkedAppend(p);
    }

    /**
     * The body of AddNode after MallocNode: p goes after the tail, takes the caller's data
     * and is entered in the id map.
     */
    method AttachNode(p: RVONode, position: Vec3, speed: Vec3, radius: real, dummyID: int)
      requires Valid() && p !in list && p !in nodePool && p.next == null && p.prev == null
      requires 0 < p.id < nodeId && p.id !in nodes
      modifies this`root, this`tail, this`nodes, this`list, Opt(tail)`next, p`prev,
               p`dummyId, p`position, p`prefSpeed, p`physicRadius
      ensures Valid()
      ensures list == old(list) + [p] && tail == p && nodes == old(nodes)[p.id := p]
      ensures p.dummyId == dummyID && p.position == position && p.prefSpeed == speed && p.physicRadius == radius
    {
      label start:
      LinkTail(p);
      label linked:
      p.dummyId := dummyID;
      p.position := position;
      p.prefSpeed := speed;
      p.physicRadius := radius;
      nodes := nodes[p.id := p];
      LinkedFrame@linked();
      RegistryAppend@start(p);
      PoolFrame@start();
      ObstacleFrame@start();
    }

    /**
     * AddNode: the new slot becomes the tail and is registered under the id it returns,
     * which is the counter value before the call; the counter moves on, so no id issued
     * since the last Clear is issued again.
     */
    method AddNode(position: Vec3, speed: Vec3, radius: real, dummyID: int := -1) returns (nid: int)
      requires Valid() && nodeId < Int32Max
      modifies this`nodeId, this`nodePool, this`root, this`tail, this`nodes, this`list,
               Opt(tail)`next, Top(nodePool)
      ensures Valid()
      ensures nid == old(nodeId) && nodeId == nid + 1 && nid !in old(nodes)
      ensures tail != null && list == old(list) + [tail]
      ensures nodes == old(nodes)[nid := tail]
      ensures tail.id == nid && tail.dummyId == dummyID && tail.position == position
      ensures tail.prefSpeed == speed && tail.physicRadius == radius
      ensures tail.velocity == Zero && tail.advSpeed == Zero
      ensures |old(nodePool)| > 0 ==>
        tail == old(nodePool[|nodePool|-1]) && tail.weight == old(nodePool[|nodePool|-1].weight) &&
        nodePool == old(nodePool[..|nodePool|-1])
      ensures |old(nodePool)| == 0 ==> fresh(tail) && tail.weight == 1.0 && nodePool == []
    {
      var p := MallocNode();
      AttachNode(p, position, speed, radius, dummyID);
      nid := p.id;
    }

    /** Joins the neighbours of a slot being unlinked to each other. */
    static method Splice(prev: RVONode?, next: RVONode?)
      modifies Opt(prev)`next, Opt(next)`prev
      ensures prev != null ==> prev.next == next
      ensures next != null ==> next.prev == prev
    {
      if prev != null {
        prev.SetNext(next);
      }
      if next != null {
        next.SetPrev(prev);
      }
    }

    /** The list half of unlinking p: its neighbours are joined and root and tail move off it. */
    method UnlinkList(p: RVONode) returns (ghost i: nat)
      requires Linked() && p in list
      modifies this`root, this`tail, this`list, Opt(p.prev)`next, Opt(p.next)`prev
      ensures Linked() && i < |old(list)| && p == old(list[i])
      ensures list == old(list[..i] + list[i+1..])
      ensures list == Without(old(list), p)
      ensures p !in list
    {
      i :| 0 <= i < |list| && list[i] == p;
      label joined:
      var prev := p.GetPrev();
      var next := p.GetNext();
      Splice(prev, next);
      if root == p {
        root := next;
      }
      if tail == p {
        tail := prev;
      }
      list := list[..i] + list[i+1..];
      LinkedRemove@joined(i);
      WithoutAt(old(list), i);
      WithoutMembers(old(list), p);
    }

    /** The map half of unlinking p: its id optionally leaves the map and the cache forgets it. */
    method Forget(p: RVONode, removeMaps: bool)
      modifies this`nodes, this`dealNode
      ensures nodes == if removeMaps then old(nodes) - {p.id} else old(nodes)
      ensures dealNode == if old(dealNode) == p then null else old(dealNode)
    {
      if removeMaps {
        nodes := nodes - {p.GetID()};
      }
      if dealNode == p {
        dealNode := null;
      }
    }

    /**
     * The first half of RemoveNode(pNode, bRemoveMaps): the slot is unlinked, its id
     * optionally leaves the map and the cache forgets it.
     */
    method UnlinkNode(p: RVONode, removeMaps: bool)
      requires Valid() && p in list && (removeMaps || p.IsDestroy())
      modifies this`root, this`tail, this`nodes, this`dealNode, this`list,
               Opt(p.prev)`next, Opt(p.next)`prev
      ensures Valid() && p !in list && p !in nodePool
      ensures list == Without(old(list), p)
      ensures nodes == if removeMaps then old(nodes) - {p.id} else old(nodes)
      ensures dealNode == if old(dealNode) == p then null else old(dealNode)
    {
      label start:
      ghost var i := UnlinkList(p);
      Forget(p, removeMaps);
      RegistryRemove@start(i, removeMaps);
      PoolFrame@start();
      ObstacleFrame@start();
    }

    /**
     * RemoveNode(pNode, bRemoveMaps): unlink the slot, moving root and tail as needed,
     * optionally drop its id from the map, forget it in the cache, and free it. A slot
     * that stays in the map must already be destroyed, or the map would keep a freed slot.
     */
    method RemoveNodeObject(p: RVONode, removeMaps: bool)
      requires Valid() && p in list && (removeMaps || p.IsDestroy())
      modifies this`root, this`tail, this`nodes, this`dealNode, this`nodePool, this`list,
               Opt(p.prev)`next, Opt(p.next)`prev, p
      ensures Valid()
      ensures list == Without(old(list), p)
      ensures nodes == if removeMaps then old(nodes) - {old(p.id)} else old(nodes)
      ensures dealNode == if old(dealNode) == p then null else old(dealNode)
      ensures nodePool == Push(old(nodePool), p, NodePoolCapacity)
      ensures p.id == 0 && p.next == null && p.prev == null && p.weight == old(p.weight)
    {
      UnlinkNode(p, removeMaps);
      label unlinked:
      FreeNode(p);
      LinkedFrame@unlinked();
      RegistryFrame@unlinked();
      PoolPush@unlinked(p);
    }

    // -------------------------------------------------------------------------
    // Lookup by id and the per-node accessors

    /** The slot registered under `nid`, as a frame: empty when the id is unknown. */
    function Lookup(nid: int): set<RVONode>
      reads this`nodes
    {
      if nid in nodes then {nodes[nid]} else {}
    }

    /** Caching a registered slot in the one-entry cache keeps the registry. */
    twostate lemma CacheFrame()
      requires old(Registry()) && unchanged(this`nodes, this`nodeId, this`list)
      requires forall n :: n in old(list) ==> unchanged(n`id)
      requires dealNode != null ==> dealNode.id in nodes && nodes[dealNode.id] == dealNode
      ensures Registry()
    {
      assert list == old(list);
      forall i | 0 <= i < |list| ensures list[i].id == old(list[i].id) {
        assert list[i] in old(list);
      }
      if dealNode != null {
        var k := dealNode.id;
        assert nodes == old(nodes) && k in old(nodes);
        assert old(nodes[k] in list);
      }
    }

    /**
     * GetNode: the cache is only a shortcut. The result is the slot the id map holds
     * under `nid`, or null when there is none; a found slot becomes the cached one.
     */
    method GetNode(nid: int) returns (p: RVONode?)
      requires Valid()
      modifies this`dealNode
      ensures Valid()
      ensures p == (if nid in nodes then nodes[nid] else null)
      ensures p != null ==> p in list && p.id == nid && dealNode == p
      ensures p == null ==> dealNode == old(dealNode)
    {
      if dealNode != null && dealNode.GetID() == nid {
        return dealNode;
      }
      if nid in nodes {
        p := nodes[nid];
        dealNode := p;
        CacheFrame();
        return p;
      }
      p := null;
    }

    /** RemoveNode(nodeId): a registered slot is removed on the public path; an unknown id changes nothing. */
    method RemoveNode(nid: int)
      requires Valid()
      modifies this`root, this`tail, this`nodes, this`dealNode, this`nodePool, this`list,
               list`next, list`prev, Lookup(nid)
      ensures Valid()
      ensures nid !in old(nodes) ==> list == old(list) && nodes == old(nodes) && nodePool == old(nodePool)
      ensures nid !in old(nodes) ==> dealNode == old(dealNode)
      ensures nid in old(nodes) ==>
        var p := old(nodes[nid]);
        list == Without(old(list), p) && nodes == old(nodes) - {nid} && dealNode == null &&
        nodePool == Push(old(nodePool), p, NodePoolCapacity) &&
        p.id == 0 && p.next == null && p.prev == null && p.weight == old(p.weight)
    {
      var p := GetNode(nid);
      if p == null {
        return;
      }
      RemoveNodeObject(p, true);
    }

    /** GetNodeDummyID: the slot's dummy id, or -1 for an unknown id. */
    method GetNodeDummyID(nid: int) returns (d: int)
      requires Valid()
      modifies this`dealNode
      ensures Valid()
      ensures d == (if nid in nodes then nodes[nid].dummyId else -1)
    {
      var p := GetNode(nid);
      if p == null {
        return -1;
      }
      d := p.GetDummyID();
    }

    /** GetNodeWeight: the slot's weight, or 0 for an unknown id. */
    method GetNodeWeight(nid: int) returns (w: real)
      requires Valid()
      modifies this`dealNode
      ensures Valid()
      ensures w == (if nid in nodes then nodes[nid].weight else 0.0)
    {
      var p := GetNode(nid);
      if p == null {
        return 0.0;
      }
      w := p.GetWeight();
    }

    /** GetNodePosition: the slot's position, or the zero vector for an unknown id. */
    method GetNodePosition(nid: int) returns (v: Vec3)
      requires Valid()
      modifies this`dealNode
      ensures Valid()
      ensures v == (if nid in nodes then nodes[nid].position else Zero)
    {
      var p := GetNode(nid);
      if p == null {
        return Zero;
      }
      v := p.GetPosition();
    }

    /** GetNodePrefSpeed: the slot's preferred speed, or the zero vector for an unknown id. */
    method GetNodePrefSpeed(nid: int) returns (v: Vec3)
      requires Valid()
      modifies this`dealNode
      ensures Valid()
      ensures v == (if nid in nodes then nodes[nid].prefSpeed else Zero)
    {
      var p := GetNode(nid);
      if p == null {
        return Zero;
      }
      v := p.GetPrefSpeed();
    }

    /** GetNodePhysicRadius: the slot's radius, or 0 for an unknown id. */
    method GetNodePhysicRadius(nid: int) returns (r: real)
      requires Valid()
      modifies this`dealNode
      ensures Valid()
      ensures r == (if nid in nodes then nodes[nid].physicRadius else 0.0)
    {
      var p := GetNode(nid);
      if p == null {
        return 0.0;
      }
      r := p.GetPhysicRadius();
    }

    /** SetNodeWeight: sets the registered slot's weight; an unknown id changes nothing. */
    method SetNodeWeight(nid: int, weight: real)
      requires Valid()
      modifies this`dealNode, Lookup(nid)`weight
      ensures Valid()
      ensures nid in nodes ==> nodes[nid].weight == weight
      ensures nid !in nodes ==> dealNode == old(dealNode)
    {
      var p := GetNode(nid);
      if p == null {
        return;
      }
      p.SetWeight(weight);
    }

    /** SetNodePosition: moves the registered slot; an unknown id changes nothing. */
    method SetNodePosition(nid: int, position: Vec3)
      requires Valid()
      modifies this`dealNode, Lookup(nid)`position
      ensures Valid()
      ensures nid in nodes ==> nodes[nid].position == position
      ensures nid !in nodes ==> dealNode == old(dealNode)
    {
      var p := GetNode(nid);
      if p == null {
        return;
      }
      p.SetPosition(position);
    }

    /** SetNodePrefSpeed: sets the registered slot's preferred speed; an unknown id changes nothing. */
    method SetNodePrefSpeed(nid: int, speed: Vec3)
      requires Valid()
      modifies this`dealNode, Lookup(nid)`prefSpeed
      ensures Valid()
      ensures nid in nodes ==> nodes[nid].prefSpeed == speed
      ensures nid !in nodes ==> dealNode == old(dealNode)
    {
      var p := GetNode(nid);
      if p == null {
        return;
      }
      p.SetPrefSpeed(speed);
    }

    /**
     * SetNodeTargetPositon: steers the registered slot towards targetPos in the ground
     * plane at moveSpeed (1 by default); an unknown id changes nothing.
     */
    method SetNodeTargetPositon(nid: int, targetPos: Vec3, magnitude: Vec3 -> real, moveSpeed: real := 1.0)
      requires Valid()
      modifies this`dealNode, Lookup(nid)`prefSpeed
      ensures Valid()
      ensures nid in nodes ==>
        nodes[nid].prefSpeed == Scale(Normalized(Sub(targetPos, nodes[nid].position).(y := 0.0), magnitude), moveSpeed) &&
        nodes[nid].prefSpeed.y == 0.0
      ensures nid !in nodes ==> dealNode == old(dealNode)
    {
      var p := GetNode(nid);
      if p == null {
        return;
      }
      p.SetNodeTargetPositon(targetPos, moveSpeed, magnitude);
    }

    /** SetNodeAdvSpeed: sets the registered slot's advisory speed; an unknown id changes nothing. */
    method SetNodeAdvSpeed(nid: int, speed: Vec3)
      requires Valid()
      modifies this`dealNode, Lookup(nid)`advSpeed
      ensures Valid()
      ensures nid in nodes ==> nodes[nid].advSpeed == speed
      ensures nid !in nodes ==> dealNode == old(dealNode)
    {
      var p := GetNode(nid);
      if p == null {
        return;
      }
      label found:
      p.SetAdvSpeed(speed);
      PoolFrame@found();
    }

    /** SetNodeVelocity: sets the registered slot's velocity; an unknown id changes nothing. */
    method SetNodeVelocity(nid: int, speed: Vec3)
      requires Valid()
      modifies this`dealNode, Lookup(nid)`velocity
      ensures Valid()
      ensures nid in nodes ==> nodes[nid].velocity == speed
      ensures nid !in nodes ==> dealNode == old(dealNode)
    {
      var p := GetNode(nid);
      if p == null {
        return;
      }
      label found:
      p.SetVelocity(speed);
      PoolFrame@found();
    }

    /** SetNodePhysicRadius: sets the registered slot's radius; an unknown id changes nothing. */
    method SetNodePhysicRadius(nid: int, radius: real)
      requires Valid()
      modifies this`dealNode, Lookup(nid)`physicRadius
      ensures Valid()
      ensures nid in nodes ==> nodes[nid].physicRadius == radius
      ensures nid !in nodes ==> dealNode == old(dealNode)
    {
      var p := GetNode(nid);
      if p == null {
        return;
      }
      p.SetPhysicRadius(radius);
    }

    // -------------------------------------------------------------------------
    // The static obstacle store

    /** MallocObstacle: the top pooled record, popped, or a new one. */
    method MallocObstacle() returns (o: RVOObstacle)
      requires ObstacleStore()
      modifies this`obsPool
      ensures ObstacleStore()
      ensures |old(obsPool)| > 0 ==> o == old(obsPool[|obsPool|-1]) && obsPool == old(obsPool[..|obsPool|-1])
      ensures |old(obsPool)| == 0 ==> fresh(o) && obsPool == []
      ensures o !in staticObs && o !in circleObs && o !in obsPool
    {
      if |obsPool| > 0 {
        o := obsPool[|obsPool|-1];
        PoolPrefix(obsPool, |obsPool| - 1);
        obsPool := obsPool[..|obsPool|-1];
      } else {
        o := new RVOObstacle();
      }
    }

    /** FreeObstacle: the record is kept only while fewer than 32 are pooled. */
    method FreeObstacle(o: RVOObstacle)
      modifies this`obsPool
      ensures obsPool == Push(old(obsPool), o, ObstaclePoolCapacity)
    {
      if |obsPool| < ObstaclePoolCapacity {
        obsPool := obsPool + [o];
      }
    }

    /**
     * One step of AddStaticObstacle before linking: record i of the polygon, taken from
     * the pool or new, with its point, the next generator id, the group, its edge direction
     * and its convexity.
     */
    method NewEdgeRecord(spec: seq<EdgeSpec>, begin: int, i: nat) returns (obs: RVOObstacle)
      requires ObstacleStore() && i < |spec| && staticGenId == begin + i
      modifies this`obsPool, this`staticGenId, obsPool
      ensures ObstacleStore() && staticGenId == old(staticGenId) + 1
      ensures PolygonRecord(obs, i, begin, spec)
      ensures |old(obsPool)| > 0 ==> obs == old(obsPool[|obsPool|-1]) && obsPool == old(obsPool[..|obsPool|-1])
      ensures |old(obsPool)| == 0 ==> fresh(obs) && obsPool == []
      ensures obs !in staticObs && obs !in circleObs && obs !in obsPool
    {
      obs := MallocObstacle();
      obs.point := spec[i].point;
      obs.id := staticGenId;
      staticGenId := staticGenId + 1;
      obs.group := begin;
      obs.IsCircle := false;
      obs.unitDir := spec[i].unitDir;
      obs.IsConvex := spec[i].convex;
    }

    /** Appending a record held nowhere else keeps the obstacle store. */
    twostate lemma StoreAppendStatic(new obs: RVOObstacle)
      requires old(ObstacleStore()) && obs !in old(staticObs) && obs !in old(circleObs) && obs !in old(obsPool)
      requires staticObs == old(staticObs) + [obs] && unchanged(this`circleObs, this`obsPool)
      ensures ObstacleStore()
    {
      DistinctAppend(old(staticObs), obs);
    }

    /** Extending an open chain by a record linked behind its last one keeps it chained. */
    twostate lemma ChainAppend(rs: seq<RVOObstacle>, new obs: RVOObstacle)
      requires old(Chained(rs)) && obs !in rs
      requires |rs| > 0 ==> obs.prev == rs[|rs|-1] && rs[|rs|-1].next == obs
      requires forall k :: 0 <= k < |rs| - 1 ==> rs[k].next == old(rs[k].next)
      requires forall k :: 0 < k < |rs| ==> rs[k].prev == old(rs[k].prev)
      ensures Chained(rs + [obs])
    {
      var t := rs + [obs];
      forall k | 0 < k < |t| ensures t[k].prev == t[k-1] {
        if k < |rs| {
          assert t[k] == rs[k];
        }
      }
      forall k | 0 <= k < |t| - 1 ensures t[k].next == t[k+1] {
        assert t[k] == rs[k];
      }
    }

    /** The record contents are untouched by relinking. */
    twostate lemma RecordsFrame(rs: seq<RVOObstacle>, new begin: int, new spec: seq<EdgeSpec>)
      requires old(PolygonRecords(rs, begin, spec))
      requires forall o :: o in rs ==> unchanged(o`id, o`group, o`IsCircle, o`point, o`unitDir, o`IsConvex)
      ensures PolygonRecords(rs, begin, spec)
    {
      forall k | 0 <= k < |rs| ensures PolygonRecord(rs[k], k, begin, spec) {
        assert rs[k] in rs;
        assert old(PolygonRecord(rs[k], k, begin, spec));
      }
    }

    /** Record i joins the records of the first i vertices. */
    lemma RecordsAppend(rs: seq<RVOObstacle>, obs: RVOObstacle, begin: int, spec: seq<EdgeSpec>)
      requires PolygonRecords(rs, begin, spec) && |rs| < |spec|
      requires PolygonRecord(obs, |rs|, begin, spec)
      ensures PolygonRecords(rs + [obs], begin, spec)
    {
      var t := rs + [obs];
      forall k | 0 <= k < |t| ensures PolygonRecord(t[k], k, begin, spec) {
        if k < |rs| {
          assert t[k] == rs[k];
        }
      }
    }

    /** Links a new edge record behind `last` and, when closing the polygon, before `first`. */
    static method LinkEdge(obs: RVOObstacle, last: RVOObstacle?, first: RVOObstacle?)
      requires obs != last && obs != first
      modifies obs`prev, obs`next, (if last == null then {} else {last})`next,
               (if first == null then {} else {first})`prev
      ensures last != null ==> obs.prev == last && last.next == obs
      ensures first != null ==> obs.next == first && first.prev == obs
      ensures last == null ==> obs.prev == old(obs.prev)
      ensures first == null ==> obs.next == old(obs.next)
    {
      if last != null {
        obs.prev := last;
        last.next := obs;
      }
      if first != null {
        obs.next := first;
        first.prev := obs;
      }
    }

    /** The first half of one vertex step: record i is made and appended to the store. */
    method AppendRecord(spec: seq<EdgeSpec>, begin: int, obstacleNo: nat, i: nat) returns (obs: RVOObstacle)
      requires ObstacleStore() && i < |spec| && staticGenId == begin + i
      requires |staticObs| == obstacleNo + i
      requires PolygonRecords(staticObs[obstacleNo..], begin, spec) && Chained(staticObs[obstacleNo..])
      modifies this`staticObs, this`staticGenId, this`dirtyObs, this`obsPool, obsPool
      ensures ObstacleStore() && staticGenId == old(staticGenId) + 1 && dirtyObs
      ensures staticObs == old(staticObs) + [obs] && obs !in old(staticObs)
      ensures |old(obsPool)| > 0 ==> obs == old(obsPool[|obsPool|-1]) && obsPool == old(obsPool[..|obsPool|-1])
      ensures |old(obsPool)| == 0 ==> fresh(obs) && obsPool == []
      ensures PolygonRecords(staticObs[obstacleNo..], begin, spec)
      ensures Chained(old(staticObs[obstacleNo..]))
      ensures forall o :: o in old(staticObs) ==> unchanged(o`next, o`prev)
    {
      ghost var rs := staticObs[obstacleNo..];
      label top:
      obs := NewEdgeRecord(spec, begin, i);
      label made:
      staticObs := staticObs + [obs];
      dirtyObs := true;
      StoreAppendStatic@made(obs);
      assert staticObs[obstacleNo..] == rs + [obs];
      assert forall k :: 0 <= k < |rs| ==> rs[k] in old(staticObs) && rs[k] !in old(obsPool);
      RecordsFrame@top(rs, begin, spec);
      RecordsAppend(rs, obs, begin, spec);
    }

    /**
     * The second half of one vertex step: the record just appended is linked behind
     * record i-1 and, when it is the last, closed onto record 0.
     */
    method LinkLast(spec: seq<EdgeSpec>, begin: int, obstacleNo: nat, i: nat)
      requires Distinct(staticObs) && 2 <= |spec| && i < |spec| && |staticObs| == obstacleNo + i + 1
      requires PolygonRecords(staticObs[obstacleNo..], begin, spec)
      requires Chained(staticObs[obstacleNo..|staticObs|-1])
      modifies (if i != 0 then {staticObs[|staticObs|-2]} else {})`next, Top(staticObs)`prev, Top(staticObs)`next,
               (if i == |spec| - 1 then {staticObs[obstacleNo]} else {})`prev
      ensures PolygonRecords(staticObs[obstacleNo..], begin, spec) && Chained(staticObs[obstacleNo..])
      ensures i == |spec| - 1 ==> staticObs[|staticObs|-1].next == staticObs[obstacleNo] &&
                                  staticObs[obstacleNo].prev == staticObs[|staticObs|-1]
    {
      var obs := staticObs[|staticObs|-1];
      ghost var rs := staticObs[obstacleNo..|staticObs|-1];
      assert staticObs[obstacleNo..] == rs + [obs];
      assert obs !in rs;
      var last := if i != 0 then staticObs[|staticObs| - 2] else null;
      var first := if i == |spec| - 1 then staticObs[obstacleNo] else null;
      assert i != 0 ==> staticObs[|staticObs| - 2] != staticObs[|staticObs| - 1];
      assert i != 0 ==> staticObs[obstacleNo] != staticObs[|staticObs| - 1];
      label before:
      LinkEdge(obs, last, first);
      RecordsFrame@before(rs + [obs], begin, spec);
      ChainAppend@before(rs, obs);
    }

    /** One vertex step of AddStaticObstacle: record i is made, appended and linked. */
    method AppendEdge(spec: seq<EdgeSpec>, begin: int, obstacleNo: nat, i: nat, ghost P0: seq<RVOObstacle>)
      requires ObstacleStore() && 2 <= |spec| && i < |spec| && staticGenId == begin + i
      requires |staticObs| == obstacleNo + i && |obsPool| <= |P0| && obsPool == P0[..|obsPool|]
      requires PolygonRecords(staticObs[obstacleNo..], begin, spec) && Chained(staticObs[obstacleNo..])
      modifies this`staticObs, this`staticGenId, this`dirtyObs, this`obsPool, obsPool,
               (if i != 0 then Top(staticObs) else {})`next, (if i == |spec| - 1 then {staticObs[obstacleNo]} else {})`prev
      ensures ObstacleStore() && staticGenId == old(staticGenId) + 1 && dirtyObs
      ensures |staticObs| == |old(staticObs)| + 1 && staticObs[..|old(staticObs)|] == old(staticObs)
      ensures |old(obsPool)| > 0 ==> staticObs[|staticObs|-1] == old(obsPool[|obsPool|-1]) && obsPool == old(obsPool[..|obsPool|-1])
      ensures |old(obsPool)| == 0 ==> fresh(staticObs[|staticObs|-1]) && obsPool == []
      ensures staticObs[|staticObs|-1] in P0 || fresh(staticObs[|staticObs|-1])
      ensures PolygonRecords(staticObs[obstacleNo..], begin, spec) && Chained(staticObs[obstacleNo..])
      ensures i == |spec| - 1 ==> staticObs[|staticObs|-1].next == staticObs[obstacleNo] &&
                                  staticObs[obstacleNo].prev == staticObs[|staticObs|-1]
    {
      var obs := AppendRecord(spec, begin, obstacleNo, i);
      assert staticObs[obstacleNo..|staticObs|-1] == old(staticObs[obstacleNo..]);
      LinkLast(spec, begin, obstacleNo, i);
    }

    /** One turn of the vertex loop, stated as the loop's invariant at i and at i + 1. */
    method AppendStep(spec: seq<EdgeSpec>, begin: int, obstacleNo: nat, i: nat,
                      ghost S0: seq<RVOObstacle>, ghost P0: seq<RVOObstacle>)
      requires ObstacleStore() && 2 <= |spec| && i < |spec| && staticGenId == begin + i
      requires |staticObs| == obstacleNo + i && staticObs[..obstacleNo] == S0
      requires |obsPool| == (if |P0| >= i then |P0| - i else 0) && obsPool == P0[..|obsPool|]
      requires PolygonRecords(staticObs[obstacleNo..], begin, spec) && Chained(staticObs[obstacleNo..])
      modifies this`staticObs, this`staticGenId, this`dirtyObs, this`obsPool, obsPool,
               (if i != 0 then Top(staticObs) else {})`next, (if i == |spec| - 1 then {staticObs[obstacleNo]} else {})`prev
      ensures ObstacleStore() && staticGenId == begin + (i + 1) && dirtyObs
      ensures |staticObs| == obstacleNo + (i + 1) && staticObs[..obstacleNo] == S0
      ensures |obsPool| == (if |P0| >= i + 1 then |P0| - (i + 1) else 0) && obsPool == P0[..|obsPool|]
      ensures staticObs[obstacleNo + i] in P0 || fresh(staticObs[obstacleNo + i])
      ensures i > 0 ==> staticObs[obstacleNo] == old(staticObs[obstacleNo])
      ensures PolygonRecords(staticObs[obstacleNo..], begin, spec) && Chained(staticObs[obstacleNo..])
      ensures i == |spec| - 1 ==> staticObs[obstacleNo + i].next == staticObs[obstacleNo] &&
                                  staticObs[obstacleNo].prev == staticObs[obstacleNo + i]
    {
      AppendEdge(spec, begin, obstacleNo, i, P0);
      assert staticObs[..obstacleNo] == staticObs[..obstacleNo + i][..obstacleNo];
    }

    /**
     * The vertex loop of AddStaticObstacle: one record per vertex, with consecutive ids,
     * appended and linked into a cycle.
     */
    method AppendPolygon(spec: seq<EdgeSpec>)
      requires ObstacleStore() && 2 <= |spec| && staticGenId + |spec| <= Int32Max
      modifies this`staticObs, this`staticGenId, this`dirtyObs, this`obsPool, obsPool
      ensures ObstacleStore()
      ensures var begin, n := old(staticGenId), |spec|;
        staticGenId == begin + n && dirtyObs &&
        |staticObs| == |old(staticObs)| + n && staticObs[..|old(staticObs)|] == old(staticObs) &&
        PolygonCycle(staticObs[|old(staticObs)|..], begin, spec) &&
        |obsPool| == (if |old(obsPool)| >= n then |old(obsPool)| - n else 0) &&
        obsPool == old(obsPool)[..|obsPool|]
    {
      var begin := staticGenId;
      var obstacleNo := |staticObs|;
      var n := |spec|;
      ghost var S0, P0 := staticObs, obsPool;
      var i := 0;
      while i < n
        invariant 0 <= i <= n && staticGenId == begin + i
        invariant ObstacleStore()
        invariant |staticObs| == obstacleNo + i && staticObs[..obstacleNo] == S0
        invariant |obsPool| == (if |P0| >= i then |P0| - i else 0) && obsPool == P0[..|obsPool|]
        invariant i > 0 ==> staticObs[obstacleNo + i - 1] in P0 || fresh(staticObs[obstacleNo + i - 1])
        invariant i > 0 ==> staticObs[obstacleNo] in P0 || fresh(staticObs[obstacleNo])
        invariant PolygonRecords(staticObs[obstacleNo..], begin, spec)
        invariant Chained(staticObs[obstacleNo..])
        invariant i == n ==> staticObs[obstacleNo + n - 1].next == staticObs[obstacleNo] &&
                             staticObs[obstacleNo].prev == staticObs[obstacleNo + n - 1]
        invariant i > 0 ==> dirtyObs
      {
        AppendStep(spec, begin, obstacleNo, i, S0, P0);
        i := i + 1;
      }
    }

    /** The vertex loop run on the whole world: only the obstacle store and its counter change. */
    method AddPolygon(spec: seq<EdgeSpec>) returns (key: int)
      requires Valid() && 2 <= |spec| && staticGenId + |spec| <= Int32Max
      modifies this`staticObs, this`staticGenId, this`dirtyObs, this`obsPool, obsPool
      ensures Valid()
      ensures var begin, n := old(staticGenId), |spec|;
        key == PackKey(begin, begin + n) && staticGenId == begin + n && dirtyObs &&
        |staticObs| == |old(staticObs)| + n && staticObs[..|old(staticObs)|] == old(staticObs) &&
        PolygonCycle(staticObs[|old(staticObs)|..], begin, spec) &&
        |obsPool| == (if |old(obsPool)| >= n then |old(obsPool)| - n else 0) &&
        obsPool == old(obsPool)[..|obsPool|]
    {
      var begin := staticGenId;
      AppendPolygon(spec);
      key := PackKey(begin, staticGenId);
    }

    /**
     * AddStaticObstacle(position, vertices): fewer than two vertices are refused with -1.
     * Otherwise one record per vertex is appended, with consecutive fresh ids from the
     * generator, all in the group of the first id, linked into a cycle in vertex order;
     * the obstacle set becomes dirty and the key packs the id range [begin, end).
     */
    method AddStaticObstacle(position: Vec3, vertices: seq<Vec3>, normalize: Vec3 -> Vec3) returns (key: int)
      requires Valid() && staticGenId + |vertices| <= Int32Max
      modifies this`staticObs, this`staticGenId, this`dirtyObs, this`obsPool, obsPool
      ensures Valid()
      ensures |vertices| < 2 ==>
        key == -1 && staticObs == old(staticObs) && staticGenId == old(staticGenId) &&
        dirtyObs == old(dirtyObs) && obsPool == old(obsPool)
      ensures |vertices| >= 2 ==>
        var begin, n := old(staticGenId), |vertices|;
        key == PackKey(begin, begin + n) && staticGenId == begin + n && dirtyObs &&
        |staticObs| == |old(staticObs)| + n && staticObs[..|old(staticObs)|] == old(staticObs) &&
        PolygonCycle(staticObs[|old(staticObs)|..], begin, PolygonSpec(position, vertices, normalize)) &&
        |obsPool| == (if |old(obsPool)| >= n then |old(obsPool)| - n else 0) &&
        obsPool == old(obsPool)[..|obsPool|]
    {
      if |vertices| < 2 {
        return -1;
      }
      var spec := PolygonSpec(position, vertices, normalize);
      key := AddPolygon(spec);
    }

    /** Appending a record held nowhere else to the circles keeps the obstacle store. */
    twostate lemma StoreAppendCircle(new obs: RVOObstacle)
      requires old(ObstacleStore()) && obs !in old(staticObs) && obs !in old(circleObs) && obs !in old(obsPool)
      requires circleObs == old(circleObs) + [obs] && unchanged(this`staticObs, this`obsPool)
      ensures ObstacleStore()
    {
      DistinctAppend(old(circleObs), obs);
    }

    /** The circle record of AddStaticObstacle(position, radius), appended to the circle store. */
    method AppendCircle(position: Vec3, radius: real) returns (obs: RVOObstacle)
      requires ObstacleStore()
      modifies this`circleObs, this`staticGenId, this`obsPool, obsPool
      ensures ObstacleStore() && staticGenId == old(staticGenId) + 1
      ensures circleObs == old(circleObs) + [obs]
      ensures obs.point == position && obs.IsCircle && !obs.IsConvex
      ensures obs.group == old(staticGenId) && obs.id == old(staticGenId) && obs.unitDir == Scale(One, radius)
      ensures |old(obsPool)| > 0 ==> obs == old(obsPool[|obsPool|-1]) && obsPool == old(obsPool[..|obsPool|-1])
      ensures |old(obsPool)| == 0 ==> fresh(obs) && obsPool == []
    {
      var begin := staticGenId;
      obs := MallocObstacle();
      label made:
      obs.point := position;
      obs.IsCircle := true;
      obs.IsConvex := false;
      obs.group := begin;
      obs.id := staticGenId;
      staticGenId := staticGenId + 1;
      obs.unitDir := Scale(One, radius);
      circleObs := circleObs + [obs];
      StoreAppendCircle@made(obs);
    }

    /**
     * AddStaticObstacle(position, radius): a radius that is not positive is refused with
     * -1. Otherwise one circle record consumes exactly one id; the dirty flag is left alone.
     */
    method AddStaticCircleObstacle(position: Vec3, radius: real) returns (key: int)
      requires Valid() && staticGenId < Int32Max
      modifies this`circleObs, this`staticGenId, this`obsPool, obsPool
      ensures Valid() && staticObs == old(staticObs) && dirtyObs == old(dirtyObs)
      ensures radius <= 0.0 ==>
        key == -1 && circleObs == old(circleObs) && staticGenId == old(staticGenId) && obsPool == old(obsPool)
      ensures radius > 0.0 ==>
        var begin := old(staticGenId);
        key == PackKey(begin, begin + 1) && staticGenId == begin + 1 &&
        |circleObs| == |old(circleObs)| + 1 && circleObs[..|old(circleObs)|] == old(circleObs) &&
        var obs := circleObs[|circleObs|-1];
        obs.point == position && obs.IsCircle && !obs.IsConvex && obs.group == begin && obs.id == begin &&
        obs.unitDir == Scale(One, radius) &&
        |obsPool| == (if |old(obsPool)| > 0 then |old(obsPool)| - 1 else 0) && obsPool == old(obsPool)[..|obsPool|]
    {
      if radius <= 0.0 {
        return -1;
      }
      var begin := staticGenId;
      var obs := AppendCircle(position, radius);
      key := PackKey(begin, staticGenId);
    }

    static lemma DisjointSymmetric(a: seq<RVOObstacle>, b: seq<RVOObstacle>)
      requires Disjoint(a, b)
      ensures Disjoint(b, a)
    {}

    /**
     * The first loop of RemoveStaticObstacle: every polygon record with an id in
     * [begin, end) is freed and removed in place, the others keep their order, and the
     * obstacle set becomes dirty when anything was removed.
     */
    method SweepStatic(begin: int, end: int) returns (removed: bool)
      modifies this`staticObs, this`obsPool, this`dirtyObs
      ensures var hit := old(InRange(staticObs, begin, end));
        staticObs == FilterOut(old(staticObs), hit) &&
        obsPool == PushAll(old(obsPool), Select(old(staticObs), hit), ObstaclePoolCapacity) &&
        removed == (Select(old(staticObs), hit) != []) && dirtyObs == (old(dirtyObs) || removed)
    {
      ghost var S0, P0 := staticObs, obsPool;
      ghost var hit := InRange(S0, begin, end);
      ghost var k := 0;
      removed := false;
      var i := 0;
      while i < |staticObs|
        invariant 0 <= k <= |S0| && i == |FilterOut(S0[..k], hit)|
        invariant staticObs == FilterOut(S0[..k], hit) + S0[k..]
        invariant obsPool == PushAll(P0, Select(S0[..k], hit), ObstaclePoolCapacity)
        invariant removed == (Select(S0[..k], hit) != [])
        invariant dirtyObs == (old(dirtyObs) || removed)
        decreases |staticObs| - i
      {
        SweepStep(S0, k, hit, staticObs, i, P0, ObstaclePoolCapacity);
        var userId := staticObs[i].id;
        if userId >= begin && userId < end {
          assert S0[k] in hit;
          FreeObstacle(staticObs[i]);
          staticObs := staticObs[..i] + staticObs[i+1..];
          dirtyObs := true;
          removed := true;
        } else {
          assert S0[k] !in hit;
          i := i + 1;
        }
        k := k + 1;
      }
      assert S0[..k] == S0;
    }

    /**
     * The second loop of RemoveStaticObstacle, over the circle records: the same sweep,
     * except that the dirty flag is not touched.
     */
    method SweepCircle(begin: int, end: int) returns (removed: bool)
      modifies this`circleObs, this`obsPool
      ensures var hit := old(InRange(circleObs, begin, end));
        circleObs == FilterOut(old(circleObs), hit) &&
        obsPool == PushAll(old(obsPool), Select(old(circleObs), hit), ObstaclePoolCapacity) &&
        removed == (Select(old(circleObs), hit) != [])
    {
      ghost var S0, P0 := circleObs, obsPool;
      ghost var hit := InRange(S0, begin, end);
      ghost var k := 0;
      removed := false;
      var i := 0;
      while i < |circleObs|
        invariant 0 <= k <= |S0| && i == |FilterOut(S0[..k], hit)|
        invariant circleObs == FilterOut(S0[..k], hit) + S0[k..]
        invariant obsPool == PushAll(P0, Select(S0[..k], hit), ObstaclePoolCapacity)
        invariant removed == (Select(S0[..k], hit) != [])
        decreases |circleObs| - i
      {
        SweepStep(S0, k, hit, circleObs, i, P0, ObstaclePoolCapacity);
        var userId := circleObs[i].id;
        if userId >= begin && userId < end {
          assert S0[k] in hit;
          FreeObstacle(circleObs[i]);
          circleObs := circleObs[..i] + circleObs[i+1..];
          removed := true;
        } else {
          assert S0[k] !in hit;
          i := i + 1;
        }
        k := k + 1;
      }
      assert S0[..k] == S0;
    }

    /** Valid survives any step that changes only the obstacle store and keeps it sound. */
    twostate lemma ObstacleStep()
      requires old(Valid()) && ObstacleStore()
      requires unchanged(this`root, this`tail, this`list, this`nodes, this`nodeId, this`dealNode, this`nodePool)
      requires old(staticGenId) <= staticGenId
      requires forall n :: n in old(list) ==> unchanged(n`next, n`prev, n`id)
      requires forall n :: n in old(nodePool) ==> unchanged(n`id, n`next, n`prev, n`velocity, n`advSpeed)
      ensures Valid()
    {
      LinkedFrame();
      RegistryFrame();
      PoolFrame();
    }

    /**
     * The two sweeps of RemoveStaticObstacle over the id range [begin, end): the polygon
     * records first, and the circle records only when no polygon record was in range.
     */
    method SweepRange(begin: int, end: int)
      requires ObstacleStore()
      modifies this`staticObs, this`circleObs, this`obsPool, this`dirtyObs
      ensures ObstacleStore()
      ensures var hitS, hitC := old(InRange(staticObs, begin, end)), old(InRange(circleObs, begin, end));
        staticObs == FilterOut(old(staticObs), hitS) &&
        (hitS != {} ==>
          circleObs == old(circleObs) && dirtyObs &&
          obsPool == PushAll(old(obsPool), Select(old(staticObs), hitS), ObstaclePoolCapacity)) &&
        (hitS == {} ==>
          circleObs == FilterOut(old(circleObs), hitC) && dirtyObs == old(dirtyObs) &&
          obsPool == PushAll(old(obsPool), Select(old(circleObs), hitC), ObstaclePoolCapacity))
    {
      ghost var S0, C0, P0 := staticObs, circleObs, obsPool;
      ghost var hitS := InRange(S0, begin, end);
      var removed := SweepStatic(begin, end);
      SweepKeepsStore(S0, C0, P0, hitS, ObstaclePoolCapacity);
      SelectEmpty(S0, hitS);
      if removed {
        assert hitS != {} by {
          assert Select(S0, hitS)[0] in Select(S0, hitS);
          SelectMembers(S0, hitS);
        }
        return;
      }
      ghost var hitC := InRange(C0, begin, end);
      assert hitS == {};
      FilterOutNone(S0, hitS);
      removed := SweepCircle(begin, end);
      DisjointSymmetric(S0, C0);
      SweepKeepsStore(C0, S0, P0, hitC, ObstaclePoolCapacity);
      DisjointSymmetric(S0, FilterOut(C0, hitC));
    }

    /**
     * RemoveStaticObstacle(key): the key is split into [begin, end) exactly as
     * AddStaticObstacle packed it. The polygon records in that id range are freed and
     * removed, marking the obstacle set dirty; only when none was found are the circle
     * records in that range freed and removed instead. The surviving records keep their
     * order, and no record itself is altered.
     */
    method RemoveStaticObstacle(key: int)
      requires Valid() && Int64Min <= key <= Int64Max
      modifies this`staticObs, this`circleObs, this`obsPool, this`dirtyObs
      ensures Valid()
      ensures var begin, end := DecodeBegin(key), DecodeEnd(key);
        var hitS, hitC := old(InRange(staticObs, begin, end)), old(InRange(circleObs, begin, end));
        staticObs == FilterOut(old(staticObs), hitS) &&
        (hitS != {} ==>
          circleObs == old(circleObs) && dirtyObs &&
          obsPool == PushAll(old(obsPool), Select(old(staticObs), hitS), ObstaclePoolCapacity)) &&
        (hitS == {} ==>
          circleObs == FilterOut(old(circleObs), hitC) && dirtyObs == old(dirtyObs) &&
          obsPool == PushAll(old(obsPool), Select(old(circleObs), hitC), ObstaclePoolCapacity))
    {
      var begin := DecodeBegin(key);
      var end := DecodeEnd(key);
      label start:
      SweepRange(begin, end);
      ObstacleStep@start();
    }

    // -------------------------------------------------------------------------
    // Radius query, Clear and the per-frame Update

    /**
     * QueryRadius(nodeId, queryRadius, ref vNodes, ingoreNode): the caller's list (None
     * standing for a null reference) is refilled with the ids the spatial index reports
     * around the node, less every occurrence of the ignored id when one is given. A null
     * list or an unknown node yields false and leaves the list as it was. The index is
     * the parameter `query`.
     */
    method QueryRadius(nid: int, queryRadius: real, vNodes: Option<seq<int>>,
                       query: (Vec3, real) -> seq<int>, ignoreNode: int)
      returns (found: bool, result: Option<seq<int>>)
      requires Valid()
      modifies this`dealNode
      ensures Valid()
      ensures vNodes.None? || nid !in nodes ==> !found && result == vNodes && dealNode == old(dealNode)
      ensures vNodes.Some? && nid in nodes ==>
        var hits := query(nodes[nid].position, queryRadius);
        result == Some(if ignoreNode != -1 then Without(hits, ignoreNode) else hits) &&
        found == (|result.value| > 0)
    {
      if vNodes.None? {
        return false, vNodes;
      }
      var p := GetNode(nid);
      if p == null {
        return false, vNodes;
      }
      var ids := query(p.GetPosition(), queryRadius);
      if ignoreNode != -1 {
        ids := RemoveEvery(ids, ignoreNode);
      }
      return |ids| > 0, Some(ids);
    }

    /**
     * One step of the walk in Clear: the successor of the slot is read first, then the
     * slot is freed.
     */
    method FreeStep(p: RVONode, ghost L: seq<RVONode>, ghost P0: seq<RVONode>, ghost k: nat) returns (succ: RVONode?)
      requires k < |L| && p == L[k] && Distinct(L) && Disjoint(P0, L)
      requires nodePool == PushAll(P0, L[..k], NodePoolCapacity)
      requires forall j {:trigger L[j].next} :: k <= j < |L| - 1 ==> L[j].next == L[j+1]
      requires L[|L|-1].next == null
      requires forall j :: 0 <= j < k ==>
        L[j].id == 0 && L[j].next == null && L[j].prev == null && L[j].velocity == Zero && L[j].advSpeed == Zero
      modifies this`nodePool, p
      ensures succ == (if k + 1 < |L| then L[k+1] else null)
      ensures nodePool == PushAll(P0, L[..k+1], NodePoolCapacity)
      ensures forall j {:trigger L[j].next} :: k + 1 <= j < |L| - 1 ==> L[j].next == L[j+1]
      ensures k + 1 < |L| ==> L[|L|-1].next == null
      ensures forall j :: 0 <= j < k + 1 ==>
        L[j].id == 0 && L[j].next == null && L[j].prev == null && L[j].velocity == Zero && L[j].advSpeed == Zero
      ensures p.weight == old(p.weight)
    {
      succ := p.GetNext();
      assert p !in P0 && p !in L[..k] by {
        forall i | 0 <= i < |P0| ensures P0[i] != p {}
        forall m | 0 <= m < k ensures L[..k][m] != p {}
      }
      PushAllAbsent<RVONode>(P0, L[..k], p, NodePoolCapacity);
      PushAllStep<RVONode>(P0, L[..k], p, NodePoolCapacity);
      assert L[..k+1] == L[..k] + [p];
      assert forall j :: 0 <= j < |L| && j != k ==> L[j] != p;
      FreeNode(p);
    }

    /**
     * The first half of Clear: walk the list from the root, reading each successor before
     * the slot is freed, so every linked slot is destroyed and offered to the pool in
     * list order.
     */
    method FreeAll()
      requires Distinct(list) && Distinct(nodePool) && Disjoint(nodePool, list) && |nodePool| <= NodePoolCapacity
      requires root == (if |list| > 0 then list[0] else null)
      requires forall j {:trigger list[j].next} :: 0 <= j < |list| - 1 ==> list[j].next == list[j+1]
      requires |list| > 0 ==> list[|list|-1].next == null
      requires forall i :: 0 <= i < |nodePool| ==>
        nodePool[i].id == 0 && nodePool[i].next == null && nodePool[i].prev == null &&
        nodePool[i].velocity == Zero && nodePool[i].advSpeed == Zero
      modifies this`nodePool, list
      ensures nodePool == PushAll(old(nodePool), list, NodePoolCapacity)
      ensures |nodePool| <= NodePoolCapacity && Distinct(nodePool)
      ensures forall i :: 0 <= i < |nodePool| ==>
        nodePool[i].id == 0 && nodePool[i].next == null && nodePool[i].prev == null &&
        nodePool[i].velocity == Zero && nodePool[i].advSpeed == Zero
      ensures forall n :: n in list ==> n.IsDestroy() && n.weight == old(n.weight)
    {
      ghost var L, P0 := list, nodePool;
      var p := root;
      ghost var k := 0;
      while p != null
        invariant 0 <= k <= |L| && list == L
        invariant p == (if k < |L| then L[k] else null)
        invariant forall j {:trigger L[j].next} :: k <= j < |L| - 1 ==> L[j].next == L[j+1]
        invariant k < |L| ==> L[|L|-1].next == null
        invariant nodePool == PushAll(P0, L[..k], NodePoolCapacity)
        invariant forall j :: 0 <= j < k ==>
          L[j].id == 0 && L[j].next == null && L[j].prev == null && L[j].velocity == Zero && L[j].advSpeed == Zero
        invariant forall j :: 0 <= j < |L| ==> L[j].weight == old(L[j].weight)
        invariant forall i :: 0 <= i < |P0| ==>
          P0[i].id == 0 && P0[i].next == null && P0[i].prev == null &&
          P0[i].velocity == Zero && P0[i].advSpeed == Zero
        decreases |L| - k
      {
        p := FreeStep(p, L, P0, k);
        k := k + 1;
      }
      assert L[..k] == L;
      PushAllDistinct(P0, L, NodePoolCapacity);
      PushAllMembers(P0, L, NodePoolCapacity);
      PushAllCleared(P0, L);
    }

    /** Pushing freed slots onto a pool of freed slots leaves only freed slots in it. */
    static lemma PushAllCleared(pool: seq<RVONode>, xs: seq<RVONode>)
      requires forall i :: 0 <= i < |pool| ==>
        pool[i].id == 0 && pool[i].next == null && pool[i].prev == null &&
        pool[i].velocity == Zero && pool[i].advSpeed == Zero
      requires forall i :: 0 <= i < |xs| ==>
        xs[i].id == 0 && xs[i].next == null && xs[i].prev == null &&
        xs[i].velocity == Zero && xs[i].advSpeed == Zero
      ensures var r := PushAll(pool, xs, NodePoolCapacity);
        forall i :: 0 <= i < |r| ==>
          r[i].id == 0 && r[i].next == null && r[i].prev == null &&
          r[i].velocity == Zero && r[i].advSpeed == Zero
    {
      var r := PushAll(pool, xs, NodePoolCapacity);
      PushAllMembers(pool, xs, NodePoolCapacity);
      forall i | 0 <= i < |r|
        ensures r[i].id == 0 && r[i].next == null && r[i].prev == null &&
                r[i].velocity == Zero && r[i].advSpeed == Zero
      {
        assert r[i] in r;
        if r[i] in pool {
          var m :| 0 <= m < |pool| && pool[m] == r[i];
        } else {
          var m :| 0 <= m < |xs| && xs[m] == r[i];
        }
      }
    }

    /** The registry half of Clear's reset: no linked slot, no id, no cache, no destroy list. */
    method ResetNodes()
      requires |nodePool| <= NodePoolCapacity && Distinct(nodePool)
      requires forall i :: 0 <= i < |nodePool| ==>
        nodePool[i].id == 0 && nodePool[i].next == null && nodePool[i].prev == null &&
        nodePool[i].velocity == Zero && nodePool[i].advSpeed == Zero
      modifies this`nodes, this`destroyList, this`root, this`tail, this`dealNode, this`nodeId, this`list
      ensures Linked() && Registry() && NodePoolOK()
      ensures list == [] && nodes == map[] && dealNode == null && nodeId == 1 && destroyList == []
    {
      nodes := map[];
      destroyList := [];
      root, tail, dealNode := null, null, null;
      nodeId := 1;
      list := [];
      assert Disjoint(nodePool, list);
    }

    /** The obstacle half of Clear's reset: both stores emptied, ids restart, the set is dirty. */
    method ResetObstacles()
      requires |obsPool| <= ObstaclePoolCapacity && Distinct(obsPool)
      modifies this`staticGenId, this`kdAgents, this`staticObs, this`circleObs, this`dirtyObs
      ensures ObstacleStore()
      ensures staticGenId == 1 && staticObs == [] && circleObs == [] && dirtyObs && kdAgents == []
    {
      staticGenId := 1;
      kdAgents := [];
      staticObs, circleObs := [], [];
      dirtyObs := true;
      assert Disjoint(staticObs, obsPool) && Disjoint(circleObs, obsPool);
    }

    /** Clear after the walk: both halves of the reset and the scanner's own Clear. */
    method ResetState()
      requires |nodePool| <= NodePoolCapacity && Distinct(nodePool)
      requires forall i :: 0 <= i < |nodePool| ==>
        nodePool[i].id == 0 && nodePool[i].next == null && nodePool[i].prev == null &&
        nodePool[i].velocity == Zero && nodePool[i].advSpeed == Zero
      requires |obsPool| <= ObstaclePoolCapacity && Distinct(obsPool)
      modifies this`nodes, this`destroyList, this`root, this`tail, this`dealNode, this`nodeId,
               this`staticGenId, this`kdAgents, this`staticObs, this`circleObs, this`dirtyObs,
               this`list, scaner
      ensures Valid() && destroyList == []
      ensures list == [] && nodes == map[] && dealNode == null && nodeId == 1 && staticGenId == 1
      ensures staticObs == [] && circleObs == [] && dirtyObs && kdAgents == []
      ensures scaner.pNode == null && scaner.obstacleNeighbors == [] && scaner.obstacleInsideSets == {}
    {
      scaner.Clear();
      ResetNodes();
      label nodesDone:
      ResetObstacles();
      LinkedFrame@nodesDone();
      RegistryFrame@nodesDone();
      PoolFrame@nodesDone();
    }

    /**
     * Clear: every linked slot is freed (destroyed, keeping its weight, and pooled while
     * the pool has room), then the registry, the cache, the destroy list, the handed-over
     * index and both obstacle stores are emptied, both counters restart at 1 and the
     * obstacle set is marked dirty. The dropped obstacle records do not go back to their
     * pool.
     */
    method Clear()
      requires Valid()
      modifies this`nodes, this`destroyList, this`root, this`tail, this`dealNode, this`nodeId,
               this`staticGenId, this`kdAgents, this`staticObs, this`circleObs, this`dirtyObs,
               this`list, this`nodePool, list, scaner
      ensures Valid() && destroyList == []
      ensures list == [] && nodes == map[] && dealNode == null && nodeId == 1 && staticGenId == 1
      ensures staticObs == [] && circleObs == [] && dirtyObs && kdAgents == [] && obsPool == old(obsPool)
      ensures nodePool == PushAll(old(nodePool), old(list), NodePoolCapacity)
      ensures forall n :: n in old(list) ==> n.IsDestroy() && n.weight == old(n.weight)
      ensures scaner.pNode == null && scaner.obstacleNeighbors == [] && scaner.obstacleInsideSets == {}
    {
      FreeAll();
      ResetState();
    }

    /**
     * The walk of Update: from the root along the links, every destroyed slot is queued
     * on the destroy list and every live one is handed to the spatial index under the
     * next consecutive index, so the index receives the live slots in list order.
     */
    method WalkList()
      requires Linked()
      modifies this`kdAgents, this`destroyList
      ensures kdAgents == FilterOut(list, Dead(list))
      ensures destroyList == old(destroyList) + Select(list, Dead(list))
    {
      ghost var L, D0 := list, destroyList;
      ghost var dead := Dead(L);
      kdAgents := [];
      var index := 0;
      var p := root;
      ghost var k := 0;
      while p != null
        invariant 0 <= k <= |L| && p == (if k < |L| then L[k] else null)
        invariant kdAgents == FilterOut(L[..k], dead) && index == |kdAgents|
        invariant destroyList == D0 + Select(L[..k], dead)
        decreases |L| - k
      {
        FilterOutSelectStep(L, k, dead);
        if p.IsDestroy() {
          assert p in dead;
          destroyList := destroyList + [p];
        } else {
          assert p !in dead;
          kdAgents := kdAgents + [p];
          index := index + 1;
        }
        p := p.GetNext();
        k := k + 1;
      }
      assert L[..k] == L;
    }

    /** The walk run on the whole world: nothing the world's invariant depends on changes. */
    method Walk()
      requires Valid()
      modifies this`kdAgents, this`destroyList
      ensures Valid()
      ensures kdAgents == FilterOut(list, Dead(list))
      ensures destroyList == old(destroyList) + Select(list, Dead(list))
    {
      label start:
      WalkList();
      LinkedFrame@start();
      RegistryFrame@start();
      PoolFrame@start();
      ObstacleFrame@start();
    }

    /**
     * One step of the purge in Update: the queued slot, destroyed and still linked, is
     * removed with its map entry kept (it has none), so the cache and the map stay as
     * they were and only this slot changes.
     */
    method PurgeStep(p: RVONode, ghost L: seq<RVONode>, ghost gone: set<RVONode>)
      requires Valid() && list == FilterOut(L, gone) && p in L && p !in gone && p.id <= 0
      modifies this`root, this`tail, this`nodes, this`dealNode, this`nodePool, this`list, L
      ensures Valid() && list == FilterOut(L, gone + {p})
      ensures nodes == old(nodes) && dealNode == old(dealNode)
      ensures nodePool == Push(old(nodePool), p, NodePoolCapacity)
      ensures forall n :: n in L && n != p ==> n.id == old(n.id)
    {
      FilterOutMembers(L, gone);
      assert p in list;
      assert dealNode != p;
      ghost var i :| 0 <= i < |list| && list[i] == p;
      assert p.prev != null ==> p.prev == list[i-1] && p.prev in list;
      assert p.next != null ==> p.next == list[i+1] && p.next in list;
      RemoveNodeObject(p, false);
      WithoutFilterOut(L, gone, p);
    }

    /**
     * The purge of Update: every queued slot, in queue order, is removed with
     * RemoveNode(slot, false).
     */
    method PurgeQueued()
      requires Valid() && Distinct(destroyList)
      requires destroyList == Select(list, Dead(list))
      modifies this`root, this`tail, this`nodes, this`dealNode, this`nodePool, this`list, list
      ensures Valid() && nodes == old(nodes) && dealNode == old(dealNode)
      ensures list == FilterOut(old(list), old(Dead(list)))
      ensures nodePool == PushAll(old(nodePool), destroyList, NodePoolCapacity)
      ensures forall n :: n in list ==> !n.IsDestroy()
    {
      ghost var L, P0 := list, nodePool;
      ghost var dead := Dead(L);
      var D := destroyList;
      SelectMembers(L, dead);
      ghost var gone: set<RVONode> := {};
      FilterOutNone(L, gone);
      var j := 0;
      while j < |D|
        invariant 0 <= j <= |D| && Valid()
        invariant gone == Elems(D[..j]) && list == FilterOut(L, gone)
        invariant forall n :: n in L && n !in gone ==> n.id == old(n.id)
        invariant nodes == old(nodes) && dealNode == old(dealNode)
        invariant nodePool == PushAll(P0, D[..j], NodePoolCapacity)
        decreases |D| - j
      {
        var p := D[j];
        PrefixStep<RVONode>(P0, D, j, NodePoolCapacity);
        assert p in L && p in dead;
        PurgeStep(p, L, gone);
        gone := gone + {p};
        j := j + 1;
      }
      assert D[..j] == D;
      assert gone == dead;
      FilterOutMembers(L, dead);
    }

    /** The purge of Update: every queued slot is unlinked and freed, then the queue is emptied. */
    method Purge(ghost L: seq<RVONode>, ghost dead: set<RVONode>, ghost P0: seq<RVONode>)
      requires Valid() && list == L && dead == Dead(L) && nodePool == P0
      requires destroyList == Select(L, dead) && Distinct(destroyList)
      modifies this`root, this`tail, this`nodes, this`dealNode, this`nodePool, this`list, list,
               this`destroyList
      ensures Valid() && nodes == old(nodes) && dealNode == old(dealNode)
      ensures list == FilterOut(L, dead)
      ensures forall n :: n in list ==> !n.IsDestroy()
      ensures nodePool == PushAll(P0, Select(L, dead), NodePoolCapacity)
      ensures destroyList == []
    {
      PurgeQueued();
      destroyList := [];
    }

    /**
     * Update: the index is cleared and refilled by the walk, then the queued destroyed
     * slots are unlinked (keeping the map, which no longer holds them) and the queue is
     * emptied. Afterwards the linked slots are exactly the live ones, in their old order,
     * and they are what the index holds. Rebuilding the index itself is not modelled.
     */
    method Update()
      requires Valid() && destroyList == []
      modifies this`kdAgents, this`destroyList, this`root, this`tail, this`nodes, this`dealNode,
               this`nodePool, this`list, list
      ensures Valid() && destroyList == []
      ensures list == FilterOut(old(list), old(Dead(list))) && kdAgents == list
      ensures forall n :: n in list ==> !n.IsDestroy()
      ensures nodes == old(nodes) && dealNode == old(dealNode)
      ensures nodePool == PushAll(old(nodePool), Select(old(list), old(Dead(list))), NodePoolCapacity)
    {
      ghost var L, dead, P0 := list, Dead(list), nodePool;
      Walk();
      assert list == L && Dead(list) == dead;
      FilterOutDistinct(L, dead);
      Purge(L, dead, P0);
    }
  }
}
