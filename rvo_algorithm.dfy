/**
 * The integer RVO sampler (RVOAlgorithm.cs): planar integer vectors in centimetres with
 * C#'s truncating division, agents that integrate their velocity over a step in
 * milliseconds, neighbour selection (filter, stable insertion sort by squared distance,
 * truncation), a piecewise collision-risk rule and the choice of the cheapest candidate
 * velocity. C# `int` is modelled unbounded; float arithmetic is modelled over exact reals.
 */
module RVOIntegers {
  import opened Seqs
  import opened StableInsertion
  import opened Scans

  // ---------------------------------------------------------------------------
  // C# integer division

  function Abs(a: int): nat { if a < 0 then -a else a }

  /**
   * C#'s `/` on int: the quotient truncated toward zero. Dafny's own `/` is Euclidean, so
   * the magnitudes are divided and the sign is put back.
   */
  function Quot(a: int, b: int): int
    requires b != 0
  {
    if b > 0 then (if a >= 0 then a / b else -((-a) / b))
    else (if a >= 0 then -(a / (-b)) else (-a) / (-b))
  }

  /**
   * The truncated quotient leaves a remainder that is smaller than the divisor and has
   * the sign of the dividend: this is what sets it apart from floor or Euclidean division.
   */
  lemma QuotRemainder(a: int, b: int)
    requires b != 0
    ensures var r := a - Quot(a, b) * b;
      (a >= 0 ==> 0 <= r < Abs(b)) && (a < 0 ==> 0 < r + Abs(b) && r <= 0)
  {
    if a >= 0 {
      QuotRemainderNatural(a, b);
    } else {
      QuotRemainderNatural(-a, b);
      QuotNegate(-a, b);
      NegateProduct(Quot(-a, b), b);
    }
  }

  lemma QuotRemainderNatural(a: nat, b: int)
    requires b != 0
    ensures 0 <= a - Quot(a, b) * b < Abs(b)
  {
    var d: int := Abs(b);
    var q: int := a / d;
    assert 0 <= a - q * d < d;
    assert Quot(a, b) * b == q * d by {
      NegateProduct(q, b);
    }
  }

  lemma NegateProduct(x: int, y: int)
    ensures (-x) * y == -(x * y) == x * (-y)
  {}

  /** Truncation is symmetric in the sign of the dividend: -a / b == -(a / b) in C#. */
  lemma QuotNegate(a: int, b: int)
    requires b != 0
    ensures Quot(-a, b) == -Quot(a, b)
  {
    if a == 0 {
      assert Quot(0, b) == 0;
    }
  }

  /** For instance -7 / 2 is -3 in C#, where Euclidean (and floor) division gives -4. */
  lemma QuotTruncates()
    ensures Quot(-7, 2) == -3 && -7 / 2 == -4
  {
  }

  // ---------------------------------------------------------------------------
  // IntVector2

  datatype IntVector2 = IntVector2(x: int, z: int)

  const Zero := IntVector2(0, 0)

  function Add(a: IntVector2, b: IntVector2): IntVector2 { IntVector2(a.x + b.x, a.z + b.z) }
  function Sub(a: IntVector2, b: IntVector2): IntVector2 { IntVector2(a.x - b.x, a.z - b.z) }
  function Scale(a: IntVector2, k: int): IntVector2 { IntVector2(a.x * k, a.z * k) }

  /** operator /: each component divided by the scalar with truncation toward zero. */
  function Div(a: IntVector2, k: int): IntVector2
    requires k != 0
  {
    IntVector2(Quot(a.x, k), Quot(a.z, k))
  }

  function SqrMagnitude(v: IntVector2): int { v.x * v.x + v.z * v.z }

  function Dot(a: IntVector2, b: IntVector2): int { a.x * b.x + a.z * b.z }

  lemma DotSymmetric(a: IntVector2, b: IntVector2)
    ensures Dot(a, b) == Dot(b, a)
  {}

  /** SqrMagnitude is the dot product of a vector with itself, never negative, zero only at Zero. */
  lemma SqrMagnitudeProperties(v: IntVector2)
    ensures SqrMagnitude(v) == Dot(v, v)
    ensures SqrMagnitude(v) >= 0
    ensures SqrMagnitude(v) == 0 <==> v == Zero
  {
    SquarePositive(v.x);
    SquarePositive(v.z);
  }

  lemma SquarePositive(a: int)
    ensures a * a >= 0
    ensures a != 0 ==> a * a >= 1
  {
    if a < 0 {
      assert a * a == (-a) * (-a);
    }
  }

  /** Subtracting undoes adding, componentwise. */
  lemma AddSub(a: IntVector2, b: IntVector2)
    ensures Sub(Add(a, b), b) == a && Add(Sub(a, b), b) == a
  {}

  /** Division by a scalar inherits the sign symmetry of truncation. */
  lemma DivNegate(a: IntVector2, k: int)
    requires k != 0
    ensures Div(Scale(a, -1), k) == Scale(Div(a, k), -1)
  {
    QuotNegate(a.x, k);
    QuotNegate(a.z, k);
  }

  // ---------------------------------------------------------------------------
  // Magnitude and normalisation

  /**
   * The integer square root: the largest r with r * r <= n. This is what (int)Mathf.Sqrt(n)
   * computes while n is below 2^24; beyond that the float rounding of n and of its root can
   * make the source's value one larger.
   */
  function ISqrt(n: nat): nat
  {
    if n == 0 then 0
    else
      var s := ISqrt(n - 1);
      if (s + 1) * (s + 1) <= n then s + 1 else s
  }

  /** ISqrt(n) is the integer square root: its square fits under n, the next square does not. */
  lemma {:induction false} ISqrtBounds(n: nat)
    ensures ISqrt(n) * ISqrt(n) <= n < (ISqrt(n) + 1) * (ISqrt(n) + 1)
  {
    if n > 0 {
      ISqrtBounds(n - 1);
      var s := ISqrt(n - 1);
      if (s + 1) * (s + 1) > n {
        assert ISqrt(n) == s;
      } else {
        assert ISqrt(n) == s + 1;
        assert (s + 2) * (s + 2) == (s + 1) * (s + 1) + 2 * s + 3;
      }
    }
  }

  lemma SquareMonotone(a: nat, b: nat)
    requires a <= b
    ensures a * a <= b * b
  {
    assert a * a <= a * b <= b * b;
  }

  /** Every number whose square fits under n is at most the integer square root of n. */
  lemma ISqrtMaximal(m: nat, n: nat)
    requires m * m <= n
    ensures m <= ISqrt(n)
  {
    var r := ISqrt(n);
    ISqrtBounds(n);
    if m > r {
      SquareMonotone(r + 1, m);
    }
  }

  /** Magnitude: the integer square root of SqrMagnitude. */
  function Magnitude(v: IntVector2): nat
  {
    SqrMagnitudeProperties(v);
    ISqrt(SqrMagnitude(v))
  }

  /** The magnitude is zero exactly for the zero vector and bounds both components. */
  lemma MagnitudeProperties(v: IntVector2)
    ensures Magnitude(v) == 0 <==> v == Zero
    ensures Abs(v.x) <= Magnitude(v) && Abs(v.z) <= Magnitude(v)
  {
    SqrMagnitudeProperties(v);
    var n: nat := SqrMagnitude(v);
    assert Abs(v.x) <= ISqrt(n) by {
      ComponentBelow(v.x, v.z);
      ISqrtMaximal(Abs(v.x), n);
    }
    assert Abs(v.z) <= ISqrt(n) by {
      ComponentBelow(v.z, v.x);
      assert n == v.z * v.z + v.x * v.x;
      ISqrtMaximal(Abs(v.z), n);
    }
    if v != Zero {
      ISqrtMaximal(1, n);
    }
  }

  /** A component's square, taken of its absolute value, is below the squared magnitude. */
  lemma ComponentBelow(a: int, b: int)
    ensures Abs(a) * Abs(a) == a * a <= a * a + b * b
  {
    SquarePositive(b);
    if a < 0 {
      assert Abs(a) * Abs(a) == (-a) * (-a) == a * a;
    }
  }

  /** Normalized: Zero when the magnitude is 0, otherwise each component divided by it. */
  function Normalized(v: IntVector2): IntVector2
  {
    var m := Magnitude(v);
    if m == 0 then Zero else Div(v, m)
  }

  /**
   * Because the magnitude bounds both components, an integer normalisation has every
   * component in {-1, 0, 1}; it is Zero exactly when both components are smaller in size
   * than the magnitude.
   */
  lemma NormalizedComponents(v: IntVector2)
    ensures -1 <= Normalized(v).x <= 1 && -1 <= Normalized(v).z <= 1
    ensures v == Zero ==> Normalized(v) == Zero
    ensures v != Zero ==>
              (Normalized(v) == Zero <==> Abs(v.x) < Magnitude(v) && Abs(v.z) < Magnitude(v))
  {
    MagnitudeProperties(v);
    var m := Magnitude(v);
    if m != 0 {
      QuotUnit(v.x, m);
      QuotUnit(v.z, m);
    }
  }

  /** A quotient by a divisor at least as large as the dividend is -1, 0 or 1, and 0 exactly below it. */
  lemma QuotUnit(c: int, m: int)
    requires 0 < m && Abs(c) <= m
    ensures -1 <= Quot(c, m) <= 1
    ensures Quot(c, m) == 0 <==> Abs(c) < m
  {
    if c >= 0 {
      DivUnit(c, m);
    } else {
      DivUnit(-c, m);
      QuotNegate(-c, m);
    }
  }

  lemma DivUnit(n: nat, m: int)
    requires 0 < m && n <= m
    ensures Quot(n, m) == if n == m then 1 else 0
  {
    if n < m {
      assert n / m == 0;
    } else {
      assert m / m == 1;
    }
  }

  // ---------------------------------------------------------------------------
  // Agents

  /** The observable state of one agent, as a value. */
  datatype AgentState = AgentState(
    agentId: int, position: IntVector2, velocity: IntVector2, preferredVelocity: IntVector2,
    radius: int, maxSpeed: int, timeHorizon: int)

  /** Update's integration: velocity * deltaTimeMs / 1000 added to the position, truncated. */
  function Displace(position: IntVector2, velocity: IntVector2, deltaTimeMs: int): IntVector2
  {
    Add(position, Div(Scale(velocity, deltaTimeMs), 1000))
  }

  /** The agent after Update: only the position changes. */
  function Moved(a: AgentState, deltaTimeMs: int): AgentState
  {
    a.(position := Displace(a.position, a.velocity, deltaTimeMs))
  }

  /**
   * Integration is exact over a whole second, loses any per-component motion smaller than
   * one centimetre, and is symmetric under reversing the velocity (truncation, not floor).
   */
  lemma MovedProperties(a: AgentState, deltaTimeMs: int)
    ensures Moved(a, deltaTimeMs).agentId == a.agentId && Moved(a, deltaTimeMs).velocity == a.velocity
    ensures deltaTimeMs == 1000 ==> Moved(a, deltaTimeMs).position == Add(a.position, a.velocity)
    ensures Abs(a.velocity.x * deltaTimeMs) < 1000 ==> Moved(a, deltaTimeMs).position.x == a.position.x
    ensures Abs(a.velocity.z * deltaTimeMs) < 1000 ==> Moved(a, deltaTimeMs).position.z == a.position.z
    ensures Sub(Moved(a, deltaTimeMs).position, a.position) ==
            Scale(Sub(Moved(a.(velocity := Scale(a.velocity, -1)), deltaTimeMs).position, a.position), -1)
  {
    var d := Scale(a.velocity, deltaTimeMs);
    assert Scale(Scale(a.velocity, -1), deltaTimeMs) == Scale(d, -1);
    DivNegate(d, 1000);
  }

  /**
   * SetTarget's preferred velocity, as written: the direction to the target is normalised
   * with integer division and then scaled by the speed (-1 stands for the maximum speed).
   */
  function DesiredVelocity(position: IntVector2, target: IntVector2, speed: int, maxSpeed: int): IntVector2
  {
    var direction := Sub(target, position);
    var desiredSpeed := if speed == -1 then maxSpeed else speed;
    if SqrMagnitude(direction) > 0 then Scale(Normalized(direction), desiredSpeed) else Zero
  }

  /**
   * As written, each component of the preferred velocity is -s, 0 or s for the desired
   * speed s, and a target on the agent's own position gives Zero.
   */
  lemma DesiredVelocityComponents(position: IntVector2, target: IntVector2, speed: int, maxSpeed: int)
    ensures var s := if speed == -1 then maxSpeed else speed;
      var r := DesiredVelocity(position, target, speed, maxSpeed);
      (r.x == s || r.x == 0 || r.x == -s) && (r.z == s || r.z == 0 || r.z == -s)
    ensures target == position ==> DesiredVelocity(position, target, speed, maxSpeed) == Zero
  {
    var d := Sub(target, position);
    var s := if speed == -1 then maxSpeed else speed;
    if SqrMagnitude(d) > 0 {
      var u := Normalized(d);
      assert -1 <= u.x <= 1 && -1 <= u.z <= 1 by {
        NormalizedComponents(d);
      }
      UnitTimes(u.x, s);
      UnitTimes(u.z, s);
    } else if target == position {
      assert d == Zero;
    }
  }

  lemma UnitTimes(n: int, s: int)
    requires -1 <= n <= 1
    ensures n * s == s || n * s == 0 || n * s == -s
  {
    if n == -1 {
      assert n * s == -s;
    }
  }

  /** The integer square root of an exact square bracket. */
  lemma ISqrtOf(m: nat, n: nat)
    requires m * m <= n < (m + 1) * (m + 1)
    ensures ISqrt(n) == m
  {
    ISqrtMaximal(m, n);
    var r := ISqrt(n);
    ISqrtBounds(n);
    if r > m {
      SquareMonotone(m + 1, r);
    }
  }

  /**
   * The defect of the integer normalisation: whenever neither component of the direction to
   * the target is as large as its magnitude (any direction off the axes with both components
   * comparable), the preferred velocity is Zero whatever the speed.
   */
  lemma DesiredVelocityLosesDirection(position: IntVector2, target: IntVector2, speed: int, maxSpeed: int)
    requires var d := Sub(target, position); Abs(d.x) < Magnitude(d) && Abs(d.z) < Magnitude(d)
    ensures DesiredVelocity(position, target, speed, maxSpeed) == Zero
  {
    var d := Sub(target, position);
    MagnitudeProperties(d);
    NormalizedComponents(d);
  }

  /**
   * An instance: a target offset by (3, 4) from the agent is 5 away, and 3 / 5 and 4 / 5
   * both truncate to 0, so the agent is given no preferred velocity at any speed.
   */
  lemma ThreeFourLosesDirection(position: IntVector2, target: IntVector2, speed: int)
    requires Sub(target, position) == IntVector2(3, 4)
    ensures Magnitude(Sub(target, position)) == 5
    ensures DesiredVelocity(position, target, speed, 100) == Zero
  {
    ThreeFourMagnitude(Sub(target, position));
    DesiredVelocityLosesDirection(position, target, speed, 100);
  }

  lemma ThreeFourMagnitude(d: IntVector2)
    requires d == IntVector2(3, 4)
    ensures Magnitude(d) == 5
  {
    var n := SqrMagnitude(d);
    assert n == 25;
    ISqrtOf(5, n);
  }

  /**
   * The evidently intended preferred velocity: the direction scaled by the speed before the
   * division by its magnitude, so that the truncation happens once, at the end.
   */
  function ScaledVelocity(direction: IntVector2, speed: int): IntVector2
  {
    var m := Magnitude(direction);
    if m == 0 then Zero else Div(Scale(direction, speed), m)
  }

  /** With the intended scaling, any non-zero direction and a speed of at least its magnitude move the agent. */
  lemma ScaledVelocityMoves(direction: IntVector2, speed: int)
    requires direction != Zero && speed >= Magnitude(direction)
    ensures ScaledVelocity(direction, speed) != Zero
  {
    var m := Magnitude(direction);
    assert 0 < m && Abs(direction.x) <= m && Abs(direction.z) <= m by {
      MagnitudeProperties(direction);
    }
    DivScaledNonZero(direction, speed, m);
  }

  /** SetTarget as evidently intended: the desired speed applied before the truncating division. */
  function IntendedVelocity(position: IntVector2, target: IntVector2, speed: int, maxSpeed: int): IntVector2
  {
    var direction := Sub(target, position);
    var desiredSpeed := if speed == -1 then maxSpeed else speed;
    if direction != Zero then ScaledVelocity(direction, desiredSpeed) else Zero
  }

  /**
   * With the intended scaling and a desired speed of at least the distance, the preferred
   * velocity is Zero only when the agent is on its target, and each of its components has
   * the sign of the direction's component.
   */
  lemma IntendedVelocityKeepsDirection(position: IntVector2, target: IntVector2, speed: int, maxSpeed: int)
    requires (if speed == -1 then maxSpeed else speed) >= Magnitude(Sub(target, position))
    ensures var r := IntendedVelocity(position, target, speed, maxSpeed);
      r == Zero <==> Sub(target, position) == Zero
    ensures var d := Sub(target, position);
      var r := IntendedVelocity(position, target, speed, maxSpeed);
      (r.x > 0 <==> d.x > 0) && (r.x < 0 <==> d.x < 0) &&
      (r.z > 0 <==> d.z > 0) && (r.z < 0 <==> d.z < 0)
  {
    var d := Sub(target, position);
    if d != Zero {
      ScaledVelocitySigns(d, if speed == -1 then maxSpeed else speed);
    }
  }

  /** The intended scaling of a non-zero direction keeps the sign of each component. */
  lemma ScaledVelocitySigns(d: IntVector2, s: int)
    requires d != Zero && s >= Magnitude(d)
    ensures var r := ScaledVelocity(d, s);
      (r.x > 0 <==> d.x > 0) && (r.x < 0 <==> d.x < 0) &&
      (r.z > 0 <==> d.z > 0) && (r.z < 0 <==> d.z < 0)
  {
    var m := Magnitude(d);
    MagnitudeProperties(d);
    ScaledQuotSign(d.x, s, m);
    ScaledQuotSign(d.z, s, m);
  }

  /** Scaling by at least m and then truncating by m keeps the sign of c. */
  lemma ScaledQuotSign(c: int, speed: int, m: int)
    requires 0 < m <= speed
    ensures var q := Quot(c * speed, m); (q > 0 <==> c > 0) && (q < 0 <==> c < 0)
  {
    if c > 0 {
      MulAtLeast(c, speed);
      DivNonZero(c * speed, m);
    } else if c < 0 {
      MulAtLeast(-c, speed);
      NegateProduct(c, speed);
      DivNonZero(-(c * speed), m);
      QuotNegate(-(c * speed), m);
    } else {
      assert c * speed == 0;
    }
  }

  /** Scaling a non-zero vector by at least m before dividing by m leaves it non-zero. */
  lemma DivScaledNonZero(d: IntVector2, speed: int, m: int)
    requires d != Zero && 0 < m <= speed
    ensures Div(Scale(d, speed), m) != Zero
  {
    if d.x != 0 {
      ScaledQuotNonZero(d.x, speed, m);
    } else {
      ScaledQuotNonZero(d.z, speed, m);
    }
  }

  lemma ScaledQuotNonZero(c: int, speed: int, m: int)
    requires c != 0 && 0 < m <= speed
    ensures Quot(c * speed, m) != 0
  {
    AbsProduct(c, speed);
    MulAtLeast(Abs(c), speed);
    QuotNonZero(c * speed, m);
  }

  lemma MulAtLeast(a: nat, s: nat)
    requires a >= 1
    ensures a * s >= s
  {
    assert a * s == (a - 1) * s + s;
  }

  lemma AbsProduct(c: int, s: nat)
    ensures Abs(c * s) == Abs(c) * s
  {
    if c < 0 {
      NegateProduct(c, s);
    }
  }

  /** A quotient whose dividend is at least the divisor in size is not zero. */
  lemma QuotNonZero(a: int, m: int)
    requires 0 < m <= Abs(a)
    ensures Quot(a, m) != 0
  {
    if a >= 0 {
      DivNonZero(a, m);
    } else {
      DivNonZero(-a, m);
      QuotNegate(-a, m);
    }
  }

  lemma DivNonZero(n: nat, m: int)
    requires 0 < m <= n
    ensures Quot(n, m) != 0
  {
    assert n == (n / m) * m + n % m && n % m < m;
  }

  class RVOAgent {
    var agentId: int
    var position: IntVector2
    var velocity: IntVector2
    var preferredVelocity: IntVector2
    var radius: int
    var maxSpeed: int
    var timeHorizon: int

    /** A new agent is at rest, with radius 50 and speed 100 by default and a 300 cs horizon. */
    constructor (agentId: int, position: IntVector2, radius: int := 50, maxSpeed: int := 100)
      ensures this.agentId == agentId && this.position == position
      ensures velocity == Zero && preferredVelocity == Zero
      ensures this.radius == radius && this.maxSpeed == maxSpeed && timeHorizon == 300
    {
      this.agentId := agentId;
      this.position := position;
      velocity := Zero;
      preferredVelocity := Zero;
      this.radius := radius;
      this.maxSpeed := maxSpeed;
      timeHorizon := 300;
    }

    function State(): AgentState
      reads this
    {
      AgentState(agentId, position, velocity, preferredVelocity, radius, maxSpeed, timeHorizon)
    }

    /** Update(deltaTimeMs): only the position moves, by the truncated displacement. */
    method Update(deltaTimeMs: int)
      modifies this`position
      ensures State() == Moved(old(State()), deltaTimeMs)
    {
      position := Displace(position, velocity, deltaTimeMs);
    }

    /** SetTarget(targetPosition, speed = -1): only the preferred velocity changes. */
    method SetTarget(targetPosition: IntVector2, speed: int := -1)
      modifies this`preferredVelocity
      ensures preferredVelocity == DesiredVelocity(position, targetPosition, speed, maxSpeed)
      ensures State() == old(State()).(preferredVelocity := preferredVelocity)
    {
      var direction := Sub(targetPosition, position);
      var desiredSpeed := if speed == -1 then maxSpeed else speed;
      if SqrMagnitude(direction) > 0 {
        preferredVelocity := Scale(Normalized(direction), desiredSpeed);
      } else {
        preferredVelocity := Zero;
      }
    }
  }

  // ---------------------------------------------------------------------------
  // Neighbour selection

  /** The squared distance from `me` to `other`, the sort key of the neighbour list. */
  function Key(me: AgentState, other: AgentState): real
  {
    SqrMagnitude(Sub(other.position, me.position)) as real
  }

  /** An agent is a neighbour candidate when its id differs and it is strictly closer than the search distance. */
  predicate IsCandidate(me: AgentState, other: AgentState, neighborDist: int)
  {
    other.agentId != me.agentId && SqrMagnitude(Sub(other.position, me.position)) < neighborDist * neighborDist
  }

  /** The candidates among `s`, in list order, each paired with its key. */
  function Candidates(s: seq<AgentState>, me: AgentState, neighborDist: int): seq<(real, AgentState)>
  {
    if |s| == 0 then []
    else
      Candidates(s[..|s|-1], me, neighborDist) +
      (if IsCandidate(me, s[|s|-1], neighborDist) then [(Key(me, s[|s|-1]), s[|s|-1])] else [])
  }

  /** The agents of a keyed list, in order. */
  function Payloads<T>(s: seq<(real, T)>): seq<T>
  {
    if |s| == 0 then [] else Payloads(s[..|s|-1]) + [s[|s|-1].1]
  }

  /** FindNeighbors' result: the candidates, stably sorted by key, cut to the first maxNeighbors. */
  function NeighborsOf(s: seq<AgentState>, me: AgentState, neighborDist: int, maxNeighbors: nat): seq<AgentState>
  {
    Payloads(Take(InsSort(Candidates(s, me, neighborDist)), maxNeighbors))
  }

  ghost predicate KeyedFrom(t: seq<(real, AgentState)>, s: seq<AgentState>, me: AgentState, neighborDist: int)
  {
    forall k :: 0 <= k < |t| ==> t[k].0 == Key(me, t[k].1) && t[k].1 in s && IsCandidate(me, t[k].1, neighborDist)
  }

  lemma {:induction false} CandidatesKeyed(s: seq<AgentState>, me: AgentState, neighborDist: int)
    ensures KeyedFrom(Candidates(s, me, neighborDist), s, me, neighborDist)
  {
    if |s| > 0 {
      var p := s[..|s|-1];
      CandidatesKeyed(p, me, neighborDist);
      var c := Candidates(s, me, neighborDist);
      forall k | 0 <= k < |c| ensures c[k].0 == Key(me, c[k].1) && c[k].1 in s && IsCandidate(me, c[k].1, neighborDist) {
        if k < |Candidates(p, me, neighborDist)| {
          assert c[k] == Candidates(p, me, neighborDist)[k];
          assert c[k].1 in p;
        }
      }
    }
  }

  lemma {:induction false} PayloadsIndex<T>(s: seq<(real, T)>)
    ensures |Payloads(s)| == |s|
    ensures forall k :: 0 <= k < |s| ==> Payloads(s)[k] == s[k].1
  {
    if |s| > 0 {
      PayloadsIndex(s[..|s|-1]);
    }
  }

  lemma KeyedPermutation(t: seq<(real, AgentState)>, u: seq<(real, AgentState)>,
                         s: seq<AgentState>, me: AgentState, neighborDist: int)
    requires KeyedFrom(t, s, me, neighborDist) && multiset(u) == multiset(t)
    ensures KeyedFrom(u, s, me, neighborDist)
  {
    forall k | 0 <= k < |u| ensures u[k].0 == Key(me, u[k].1) && u[k].1 in s && IsCandidate(me, u[k].1, neighborDist) {
      assert u[k] in multiset(u);
      assert u[k] in t;
    }
  }

  /**
   * The neighbours are agents of the list with another id, strictly inside the search
   * distance, in non-decreasing order of squared distance, at most maxNeighbors of them;
   * when no more than maxNeighbors qualify, every candidate is kept.
   */
  lemma NeighborsOfProperties(s: seq<AgentState>, me: AgentState, neighborDist: int, maxNeighbors: nat)
    ensures var r := NeighborsOf(s, me, neighborDist, maxNeighbors);
      var c := Candidates(s, me, neighborDist);
      |r| == (if |c| > maxNeighbors then maxNeighbors else |c|) &&
      (forall k :: 0 <= k < |r| ==> r[k] in s && r[k].agentId != me.agentId &&
                                    SqrMagnitude(Sub(r[k].position, me.position)) < neighborDist * neighborDist) &&
      (forall i, j :: 0 <= i < j < |r| ==> Key(me, r[i]) <= Key(me, r[j])) &&
      (|c| <= maxNeighbors ==> forall k :: 0 <= k < |c| ==> c[k].1 in r)
  {
    var c := Candidates(s, me, neighborDist);
    var sorted := InsSort(c);
    InsSortSortedPermutation(c);
    CandidatesKeyed(s, me, neighborDist);
    KeyedPermutation(c, sorted, s, me, neighborDist);
    var t := Take(sorted, maxNeighbors);
    PayloadsIndex(t);
    var r := Payloads(t);
    forall k | 0 <= k < |r|
      ensures r[k] in s && r[k].agentId != me.agentId &&
              SqrMagnitude(Sub(r[k].position, me.position)) < neighborDist * neighborDist
    {
      assert t[k] == sorted[k];
    }
    forall i, j | 0 <= i < j < |r| ensures Key(me, r[i]) <= Key(me, r[j]) {
      assert t[i] == sorted[i] && t[j] == sorted[j];
    }
    if |c| <= maxNeighbors {
      forall k | 0 <= k < |c| ensures c[k].1 in r {
        assert c[k] in multiset(sorted);
        var m :| 0 <= m < |sorted| && sorted[m] == c[k];
        assert r[m] == t[m].1;
      }
    }
  }

  /**
   * FindNeighbors: collect the candidates in list order, sort them by an in-place stable
   * insertion sort, then cut the list to maxNeighbors (RemoveRange).
   */
  method FindNeighbors(agents: seq<AgentState>, me: AgentState, neighborDist: int, maxNeighbors: nat)
    returns (neighbors: seq<AgentState>)
    ensures neighbors == NeighborsOf(agents, me, neighborDist, maxNeighbors)
  {
    var t: seq<(real, AgentState)> := [];
    var k := 0;
    while k < |agents|
      invariant 0 <= k <= |agents| && t == Candidates(agents[..k], me, neighborDist)
    {
      assert agents[..k+1][..k] == agents[..k];
      var other := agents[k];
      if other.agentId != me.agentId {
        var distance := Sub(other.position, me.position);
        var sqrDist := SqrMagnitude(distance);
        var maxDistSqr := neighborDist * neighborDist;
        if sqrDist < maxDistSqr {
          t := t + [(sqrDist as real, other)];
        }
      }
      k := k + 1;
    }
    assert agents[..k] == agents;
    ghost var c := t;
    if |t| > 0 {
      assert c[..1] == [c[0]] && c[..1][..0] == [];
      var i := 1;
      while i < |t|
        invariant 1 <= i <= |t| == |c| && t[..i] == InsSort(c[..i]) && t[i..] == c[i..]
      {
        var current := t[i];
        var sortedPrefix := Insert(t[..i], current);
        SortStep(c, t, i, sortedPrefix);
        t := sortedPrefix + t[i+1..];
        i := i + 1;
      }
      assert c[..i] == c && t[..i] == t;
    }
    if |t| > maxNeighbors {
      t := t[..maxNeighbors];
    }
    neighbors := ProjectAgents(t);
  }

  /** The agents of a keyed list, collected by a loop. */
  method ProjectAgents(t: seq<(real, AgentState)>) returns (r: seq<AgentState>)
    ensures r == Payloads(t)
  {
    r := [];
    var k := 0;
    while k < |t|
      invariant 0 <= k <= |t| && r == Payloads(t[..k])
    {
      assert t[..k+1][..k] == t[..k];
      r := r + [t[k].1];
      k := k + 1;
    }
    assert t[..k] == t;
  }

  // ---------------------------------------------------------------------------
  // Cost of a velocity and the choice among candidates

  /**
   * CalculateCollisionRisk: 1000 when the two discs overlap; 0 when they move apart, when
   * the relative velocity is zero or when the time to closest approach t (centiseconds,
   * truncated) exceeds the horizon; otherwise 10 * (1 - t / horizon). A zero horizon (a
   * float 0/0) is excluded.
   */
  function CollisionRisk(me: AgentState, other: AgentState, v: IntVector2): real
    requires me.timeHorizon != 0
  {
    var relativePosition := Sub(other.position, me.position);
    var relativeVelocity := Sub(other.velocity, v);
    Risk(SqrMagnitude(relativePosition), me.radius + other.radius,
         Dot(relativeVelocity, relativePosition), SqrMagnitude(relativeVelocity), me.timeHorizon)
  }

  /** The branches of CalculateCollisionRisk, on the quantities it computes first. */
  function Risk(distanceSqr: int, combinedRadius: int, dotProduct: int, velocitySqr: int, timeHorizon: int): real
    requires timeHorizon != 0
  {
    if distanceSqr < combinedRadius * combinedRadius then 1000.0
    else if dotProduct > 0 then 0.0
    else if velocitySqr == 0 then 0.0
    else
      var t := Quot(-dotProduct * 1000, velocitySqr);
      if t > timeHorizon then 0.0
      else (1.0 - Ratio(t, timeHorizon)) * 10.0
  }

  /**
   * The risk is 1000 exactly for overlapping discs; otherwise it lies in [0, 10] and is
   * positive only when the agents approach each other with a non-zero relative velocity.
   */
  lemma CollisionRiskRange(me: AgentState, other: AgentState, v: IntVector2)
    requires me.timeHorizon != 0
    ensures var r := CollisionRisk(me, other, v);
      var rp, rv := Sub(other.position, me.position), Sub(other.velocity, v);
      var cr := me.radius + other.radius;
      (r == 1000.0 <==> SqrMagnitude(rp) < cr * cr) &&
      (SqrMagnitude(rp) >= cr * cr ==> 0.0 <= r <= 10.0) &&
      (SqrMagnitude(rp) >= cr * cr && r > 0.0 ==> Dot(rv, rp) <= 0 && rv != Zero)
  {
    var rp, rv := Sub(other.position, me.position), Sub(other.velocity, v);
    SqrMagnitudeProperties(rv);
    RiskRange(SqrMagnitude(rp), me.radius + other.radius, Dot(rv, rp), SqrMagnitude(rv), me.timeHorizon);
  }

  lemma RiskRange(distanceSqr: int, combinedRadius: int, dotProduct: int, velocitySqr: int, timeHorizon: int)
    requires timeHorizon != 0 && velocitySqr >= 0
    ensures var r := Risk(distanceSqr, combinedRadius, dotProduct, velocitySqr, timeHorizon);
      var apart := distanceSqr >= combinedRadius * combinedRadius;
      (r == 1000.0 <==> !apart) &&
      (apart ==> 0.0 <= r <= 10.0) &&
      (apart && r > 0.0 ==> dotProduct <= 0 && velocitySqr != 0)
  {
    if distanceSqr >= combinedRadius * combinedRadius && dotProduct <= 0 && velocitySqr != 0 {
      var t := Quot(-dotProduct * 1000, velocitySqr);
      assert t >= 0;
      if t <= timeHorizon {
        RiskFraction(t, timeHorizon);
      }
    }
  }

  /** A time to closest approach within the horizon gives a risk between 0 and 10. */
  lemma RiskFraction(t: int, horizon: int)
    requires 0 <= t <= horizon && horizon != 0
    ensures 0.0 <= (1.0 - Ratio(t, horizon)) * 10.0 <= 10.0
  {
    var th := horizon as real;
    assert 0.0 <= (t as real) / th <= 1.0 by {
      assert (t as real) <= th && th > 0.0;
    }
  }

  /** The time fraction t / horizon, in float arithmetic. */
  function Ratio(t: int, horizon: int): real
    requires horizon != 0
  {
    (t as real) / (horizon as real)
  }

  /** The collision risks of `v` against the neighbours, summed in list order. */
  function SumRisk(me: AgentState, neighbors: seq<AgentState>, v: IntVector2): real
    requires me.timeHorizon != 0
  {
    if |neighbors| == 0 then 0.0
    else SumRisk(me, neighbors[..|neighbors|-1], v) + CollisionRisk(me, neighbors[|neighbors|-1], v)
  }

  /** CalculateCost: the squared deviation from the preferred velocity over 10000, plus the risks. */
  function Cost(me: AgentState, v: IntVector2, neighbors: seq<AgentState>): real
    requires me.timeHorizon != 0
  {
    (SqrMagnitude(Sub(v, me.preferredVelocity)) as real) / 10000.0 + SumRisk(me, neighbors, v)
  }

  /** With no neighbours around, the preferred velocity costs 0, so nothing costs less (DeviationCost). */
  lemma CostAlone(me: AgentState)
    requires me.timeHorizon != 0
    ensures Cost(me, me.preferredVelocity, []) == 0.0
  {
    var p := me.preferredVelocity;
    assert SumRisk(me, [], p) == 0.0;
    assert SqrMagnitude(Sub(p, p)) == 0 by {
      assert Sub(p, p) == Zero;
    }
  }

  /** Without neighbours the cost is just the scaled squared deviation, never negative. */
  lemma DeviationCost(me: AgentState, v: IntVector2)
    requires me.timeHorizon != 0
    ensures Cost(me, v, []) == (SqrMagnitude(Sub(v, me.preferredVelocity)) as real) / 10000.0 >= 0.0
  {
    SqrMagnitudeProperties(Sub(v, me.preferredVelocity));
  }

  /** The costs of the candidates, in order. */
  function Costs(me: AgentState, candidates: seq<IntVector2>, neighbors: seq<AgentState>): (r: seq<real>)
    requires me.timeHorizon != 0
    ensures |r| == |candidates|
    ensures forall k :: 0 <= k < |r| ==> r[k] == Cost(me, candidates[k], neighbors)
  {
    if |candidates| == 0 then []
    else Costs(me, candidates[..|candidates|-1], neighbors) + [Cost(me, candidates[|candidates|-1], neighbors)]
  }

  /** ComputeOptimalVelocity's result, as a function of the candidates it is given. */
  function OptimalVelocity(me: AgentState, neighbors: seq<AgentState>, candidates: seq<IntVector2>): IntVector2
    requires me.timeHorizon != 0
  {
    var i := Pick(Cost(me, me.preferredVelocity, neighbors), Costs(me, candidates, neighbors));
    if i == -1 then me.preferredVelocity else candidates[i]
  }

  /**
   * The chosen velocity is the preferred one or a candidate, and no candidate is cheaper;
   * the preferred velocity is kept unless some candidate is strictly cheaper.
   */
  lemma OptimalVelocityProperties(me: AgentState, neighbors: seq<AgentState>, candidates: seq<IntVector2>)
    requires me.timeHorizon != 0
    ensures var v := OptimalVelocity(me, neighbors, candidates);
      (v == me.preferredVelocity || v in candidates) &&
      Cost(me, v, neighbors) <= Cost(me, me.preferredVelocity, neighbors) &&
      (forall k :: 0 <= k < |candidates| ==> Cost(me, v, neighbors) <= Cost(me, candidates[k], neighbors))
    ensures (forall k :: 0 <= k < |candidates| ==>
               Cost(me, candidates[k], neighbors) >= Cost(me, me.preferredVelocity, neighbors)) ==>
            OptimalVelocity(me, neighbors, candidates) == me.preferredVelocity
  {
    var c0 := Cost(me, me.preferredVelocity, neighbors);
    var costs := Costs(me, candidates, neighbors);
    var v := OptimalVelocity(me, neighbors, candidates);
    var i := Pick(c0, costs);
    PickMinimal(c0, costs);
    assert (v == me.preferredVelocity || v in candidates) && Cost(me, v, neighbors) == PickedCost(c0, costs) by {
      if i != -1 {
        assert v == candidates[i];
        assert costs[i] == Cost(me, candidates[i], neighbors);
      }
    }
  }

  /** ComputeOptimalVelocity: a scan over the candidates keeping the first strictly cheapest. */
  method ComputeOptimalVelocity(me: AgentState, neighbors: seq<AgentState>, candidates: seq<IntVector2>)
    returns (optimalVelocity: IntVector2)
    requires me.timeHorizon != 0
    ensures optimalVelocity == OptimalVelocity(me, neighbors, candidates)
  {
    optimalVelocity := me.preferredVelocity;
    var optimalCost := Cost(me, optimalVelocity, neighbors);
    ghost var c0 := optimalCost;
    ghost var costs := Costs(me, candidates, neighbors);
    var k := 0;
    while k < |candidates|
      invariant 0 <= k <= |candidates|
      invariant var i := Pick(c0, costs[..k]);
        optimalVelocity == (if i == -1 then me.preferredVelocity else candidates[i]) &&
        optimalCost == PickedCost(c0, costs[..k])
    {
      PickExtend(c0, costs, k);
      var cost := Cost(me, candidates[k], neighbors);
      if cost < optimalCost {
        optimalVelocity := candidates[k];
        optimalCost := cost;
      }
      k := k + 1;
    }
    assert costs[..k] == costs;
  }

  // ---------------------------------------------------------------------------
  // One step of the whole simulation, on values

  ghost predicate Horizons(s: seq<AgentState>)
  {
    forall k :: 0 <= k < |s| ==> s[k].timeHorizon != 0
  }

  /**
   * DoStep's first loop over agents 0..k-1, in list order, for a rule `step` that gives
   * agent i its new velocity from the states as they are at its turn: later agents see
   * the new velocities of earlier ones, and only velocities change.
   */
  function Pass(s: seq<AgentState>, k: nat, step: (seq<AgentState>, nat) -> IntVector2): (r: seq<AgentState>)
    requires k <= |s|
    ensures |r| == |s|
  {
    if k == 0 then s
    else
      var t := Pass(s, k - 1, step);
      t[k - 1 := t[k - 1].(velocity := step(t, k - 1))]
  }

  /** The pass changes velocities only, and leaves the agents whose turn has not come alone. */
  lemma {:induction false} PassShape(s: seq<AgentState>, k: nat, step: (seq<AgentState>, nat) -> IntVector2)
    requires k <= |s|
    ensures forall j :: 0 <= j < |s| ==> Pass(s, k, step)[j] == s[j].(velocity := Pass(s, k, step)[j].velocity)
    ensures forall j :: k <= j < |s| ==> Pass(s, k, step)[j] == s[j]
  {
    if k > 0 {
      PassShape(s, k - 1, step);
    }
  }

  /** Each agent's velocity is final once its turn has passed. */
  lemma {:induction false} PassFinal(s: seq<AgentState>, k: nat, j: nat, step: (seq<AgentState>, nat) -> IntVector2)
    requires j < k <= |s|
    ensures Pass(s, k, step)[j] == Pass(s, j + 1, step)[j]
    decreases k
  {
    if k > j + 1 {
      PassFinal(s, k - 1, j, step);
    }
  }

  /**
   * After the whole pass, agent j has the velocity the rule gives it on the states seen at
   * its turn: j's own original state, with the new velocities of agents 0..j-1.
   */
  lemma PassTurn(s: seq<AgentState>, j: nat, step: (seq<AgentState>, nat) -> IntVector2)
    requires j < |s|
    ensures var t := Pass(s, j, step);
      Pass(s, |s|, step)[j] == s[j].(velocity := step(t, j)) &&
      t[j] == s[j] && (forall i :: 0 <= i < j ==> t[i] == Pass(s, |s|, step)[i])
  {
    PassFinal(s, |s|, j, step);
    PassShape(s, j, step);
    var t := Pass(s, j, step);
    forall i | 0 <= i < j ensures t[i] == Pass(s, |s|, step)[i] {
      PassFinal(s, |s|, i, step);
      PassFinal(s, j, i, step);
    }
  }

  /** One more turn of the pass: agent k takes the velocity the rule gives it. */
  lemma PassStep(s: seq<AgentState>, k: nat, step: (seq<AgentState>, nat) -> IntVector2, v: IntVector2)
    requires k < |s| && v == step(Pass(s, k, step), k)
    ensures Pass(s, k + 1, step) == Pass(s, k, step)[k := Pass(s, k, step)[k].(velocity := v)]
  {}

  /**
   * RVOAlgorithm's rule: ComputeOptimalVelocity against FindNeighbors, both on the states
   * at agent i's turn. DoStep requires non-zero horizons, so the Zero fallback is never used.
   */
  function OptimalStep(neighborDist: int, maxNeighbors: nat, candidates: AgentState -> seq<IntVector2>)
    : (seq<AgentState>, nat) -> IntVector2
  {
    (t: seq<AgentState>, i: nat) =>
      if i < |t| && t[i].timeHorizon != 0 then OptimalTurn(t, i, neighborDist, maxNeighbors, candidates) else Zero
  }

  /** Agent i's choice on the states t: the optimal velocity against its neighbours in t. */
  function OptimalTurn(t: seq<AgentState>, i: nat, neighborDist: int, maxNeighbors: nat,
                       candidates: AgentState -> seq<IntVector2>): IntVector2
    requires i < |t| && t[i].timeHorizon != 0
  {
    OptimalVelocity(t[i], NeighborsOf(t, t[i], neighborDist, maxNeighbors), candidates(t[i]))
  }

  /** The rule applied to the states `t` at agent j's turn. */
  ghost function Turn(step: (seq<AgentState>, nat) -> IntVector2, t: seq<AgentState>, j: nat): IntVector2
  {
    step(t, j)
  }

  /**
   * `step` gives every agent with a non-zero horizon ComputeOptimalVelocity's choice against
   * FindNeighbors' list. Stated through Turn so that it is used only where a proof asks.
   */
  ghost predicate RuleIs(step: (seq<AgentState>, nat) -> IntVector2, neighborDist: int, maxNeighbors: nat,
                         candidates: AgentState -> seq<IntVector2>)
  {
    forall t: seq<AgentState>, j: nat {:trigger Turn(step, t, j)} :: j < |t| && t[j].timeHorizon != 0 ==>
      Turn(step, t, j) == OptimalTurn(t, j, neighborDist, maxNeighbors, candidates)
  }

  lemma OptimalStepRule(neighborDist: int, maxNeighbors: nat, candidates: AgentState -> seq<IntVector2>)
    ensures RuleIs(OptimalStep(neighborDist, maxNeighbors, candidates), neighborDist, maxNeighbors, candidates)
  {}

  /** Agent i's new velocity: its neighbours are found, then the cheapest candidate is picked. */
  method TurnVelocity(st: seq<AgentState>, i: nat, neighborDist: int, maxNeighbors: nat,
                      candidates: AgentState -> seq<IntVector2>) returns (v: IntVector2)
    requires i < |st| && st[i].timeHorizon != 0
    ensures v == OptimalTurn(st, i, neighborDist, maxNeighbors, candidates)
  {
    var neighbors := FindNeighbors(st, st[i], neighborDist, maxNeighbors);
    v := ComputeOptimalVelocity(st[i], neighbors, candidates(st[i]));
  }

  /** Every velocity DoStep assigns is the agent's preferred velocity or one of its candidates. */
  lemma OptimalPassChoices(s: seq<AgentState>, neighborDist: int, maxNeighbors: nat,
                           candidates: AgentState -> seq<IntVector2>, j: nat)
    requires j < |s| && Horizons(s)
    ensures var step := OptimalStep(neighborDist, maxNeighbors, candidates);
      var v := Pass(s, |s|, step)[j].velocity;
      v == s[j].preferredVelocity || v in candidates(s[j])
  {
    var step := OptimalStep(neighborDist, maxNeighbors, candidates);
    PassTurn(s, j, step);
    var t := Pass(s, j, step);
    OptimalVelocityProperties(t[j], NeighborsOf(t, t[j], neighborDist, maxNeighbors), candidates(t[j]));
  }

  /**
   * One DoStep on the agents' states: every agent in turn takes its optimal velocity against
   * the states as they stand at its turn, then all of them move.
   */
  function SimulationStep(s: seq<AgentState>, neighborDist: int, maxNeighbors: nat,
                          candidates: AgentState -> seq<IntVector2>, deltaTimeMs: int): seq<AgentState>
  {
    MovePass(Pass(s, |s|, OptimalStep(neighborDist, maxNeighbors, candidates)), deltaTimeMs)
  }

  /** The second pass of DoStep: every agent moves by its (new) velocity. */
  function MovePass(s: seq<AgentState>, deltaTimeMs: int): (r: seq<AgentState>)
    ensures |r| == |s| && forall j :: 0 <= j < |s| ==> r[j] == Moved(s[j], deltaTimeMs)
  {
    if |s| == 0 then [] else MovePass(s[..|s|-1], deltaTimeMs) + [Moved(s[|s|-1], deltaTimeMs)]
  }

  // ---------------------------------------------------------------------------
  // The simulation

  /** The states of a list of agents, in order. */
  function States(s: seq<RVOAgent>): (r: seq<AgentState>)
    reads s
    ensures |r| == |s| && forall j :: 0 <= j < |s| ==> r[j] == s[j].State()
  {
    if |s| == 0 then [] else States(s[..|s|-1]) + [s[|s|-1].State()]
  }

  /** The agents with the given id, the ones RemoveAll drops. */
  function WithId(s: seq<RVOAgent>, agentId: int): set<RVOAgent>
    reads s
  {
    set a | a in s && a.agentId == agentId
  }

  class RVOAlgorithm {
    var agents: seq<RVOAgent>
    var timeStep: int
    var neighborDist: int
    var maxNeighbors: nat

    /** The list is empty; the time step, search distance and neighbour limit are stored. */
    constructor (timeStep: int := 16, neighborDist: int := 500, maxNeighbors: nat := 10)
      ensures agents == [] && this.timeStep == timeStep
      ensures this.neighborDist == neighborDist && this.maxNeighbors == maxNeighbors
    {
      agents := [];
      this.timeStep := timeStep;
      this.neighborDist := neighborDist;
      this.maxNeighbors := maxNeighbors;
    }

    method AddAgent(agent: RVOAgent)
      modifies this`agents
      ensures agents == old(agents) + [agent]
    {
      agents := agents + [agent];
    }

    /** RemoveAgent: every agent with the id is dropped; the others keep their order. */
    method RemoveAgent(agentId: int)
      modifies this`agents
      ensures agents == FilterOut(old(agents), WithId(old(agents), agentId))
      ensures forall a :: a in agents ==> a in old(agents) && a.agentId != agentId
      ensures forall a :: a in old(agents) && a.agentId != agentId ==> a in agents
    {
      ghost var dropped := WithId(agents, agentId);
      FilterOutMembers(agents, dropped);
      agents := FilterOut(agents, WithId(agents, agentId));
    }

    function GetAgents(): seq<RVOAgent>
      reads this
    {
      agents
    }

    method ClearAgents()
      modifies this`agents
      ensures agents == []
    {
      agents := [];
    }

    /**
     * DoStep: first every agent, in list order, gets the optimal velocity among its
     * candidates against its current neighbours; only then do all agents move. Candidate
     * generation (cos/sin sampling) is supplied by the caller.
     */
    method DoStep(candidates: AgentState -> seq<IntVector2>)
      requires Distinct(agents) && Horizons(States(agents))
      modifies agents
      ensures States(agents) ==
              SimulationStep(old(States(agents)), neighborDist, maxNeighbors, candidates, timeStep)
    {
      var s, nd, mn, dt := agents, neighborDist, maxNeighbors, timeStep;
      OptimalStepAll(s, nd, mn, candidates, dt);
    }
  }

  /** Both loops of DoStep with the optimal rule. */
  method OptimalStepAll(s: seq<RVOAgent>, neighborDist: int, maxNeighbors: nat, candidates: AgentState -> seq<IntVector2>,
                        deltaTimeMs: int)
    requires Distinct(s) && Horizons(States(s))
    modifies s
    ensures States(s) == SimulationStep(old(States(s)), neighborDist, maxNeighbors, candidates, deltaTimeMs)
  {
    OptimalStepRule(neighborDist, maxNeighbors, candidates);
    StepAll(s, neighborDist, maxNeighbors, candidates, OptimalStep(neighborDist, maxNeighbors, candidates), deltaTimeMs);
  }

  /** Both loops of DoStep, for any rule that picks the optimal velocities. */
  method StepAll(s: seq<RVOAgent>, neighborDist: int, maxNeighbors: nat, candidates: AgentState -> seq<IntVector2>,
                 ghost step: (seq<AgentState>, nat) -> IntVector2, deltaTimeMs: int)
    requires Distinct(s) && Horizons(States(s)) && RuleIs(step, neighborDist, maxNeighbors, candidates)
    modifies s
    ensures States(s) == MovePass(Pass(old(States(s)), |s|, step), deltaTimeMs)
  {
    VelocityPass(s, neighborDist, maxNeighbors, candidates, step);
    MoveAll(s, deltaTimeMs);
  }

  /** Agent i takes velocity v; nothing else changes. */
  method AssignVelocity(s: seq<RVOAgent>, i: nat, v: IntVector2)
    requires i < |s| && Distinct(s)
    modifies s[i]
    ensures States(s) == old(States(s))[i := old(States(s))[i].(velocity := v)]
  {
    s[i].velocity := v;
  }

  /** Agent i takes the velocity a rule gives it at its turn: the pass advances by one. */
  method AdvanceTurn(s: seq<RVOAgent>, i: nat, ghost step: (seq<AgentState>, nat) -> IntVector2,
                     ghost S0: seq<AgentState>, v: IntVector2)
    requires Distinct(s) && i < |s| && |S0| == |s|
    requires States(s) == Pass(S0, i, step) && v == step(States(s), i)
    modifies s
    ensures States(s) == Pass(S0, i + 1, step)
  {
    PassStep(S0, i, step, v);
    AssignVelocity(s, i, v);
  }

  /** One turn of DoStep's first loop: agent i gets its new velocity. */
  method VelocityTurn(s: seq<RVOAgent>, i: nat, neighborDist: int, maxNeighbors: nat,
                      candidates: AgentState -> seq<IntVector2>,
                      ghost step: (seq<AgentState>, nat) -> IntVector2, ghost S0: seq<AgentState>)
    requires Distinct(s) && i < |s| && |S0| == |s| && Horizons(S0)
    requires RuleIs(step, neighborDist, maxNeighbors, candidates)
    requires States(s) == Pass(S0, i, step)
    modifies s
    ensures States(s) == Pass(S0, i + 1, step)
  {
    var st := States(s);
    assert st[i] == S0[i] by {
      PassShape(S0, i, step);
    }
    var v := TurnVelocity(st, i, neighborDist, maxNeighbors, candidates);
    assert Turn(step, st, i) == v;
    AdvanceTurn(s, i, step, S0, v);
  }

  /** DoStep's first loop: the velocity turns of agents 0, 1, ... in list order. */
  method VelocityPass(s: seq<RVOAgent>, neighborDist: int, maxNeighbors: nat,
                      candidates: AgentState -> seq<IntVector2>, ghost step: (seq<AgentState>, nat) -> IntVector2)
    requires Distinct(s) && Horizons(States(s))
    requires RuleIs(step, neighborDist, maxNeighbors, candidates)
    modifies s
    ensures States(s) == Pass(old(States(s)), |s|, step)
  {
    ghost var S0 := States(s);
    var i := 0;
    while i < |s|
      invariant 0 <= i <= |s| && |S0| == |s| && Horizons(S0)
      invariant States(s) == Pass(S0, i, step)
    {
      VelocityTurn(s, i, neighborDist, maxNeighbors, candidates, step, S0);
      i := i + 1;
    }
  }

  /** DoStep's second loop: every agent moves by its velocity over the time step. */
  method MoveAll(s: seq<RVOAgent>, deltaTimeMs: int)
    requires Distinct(s)
    modifies s
    ensures States(s) == MovePass(old(States(s)), deltaTimeMs)
  {
    ghost var V := States(s);
    MoveEach(s, deltaTimeMs, V);
    SameStates(s, MovePass(V, deltaTimeMs));
  }

  /** The loop itself: agent i's new state is its state before, moved. */
  method MoveEach(s: seq<RVOAgent>, deltaTimeMs: int, ghost V: seq<AgentState>)
    requires Distinct(s) && V == States(s)
    modifies s
    ensures forall j :: 0 <= j < |s| ==> s[j].State() == Moved(V[j], deltaTimeMs)
  {
    var i := 0;
    while i < |s|
      invariant 0 <= i <= |s| && |V| == |s|
      invariant forall j :: 0 <= j < i ==> s[j].State() == Moved(V[j], deltaTimeMs)
      invariant forall j :: i <= j < |s| ==> s[j].State() == V[j]
    {
      s[i].Update(deltaTimeMs);
      i := i + 1;
    }
  }

  /** A list of agents whose states are those of W, one by one, has States W. */
  lemma SameStates(s: seq<RVOAgent>, W: seq<AgentState>)
    requires |W| == |s| && forall j :: 0 <= j < |s| ==> s[j].State() == W[j]
    ensures States(s) == W
  {}
}
