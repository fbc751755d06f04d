/**
 * Combat state and target selection (CombatUnit.cs): building targets with health, the
 * target list with its searches, and the move/attack flags of a combat unit.
 *
 * Vector3.Distance is a parameter `distance`; Time.time is a parameter `now`.
 */
module Combat {
  import opened RVOMath
  import opened Scans
  import opened Seqs
  import opened UnitTracking

  const IntMin: int := -0x8000_0000
  const IntMax: int := 0x7fff_ffff

  /** C#'s int. */
  type Int32 = x: int | IntMin <= x <= IntMax

  /** BuildingTarget, the one kind of ITarget: a building with health. */
  class BuildingTarget {
    var TargetId: int
    var Position: Vec3
    var Radius: real
    var IsAlive: bool
    var Priority: Int32
    var Health: int
    var MaxHealth: int

    /** new BuildingTarget(targetId, position, radius = 1, priority = 0): alive at full health 100. */
    constructor (targetId: int, position: Vec3, radius: real := 1.0, priority: Int32 := 0)
      ensures TargetId == targetId && Position == position && Radius == radius && Priority == priority
      ensures IsAlive && MaxHealth == 100 && Health == MaxHealth
    {
      TargetId := targetId;
      Position := position;
      Radius := radius;
      IsAlive := true;
      Priority := priority;
      MaxHealth := 100;
      Health := 100;
    }

    /**
     * TakeDamage: health drops by the damage rounded down, stopping at 0; a building whose
     * health reaches 0 is dead.
     */
    method TakeDamage(damage: real)
      modifies this`Health, this`IsAlive
      ensures Health == if old(Health) - damage.Floor <= 0 then 0 else old(Health) - damage.Floor
      ensures IsAlive <==> old(IsAlive) && old(Health) - damage.Floor > 0
      ensures Health >= 0 && (Health == 0 ==> !IsAlive)
    {
      Health := Health - damage.Floor;
      if Health <= 0 {
        Health := 0;
        IsAlive := false;
      }
    }
  }

  /** The target is alive and no farther than maxRange from position. */
  ghost predicate InReach(t: BuildingTarget, position: Vec3, maxRange: real, distance: (Vec3, Vec3) -> real)
    reads t
  {
    t.IsAlive && distance(position, t.Position) <= maxRange
  }

  /**
   * The costs FindClosestTarget compares: a target's distance when it is in reach, else
   * float.MaxValue, which never beats the running best.
   */
  ghost function ClosestCosts(s: seq<BuildingTarget>, position: Vec3, maxRange: real,
                              distance: (Vec3, Vec3) -> real): (r: seq<real>)
    reads s
    ensures |r| == |s|
  {
    seq(|s|, k requires 0 <= k < |s| reads s =>
      if InReach(s[k], position, maxRange, distance) then distance(position, s[k].Position) else FloatMax)
  }

  /** The position FindClosestTarget settles on, or -1. */
  ghost function ClosestIndex(s: seq<BuildingTarget>, position: Vec3, maxRange: real,
                              distance: (Vec3, Vec3) -> real): int
    reads s
  {
    Pick(FloatMax, ClosestCosts(s, position, maxRange, distance))
  }

  /**
   * The costs FindHighestPriorityTarget compares, as a minimum scan: minus the priority of
   * a target in reach, else minus int.MinValue, which never beats the running best.
   */
  ghost function PriorityCosts(s: seq<BuildingTarget>, position: Vec3, maxRange: real,
                               distance: (Vec3, Vec3) -> real): (r: seq<real>)
    reads s
    ensures |r| == |s|
  {
    seq(|s|, k requires 0 <= k < |s| reads s =>
      if InReach(s[k], position, maxRange, distance) then -(s[k].Priority as real) else -(IntMin as real))
  }

  /** The position FindHighestPriorityTarget settles on, or -1. */
  ghost function PriorityIndex(s: seq<BuildingTarget>, position: Vec3, maxRange: real,
                               distance: (Vec3, Vec3) -> real): int
    reads s
  {
    Pick(-(IntMin as real), PriorityCosts(s, position, maxRange, distance))
  }

  /**
   * FindClosestTarget's choice: the first target in reach at minimal distance, provided
   * that distance is below float.MaxValue; -1 when there is none.
   */
  lemma ClosestIsFirstMinimum(s: seq<BuildingTarget>, position: Vec3, maxRange: real,
                              distance: (Vec3, Vec3) -> real)
    ensures var i := ClosestIndex(s, position, maxRange, distance);
      -1 <= i < |s| &&
      (i == -1 <==> forall k :: 0 <= k < |s| && InReach(s[k], position, maxRange, distance) ==>
        distance(position, s[k].Position) >= FloatMax)
    ensures var i := ClosestIndex(s, position, maxRange, distance);
      i != -1 ==>
        InReach(s[i], position, maxRange, distance) && distance(position, s[i].Position) < FloatMax &&
        (forall k :: 0 <= k < i && InReach(s[k], position, maxRange, distance) ==>
          distance(position, s[i].Position) < distance(position, s[k].Position)) &&
        (forall k :: 0 <= k < |s| && InReach(s[k], position, maxRange, distance) ==>
          distance(position, s[i].Position) <= distance(position, s[k].Position))
  {
    var costs := ClosestCosts(s, position, maxRange, distance);
    PickMinimal(FloatMax, costs);
    var i := Pick(FloatMax, costs);
    assert forall k :: 0 <= k < |s| ==>
      costs[k] == if InReach(s[k], position, maxRange, distance) then distance(position, s[k].Position) else FloatMax;
    if i != -1 {
      assert costs[i] < FloatMax;
      assert InReach(s[i], position, maxRange, distance);
      assert costs[i] == distance(position, s[i].Position);
    }
  }

  /**
   * FindHighestPriorityTarget's choice: the first target in reach with the largest
   * priority, provided that priority is above int.MinValue; -1 when there is none.
   */
  lemma PriorityIsFirstMaximum(s: seq<BuildingTarget>, position: Vec3, maxRange: real,
                               distance: (Vec3, Vec3) -> real)
    ensures var i := PriorityIndex(s, position, maxRange, distance);
      -1 <= i < |s| &&
      (i == -1 <==> forall k :: 0 <= k < |s| && InReach(s[k], position, maxRange, distance) ==>
        s[k].Priority == IntMin)
    ensures var i := PriorityIndex(s, position, maxRange, distance);
      i != -1 ==>
        InReach(s[i], position, maxRange, distance) && s[i].Priority > IntMin &&
        (forall k :: 0 <= k < i && InReach(s[k], position, maxRange, distance) ==>
          s[k].Priority < s[i].Priority) &&
        (forall k :: 0 <= k < |s| && InReach(s[k], position, maxRange, distance) ==>
          s[k].Priority <= s[i].Priority)
  {
    var costs := PriorityCosts(s, position, maxRange, distance);
    PickMinimal(-(IntMin as real), costs);
    var i := Pick(-(IntMin as real), costs);
    assert forall k :: 0 <= k < |s| ==>
      costs[k] == if InReach(s[k], position, maxRange, distance) then -(s[k].Priority as real) else -(IntMin as real);
    if i != -1 {
      assert costs[i] < -(IntMin as real);
      assert InReach(s[i], position, maxRange, distance);
    }
  }

  /** The target at the chosen position, or null for -1. */
  function TargetAt(s: seq<BuildingTarget>, i: int): BuildingTarget?
  {
    if 0 <= i < |s| then s[i] else null
  }

  /** The survivors of UpdateTargets: who is alive. */
  function AliveFlags(s: seq<BuildingTarget>): (r: seq<bool>)
    reads s
    ensures |r| == |s|
  {
    seq(|s|, k requires 0 <= k < |s| reads s => s[k].IsAlive)
  }

  /** The survivors of RemoveTarget(targetId): who has another id. */
  function OtherIdFlags(s: seq<BuildingTarget>, targetId: int): (r: seq<bool>)
    reads s
    ensures |r| == |s|
  {
    seq(|s|, k requires 0 <= k < |s| reads s => s[k].TargetId != targetId)
  }

  /** What FindTargetsInRange collects: who is alive and within range. */
  function InRangeFlags(s: seq<BuildingTarget>, position: Vec3, range: real,
                        distance: (Vec3, Vec3) -> real): (r: seq<bool>)
    reads s
    ensures |r| == |s|
  {
    seq(|s|, k requires 0 <= k < |s| reads s => s[k].IsAlive && distance(position, s[k].Position) <= range)
  }

  /** TargetManager: the list of known targets, each at most once. */
  class TargetManager {
    var targets: seq<BuildingTarget>
    /** m_cellSize: stored, never read. */
    const cellSize: real

    ghost predicate Valid()
      reads this
    {
      Distinct(targets)
    }

    constructor (cellSize: real)
      ensures targets == [] && this.cellSize == cellSize && Valid()
    {
      targets := [];
      this.cellSize := cellSize;
    }

    /** AddTarget: a target not yet listed is appended; a listed one is ignored. */
    method AddTarget(target: BuildingTarget)
      requires Valid()
      modifies this`targets
      ensures Valid()
      ensures targets == if target in old(targets) then old(targets) else old(targets) + [target]
    {
      if target !in targets {
        DistinctAppend(targets, target);
        targets := targets + [target];
      }
    }

    /** RemoveTarget(target), List.Remove: the target's one occurrence is deleted. */
    method RemoveTarget(target: BuildingTarget)
      requires Valid()
      modifies this`targets
      ensures Valid()
      ensures target !in old(targets) ==> targets == old(targets)
      ensures target in old(targets) ==>
        exists i :: 0 <= i < |old(targets)| && old(targets)[i] == target && targets == old(targets)[..i] + old(targets)[i+1..]
    {
      WithoutDistinct(targets, target);
      if target in targets {
        var i :| 0 <= i < |targets| && targets[i] == target;
        WithoutAt(targets, i);
      } else {
        WithoutAbsent(targets, target);
      }
      targets := Without(targets, target);
    }

    /** RemoveTarget(targetId), List.RemoveAll: every target with that id is deleted, the rest kept in order. */
    method RemoveTargetById(targetId: int)
      requires Valid()
      modifies this`targets
      ensures Valid()
      ensures targets == Kept(old(targets), old(OtherIdFlags(targets, targetId)))
      ensures forall t :: t in targets <==> t in old(targets) && t.TargetId != targetId
    {
      var keep := OtherIdFlags(targets, targetId);
      KeptMembers(targets, keep);
      KeptDistinct(targets, keep);
      targets := Kept(targets, keep);
    }

    /** FindClosestTarget: the first alive target of least distance within maxRange, or null. */
    method FindClosestTarget(position: Vec3, maxRange: real, distance: (Vec3, Vec3) -> real)
      returns (closestTarget: BuildingTarget?)
      ensures closestTarget == TargetAt(targets, ClosestIndex(targets, position, maxRange, distance))
    {
      ghost var costs := ClosestCosts(targets, position, maxRange, distance);
      closestTarget := null;
      var closestDistance := FloatMax;
      var k := 0;
      while k < |targets|
        invariant 0 <= k <= |targets|
        invariant var i := Pick(FloatMax, costs[..k]);
          closestDistance == PickedCost(FloatMax, costs[..k]) && closestTarget == TargetAt(targets, i)
        invariant closestDistance <= FloatMax
      {
        PickExtend(FloatMax, costs, k);
        var target := targets[k];
        if target.IsAlive {
          var d := distance(position, target.Position);
          if d <= maxRange && d < closestDistance {
            closestTarget := target;
            closestDistance := d;
          }
        }
        k := k + 1;
      }
      assert costs[..k] == costs;
    }

    /** FindHighestPriorityTarget: the first alive target of highest priority within maxRange, or null. */
    method FindHighestPriorityTarget(position: Vec3, maxRange: real, distance: (Vec3, Vec3) -> real)
      returns (priorityTarget: BuildingTarget?)
      ensures priorityTarget == TargetAt(targets, PriorityIndex(targets, position, maxRange, distance))
    {
      ghost var costs := PriorityCosts(targets, position, maxRange, distance);
      priorityTarget := null;
      var highestPriority: int := IntMin;
      var k := 0;
      while k < |targets|
        invariant 0 <= k <= |targets|
        invariant var i := Pick(-(IntMin as real), costs[..k]);
          -(highestPriority as real) == PickedCost(-(IntMin as real), costs[..k]) &&
          priorityTarget == TargetAt(targets, i)
        invariant highestPriority >= IntMin
      {
        PickExtend(-(IntMin as real), costs, k);
        var target := targets[k];
        if target.IsAlive && distance(position, target.Position) <= maxRange {
          if target.Priority > highestPriority {
            priorityTarget := target;
            highestPriority := target.Priority;
          }
        }
        k := k + 1;
      }
      assert costs[..k] == costs;
    }

    /** FindTargetsInRange: the alive targets within range, in list order. */
    method FindTargetsInRange(position: Vec3, range: real, distance: (Vec3, Vec3) -> real)
      returns (targetsInRange: seq<BuildingTarget>)
      ensures targetsInRange == Kept(targets, InRangeFlags(targets, position, range, distance))
      ensures forall t :: t in targetsInRange <==>
        t in targets && t.IsAlive && distance(position, t.Position) <= range
    {
      ghost var keep := InRangeFlags(targets, position, range, distance);
      targetsInRange := [];
      var k := 0;
      while k < |targets|
        invariant 0 <= k <= |targets|
        invariant targetsInRange == Kept(targets[..k], keep[..k])
      {
        KeptStep(targets, keep, k);
        var target := targets[k];
        if target.IsAlive && distance(position, target.Position) <= range {
          targetsInRange := targetsInRange + [target];
        }
        k := k + 1;
      }
      assert targets[..k] == targets && keep[..k] == keep;
      KeptMembers(targets, keep);
    }

    /** ClearAllTargets */
    method ClearAllTargets()
      modifies this`targets
      ensures targets == [] && Valid()
    {
      targets := [];
    }

    /** GetAllTargets: the list itself. */
    function GetAllTargets(): seq<BuildingTarget>
      reads this
    {
      targets
    }

    /** UpdateTargets, List.RemoveAll(!IsAlive): exactly the dead targets go, the rest keep their order. */
    method UpdateTargets()
      requires Valid()
      modifies this`targets
      ensures Valid()
      ensures targets == Kept(old(targets), old(AliveFlags(targets)))
      ensures forall t :: t in targets <==> t in old(targets) && t.IsAlive
    {
      var keep := AliveFlags(targets);
      KeptMembers(targets, keep);
      KeptDistinct(targets, keep);
      targets := Kept(targets, keep);
    }
  }

  /** A unit that moves to a point or attacks a target. */
  class CombatUnit {
    // The Unit part.
    var Position: Vec3
    var TargetPosition: Vec3
    var Width: int
    var Height: int
    var UnitId: int
    var Radius: real
    var IsMoving: bool
    // The combat part.
    var AttackRange: real
    var AttackDamage: real
    var AttackCooldown: real
    var LastAttackTime: real
    var CurrentTarget: BuildingTarget?
    var IsAttacking: bool
    var Targets: TargetManager?

    /** The Unit part as a Unit value. */
    function Base(): Unit
      reads this
    {
      Unit(Position, TargetPosition, Width, Height, UnitId, Radius, IsMoving)
    }

    /** The unit never moves and attacks at once. */
    predicate Exclusive()
      reads this
    {
      !(IsMoving && IsAttacking)
    }

    /**
     * new CombatUnit(unitId, position, attackRange = 2, width = 1, height = 1): the Unit
     * part as new Unit makes it, damage 10, cooldown 1, last attack at time 0, idle.
     */
    constructor (unitId: int, position: Vec3, attackRange: real := 2.0, width: int := 1, height: int := 1)
      ensures Base() == NewUnit(unitId, position, width, height)
      ensures AttackRange == attackRange && AttackDamage == 10.0 && AttackCooldown == 1.0
      ensures LastAttackTime == 0.0 && !IsAttacking && CurrentTarget == null && Targets == null
      ensures Exclusive()
    {
      var u := NewUnit(unitId, position, width, height);
      Position, TargetPosition, Width, Height := u.Position, u.TargetPosition, u.Width, u.Height;
      UnitId, Radius, IsMoving := u.UnitId, u.Radius, u.IsMoving;
      AttackRange := attackRange;
      AttackDamage := 10.0;
      AttackCooldown := 1.0;
      LastAttackTime := 0.0;
      CurrentTarget := null;
      IsAttacking := false;
      Targets := null;
    }

    /** SetTargetManager */
    method SetTargetManager(targetManager: TargetManager?)
      modifies this`Targets
      ensures Targets == targetManager
    {
      Targets := targetManager;
    }

    /** IsInAttackRange: the target is within the attack range plus its own radius. */
    predicate IsInAttackRange(target: BuildingTarget, distance: (Vec3, Vec3) -> real)
      reads this, target
    {
      distance(Position, target.Position) <= AttackRange + target.Radius
    }

    /** The search FindNewTarget runs: the closest target within the attack range, or null. */
    ghost function NextTarget(distance: (Vec3, Vec3) -> real): BuildingTarget?
      requires Targets != null
      reads this, Targets, Targets.targets
    {
      TargetAt(Targets.targets, ClosestIndex(Targets.targets, Position, AttackRange, distance))
    }

    /**
     * FindNewTarget: with no target manager nothing changes; otherwise the closest target
     * within the attack range is attacked, or, when there is none, the unit stops attacking.
     */
    method FindNewTarget(distance: (Vec3, Vec3) -> real)
      modifies this`CurrentTarget, this`IsAttacking, this`IsMoving
      ensures Targets == null ==>
        CurrentTarget == old(CurrentTarget) && IsAttacking == old(IsAttacking) && IsMoving == old(IsMoving)
      ensures Targets != null && old(NextTarget(distance)) != null ==>
        CurrentTarget == old(NextTarget(distance)) && IsAttacking && !IsMoving
      ensures Targets != null && old(NextTarget(distance)) == null ==>
        CurrentTarget == null && !IsAttacking && IsMoving == old(IsMoving)
      ensures old(Exclusive()) ==> Exclusive()
    {
      if Targets != null {
        var newTarget := Targets.FindClosestTarget(Position, AttackRange, distance);
        if newTarget != null {
          CurrentTarget := newTarget;
          IsAttacking := true;
          IsMoving := false;
        } else {
          CurrentTarget := null;
          IsAttacking := false;
        }
      }
    }

    /**
     * Update(deltaTime) at time now; attacked says whether Attack was called. A moving
     * unit whose target is in range stops and attacks. An attacking unit with a live
     * target attacks once the cooldown has passed since its last attack and records the
     * time. Otherwise it looks for a new target.
     */
    method Update(now: real, distance: (Vec3, Vec3) -> real) returns (attacked: bool)
      modifies this`IsMoving, this`IsAttacking, this`CurrentTarget, this`LastAttackTime
      ensures old(Exclusive()) ==> Exclusive()
      ensures attacked ==> LastAttackTime == now
      ensures old(IsMoving) ==>
        !attacked && CurrentTarget == old(CurrentTarget) && LastAttackTime == old(LastAttackTime) &&
        if old(CurrentTarget) != null && old(IsInAttackRange(CurrentTarget, distance))
        then !IsMoving && IsAttacking
        else IsMoving && IsAttacking == old(IsAttacking)
      ensures !old(IsMoving) && old(IsAttacking) && old(CurrentTarget) != null && old(CurrentTarget.IsAlive) ==>
        attacked == (now - old(LastAttackTime) >= AttackCooldown) &&
        LastAttackTime == (if attacked then now else old(LastAttackTime)) &&
        CurrentTarget == old(CurrentTarget) && IsAttacking && !IsMoving
      ensures !old(IsMoving) && !(old(IsAttacking) && old(CurrentTarget) != null && old(CurrentTarget.IsAlive)) ==>
        !attacked && LastAttackTime == old(LastAttackTime) &&
        (Targets == null ==> CurrentTarget == old(CurrentTarget) && IsAttacking == old(IsAttacking) && !IsMoving) &&
        (Targets != null && old(NextTarget(distance)) != null ==>
          CurrentTarget == old(NextTarget(distance)) && IsAttacking && !IsMoving) &&
        (Targets != null && old(NextTarget(distance)) == null ==> CurrentTarget == null && !IsAttacking && !IsMoving)
    {
      attacked := false;
      if IsMoving {
        if CurrentTarget != null {
          if IsInAttackRange(CurrentTarget, distance) {
            IsMoving := false;
            IsAttacking := true;
          }
        }
      } else if IsAttacking {
        if CurrentTarget != null && CurrentTarget.IsAlive {
          if now - LastAttackTime >= AttackCooldown {
            attacked := true;
            LastAttackTime := now;
          }
        } else {
          FindNewTarget(distance);
        }
      } else {
        FindNewTarget(distance);
      }
    }

    /** SetMoveTarget: head for the point, dropping any attack. */
    method SetMoveTarget(targetPosition: Vec3)
      modifies this`TargetPosition, this`IsMoving, this`IsAttacking, this`CurrentTarget
      ensures TargetPosition == targetPosition && IsMoving && !IsAttacking && CurrentTarget == null
      ensures Exclusive()
    {
      TargetPosition := targetPosition;
      IsMoving := true;
      IsAttacking := false;
      CurrentTarget := null;
    }

    /** SetAttackTarget: attack the target, stopping any move. */
    method SetAttackTarget(target: BuildingTarget?)
      modifies this`CurrentTarget, this`IsAttacking, this`IsMoving
      ensures CurrentTarget == target && IsAttacking && !IsMoving
      ensures Exclusive()
    {
      CurrentTarget := target;
      IsAttacking := true;
      IsMoving := false;
    }
  }
}
