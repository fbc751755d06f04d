/** One agent slot of the RVO world (RVONode.cs), also used as a link of its agent list. */
module RVONodes {
  import opened RVOMath

  /**
   * Unity's Vector3.normalized: the vector divided by its length, or the zero vector when
   * the length is at most 1e-5. The length (a square root) is supplied by the caller.
   */
  function Normalized(v: Vec3, magnitude: Vec3 -> real): Vec3 {
    if magnitude(v) > 0.00001 then Scale(v, 1.0 / magnitude(v)) else Zero
  }

  class RVONode {
    var id: int
    var dummyId: int
    var position: Vec3
    var prefSpeed: Vec3
    var advSpeed: Vec3
    var physicRadius: real
    var weight: real
    var velocity: Vec3
    var next: RVONode?
    var prev: RVONode?

    /** A new slot: id 0 (so it counts as destroyed), zero vectors and radius, weight 1. */
    constructor ()
      ensures id == 0 && dummyId == 0
      ensures position == Zero && prefSpeed == Zero && advSpeed == Zero && velocity == Zero
      ensures physicRadius == 0.0 && weight == 1.0
      ensures next == null && prev == null
      ensures IsDestroy()
    {
      id, dummyId := 0, 0;
      position, prefSpeed, advSpeed, velocity := Zero, Zero, Zero, Zero;
      physicRadius, weight := 0.0, 1.0;
      next, prev := null, null;
    }

    /** A slot whose id is not positive has been destroyed (or never issued). */
    predicate IsDestroy()
      reads this
    {
      id <= 0
    }

    function GetID(): int reads this { id }
    function GetDummyID(): int reads this { dummyId }
    function GetPosition(): Vec3 reads this { position }
    function GetPrefSpeed(): Vec3 reads this { prefSpeed }
    function GetAdvSpeed(): Vec3 reads this { advSpeed }
    function GetVelocity(): Vec3 reads this { velocity }
    function GetWeight(): real reads this { weight }
    function GetPhysicRadius(): real reads this { physicRadius }
    function GetNext(): RVONode? reads this { next }
    function GetPrev(): RVONode? reads this { prev }

    method SetId(i: int)
      modifies this`id
      ensures GetID() == i
    {
      id := i;
    }

    method SetNext(p: RVONode?)
      modifies this`next
      ensures GetNext() == p
    {
      next := p;
    }

    method SetPrev(p: RVONode?)
      modifies this`prev
      ensures GetPrev() == p
    {
      prev := p;
    }

    method SetDummyID(d: int)
      modifies this`dummyId
      ensures GetDummyID() == d
    {
      dummyId := d;
    }

    method SetPosition(p: Vec3)
      modifies this`position
      ensures GetPosition() == p
    {
      position := p;
    }

    method SetPrefSpeed(v: Vec3)
      modifies this`prefSpeed
      ensures GetPrefSpeed() == v
    {
      prefSpeed := v;
    }

    method SetAdvSpeed(v: Vec3)
      modifies this`advSpeed
      ensures GetAdvSpeed() == v
    {
      advSpeed := v;
    }

    method SetVelocity(v: Vec3)
      modifies this`velocity
      ensures GetVelocity() == v
    {
      velocity := v;
    }

    method SetWeight(w: real)
      modifies this`weight
      ensures GetWeight() == w
    {
      weight := w;
    }

    method SetPhysicRadius(r: real)
      modifies this`physicRadius
      ensures GetPhysicRadius() == r
    {
      physicRadius := r;
    }

    /**
     * SetNodeTargetPositon: the preferred speed points from the node to the target in the
     * ground plane (the vertical offset is dropped before normalising) with length moveSpeed.
     */
    method SetNodeTargetPositon(targetPos: Vec3, moveSpeed: real, magnitude: Vec3 -> real)
      modifies this`prefSpeed
      ensures prefSpeed == Scale(Normalized(Sub(targetPos, position).(y := 0.0), magnitude), moveSpeed)
      ensures prefSpeed.y == 0.0
    {
      var dir := Sub(targetPos, position);
      dir := dir.(y := 0.0);
      prefSpeed := Scale(Normalized(dir, magnitude), moveSpeed);
    }

    /** Destroy: every field back to zero or null except the weight, which is kept. */
    method Destroy()
      modifies this`id, this`dummyId, this`position, this`prefSpeed, this`velocity,
               this`advSpeed, this`physicRadius, this`next, this`prev
      ensures id == 0 && dummyId == 0
      ensures position == Zero && prefSpeed == Zero && advSpeed == Zero && velocity == Zero
      ensures physicRadius == 0.0
      ensures next == null && prev == null
      ensures IsDestroy()
    {
      id := 0;
      dummyId := 0;
      position := Zero;
      prefSpeed := Zero;
      velocity := Zero;
      advSpeed := Zero;
      physicRadius := 0.0;
      next := null;
      prev := null;
    }
  }
}
