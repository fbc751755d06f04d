/** The axis-aligned bounding box of the RVO world (BoundBox.cs), over exact reals. */
module BoundBoxes {
  import opened RVOMath

  /** A 4x4 transform, row by row; only stored, compared and handed back here. */
  datatype Matrix4x4 = Matrix4x4(rows: seq<seq<real>>)

  const Identity := Matrix4x4([[1.0, 0.0, 0.0, 0.0], [0.0, 1.0, 0.0, 0.0],
                               [0.0, 0.0, 1.0, 0.0], [0.0, 0.0, 0.0, 1.0]])

  /** Vector3.Min: the componentwise minimum. */
  function MinV(a: Vec3, b: Vec3): Vec3 {
    Vec3(if a.x <= b.x then a.x else b.x, if a.y <= b.y then a.y else b.y, if a.z <= b.z then a.z else b.z)
  }

  /** Vector3.Max: the componentwise maximum. */
  function MaxV(a: Vec3, b: Vec3): Vec3 {
    Vec3(if a.x >= b.x then a.x else b.x, if a.y >= b.y then a.y else b.y, if a.z >= b.z then a.z else b.z)
  }

  /** a <= b in every component. */
  predicate LessEq(a: Vec3, b: Vec3) {
    a.x <= b.x && a.y <= b.y && a.z <= b.z
  }

  /**
   * Min and Max of two points do not depend on the argument order and bracket both
   * points; on an already ordered pair they give the pair back.
   */
  lemma MinMaxNormalises(a: Vec3, b: Vec3)
    ensures MinV(a, b) == MinV(b, a) && MaxV(a, b) == MaxV(b, a)
    ensures LessEq(MinV(a, b), MaxV(a, b))
    ensures LessEq(MinV(a, b), a) && LessEq(MinV(a, b), b)
    ensures LessEq(a, MaxV(a, b)) && LessEq(b, MaxV(a, b))
    ensures LessEq(a, b) ==> MinV(a, b) == a && MaxV(a, b) == b
  {}

  /** A bounding box with its two stored corners and a transform to world space. */
  class BoundBox {
    var Min: Vec3
    var Max: Vec3
    var Transform: Matrix4x4

    /** The stored corners are ordered componentwise. */
    ghost predicate Valid()
      reads this
    {
      LessEq(Min, Max)
    }

    /** new BoundBox(min, max): corners normalised by Min/Max, identity transform. */
    constructor (min: Vec3, max: Vec3)
      ensures Min == MinV(min, max) && Max == MaxV(min, max)
      ensures Transform == Identity
      ensures Valid()
    {
      Min, Max := MinV(min, max), MaxV(min, max);
      Transform := Identity;
    }

    /** new BoundBox(box): the corners are copied, the transform is reset to identity. */
    constructor Copy(box: BoundBox)
      ensures Min == box.Min && Max == box.Max
      ensures Transform == Identity
      ensures box.Valid() ==> Valid()
    {
      Min, Max := box.Min, box.Max;
      Transform := Identity;
    }

    method SetTransform(mtWorld: Matrix4x4)
      modifies this`Transform
      ensures Transform == mtWorld && GetTransform() == mtWorld
    {
      Transform := mtWorld;
    }

    function GetTransform(): (m: Matrix4x4)
      reads this
      ensures m == Transform
    {
      Transform
    }

    /** Clear: both corners zero and the identity transform. */
    method Clear()
      modifies this
      ensures Min == Zero && Max == Zero && Transform == Identity
      ensures Valid()
    {
      Transform := Identity;
      Min := Zero;
      Max := Zero;
    }

    /** Set(min, max): the normalised corners; the transform is kept. */
    method Set(min: Vec3, max: Vec3)
      modifies this`Min, this`Max
      ensures Min == MinV(min, max) && Max == MaxV(min, max)
      ensures Valid()
    {
      Min := MinV(min, max);
      Max := MaxV(min, max);
    }

    /** Set(box): the other box's corners, normalised; the transform is kept. */
    method SetFromBox(box: BoundBox)
      modifies this`Min, this`Max
      ensures Min == MinV(old(box.Min), old(box.Max)) && Max == MaxV(old(box.Min), old(box.Max))
      ensures Valid()
    {
      var lo, hi := box.Min, box.Max;
      Min := MinV(lo, hi);
      Max := MaxV(lo, hi);
    }

    /**
     * GetMin(bWorld): the stored corner, or that corner mapped by the transform;
     *  `multiplyPoint` stands for Matrix4x4.MultiplyPoint.
     */
    function GetMin(bWorld: bool, multiplyPoint: (Matrix4x4, Vec3) -> Vec3): (p: Vec3)
      reads this
      ensures !bWorld ==> p == Min
      ensures bWorld ==> p == multiplyPoint(Transform, Min)
    {
      if bWorld then multiplyPoint(Transform, Min) else Min
    }

    function GetMax(bWorld: bool, multiplyPoint: (Matrix4x4, Vec3) -> Vec3): (p: Vec3)
      reads this
      ensures !bWorld ==> p == Max
      ensures bWorld ==> p == multiplyPoint(Transform, Max)
    {
      if bWorld then multiplyPoint(Transform, Max) else Max
    }

    /** GetSize: Max - Min, so that Min + size is Max; no component is negative. */
    function GetSize(): (r: Vec3)
      reads this
      ensures Add(Min, r) == Max
      ensures Valid() ==> LessEq(Zero, r)
    {
      Sub(Max, Min)
    }

    /** GetHalf: half of the size. */
    function GetHalf(): (r: Vec3)
      reads this
      ensures Add(r, r) == GetSize()
      ensures Valid() ==> LessEq(Zero, r)
    {
      Scale(Sub(Max, Min), 0.5)
    }

    /** GetCenter(bWorld): the midpoint of the two (local or world) corners. */
    function GetCenter(bWorld: bool, multiplyPoint: (Matrix4x4, Vec3) -> Vec3): (c: Vec3)
      reads this
      ensures !bWorld ==> c == Add(Min, GetHalf()) && c == Sub(Max, GetHalf())
      ensures !bWorld && Valid() ==> LessEq(Min, c) && LessEq(c, Max)
    {
      Scale(Add(GetMax(bWorld, multiplyPoint), GetMin(bWorld, multiplyPoint)), 0.5)
    }

    /** GetBoundSizeSqr: the squared length of the diagonal. */
    function GetBoundSizeSqr(): real
      reads this
    {
      AbsSq(Sub(Max, Min))
    }
  }

  /** The squared diagonal is never negative and is zero exactly for a point box. */
  lemma BoundSizeSqrNonNegative(b: BoundBox)
    ensures b.GetBoundSizeSqr() >= 0.0
    ensures b.GetBoundSizeSqr() == 0.0 <==> b.Min == b.Max
  {
    AbsSqNonNegative(Sub(b.Max, b.Min));
    SubZeroIff(b.Max, b.Min);
  }

  /**
   * The local corners of a normalised box are ordered and do not depend on the transform;
   * under the identity transform, with a MultiplyPoint that leaves points fixed there, the
   * world corners and centre are the local ones.
   */
  lemma CornersOfBox(b: BoundBox, multiplyPoint: (Matrix4x4, Vec3) -> Vec3)
    ensures b.Valid() ==> LessEq(b.GetMin(false, multiplyPoint), b.GetMax(false, multiplyPoint))
    ensures b.GetMin(false, multiplyPoint) == b.Min && b.GetMax(false, multiplyPoint) == b.Max
    ensures b.Transform == Identity && multiplyPoint(Identity, b.Min) == b.Min &&
            multiplyPoint(Identity, b.Max) == b.Max ==>
              b.GetMin(true, multiplyPoint) == b.Min && b.GetMax(true, multiplyPoint) == b.Max &&
              b.GetCenter(true, multiplyPoint) == b.GetCenter(false, multiplyPoint)
  {}
}
