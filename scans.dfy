/**
 * The first-strict-minimum scan shared by ComputeOptimalVelocity (RVOAlgorithm.cs),
 * RemoveOldestPath (PathCache.cs) and the target searches of TargetManager
 * (CombatUnit.cs): a running best, initially a given value, is replaced by an entry only
 * when that entry is strictly smaller.
 */
module Scans {

  /** float.MaxValue, the usual start value of a minimum scan. */
  const FloatMax: real := 340282346638528859811704183484516925440.0

  /**
   * The scan over a list of costs: -1 keeps the initial choice (cost `c0`), an index
   * picks that entry; an entry replaces the current best only when it is strictly cheaper.
   */
  function Pick(c0: real, costs: seq<real>): (r: int)
    ensures -1 <= r < |costs|
  {
    if |costs| == 0 then -1
    else
      var i := Pick(c0, costs[..|costs|-1]);
      var best := if i == -1 then c0 else costs[i];
      if costs[|costs|-1] < best then |costs| - 1 else i
  }

  function PickedCost(c0: real, costs: seq<real>): real
  {
    var i := Pick(c0, costs);
    if i == -1 then c0 else costs[i]
  }

  /**
   * The pick is a minimum over the preferred cost and all candidate costs, and the FIRST
   * strict one: a candidate is picked only when it is strictly cheaper than the preferred
   * velocity and than every candidate before it.
   */
  lemma {:induction false} PickMinimal(c0: real, costs: seq<real>)
    ensures var b := PickedCost(c0, costs);
      b <= c0 && (forall k :: 0 <= k < |costs| ==> b <= costs[k])
    ensures var i := Pick(c0, costs);
      i != -1 ==> costs[i] < c0 && forall k :: 0 <= k < i ==> costs[i] < costs[k]
  {
    if |costs| > 0 {
      var p := costs[..|costs|-1];
      PickMinimal(c0, p);
      var i := Pick(c0, p);
      var b := PickedCost(c0, p);
      forall k | 0 <= k < |p| ensures p[k] == costs[k] {}
      if costs[|costs|-1] < b {
        assert Pick(c0, costs) == |costs| - 1;
      } else {
        assert Pick(c0, costs) == i;
        if i != -1 {
          assert costs[i] == p[i];
        }
      }
    }
  }

  /** One round of the scan: the next candidate replaces the best so far only when strictly cheaper. */
  lemma PickExtend(c0: real, costs: seq<real>, k: nat)
    requires k < |costs|
    ensures var i := Pick(c0, costs[..k]);
      Pick(c0, costs[..k+1]) == (if costs[k] < PickedCost(c0, costs[..k]) then k else i)
    ensures PickedCost(c0, costs[..k+1]) ==
      (if costs[k] < PickedCost(c0, costs[..k]) then costs[k] else PickedCost(c0, costs[..k]))
  {
    var p := costs[..k+1];
    assert p[..k] == costs[..k];
    assert p[k] == costs[k];
  }

}
