/** A node of the agents' KD tree (KDNode.cs): a range [start, end) of the agent array. */
module KDNodes {

  class KDNode {
    var partitionCoordinate: real
    var partitionAxis: int
    var negativeChild: KDNode?
    var positiveChild: KDNode?
    var start: int
    var end: int

    /** A new node: no partition axis (-1), no children, the empty range [0, 0). */
    constructor ()
      ensures partitionAxis == -1 && partitionCoordinate == 0.0
      ensures negativeChild == null && positiveChild == null
      ensures start == 0 && end == 0
      ensures Leaf() && Count() == 0
    {
      partitionCoordinate := 0.0;
      partitionAxis := -1;
      negativeChild, positiveChild := null, null;
      start, end := 0, 0;
    }

    /** Count: the number of agents in the node's range, so that start + Count is end. */
    function Count(): (c: int)
      reads this
      ensures start + c == end
    {
      end - start
    }

    /** Leaf: the node has not been partitioned. */
    predicate Leaf()
      reads this
    {
      partitionAxis == -1
    }
  }
}
