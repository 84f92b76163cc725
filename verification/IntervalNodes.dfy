/** The objects the interval tree is built from (IntervalTree.h). */
module IntervalNodes {

  const MAX_TIME: int := 0x7FFF_FFFF_FFFF_FFFF

  /** SimTime is a 64-bit count with a symmetric range. */
  type SimTime = t: int | -MAX_TIME <= t <= MAX_TIME

  const NIL_TIME: SimTime := -MAX_TIME

  function Max(a: SimTime, b: SimTime): SimTime { if a < b then b else a }

  /** A closed interval; the tree tells intervals apart by identity, as the source does by pointer. */
  class Interval {
    const low: SimTime
    const high: SimTime

    constructor (low: SimTime, high: SimTime)
      ensures this.low == low && this.high == high
    {
      this.low, this.high := low, high;
    }
  }

  /** A tree node. The stored interval, the key and `high` never change after construction. */
  class IntervalTreeNode {
    const storedInterval: Interval?
    const key: SimTime
    const high: SimTime
    var maxHigh: SimTime
    var red: bool
    var left: IntervalTreeNode
    var right: IntervalTreeNode
    var parent: IntervalTreeNode

    /** The `nil` sentinel: every link points back at it and its key lies below all times. */
    constructor Nil()
      ensures storedInterval == null && key == high == maxHigh == NIL_TIME && !red
      ensures left == right == parent == this
    {
      storedInterval, key, high, maxHigh, red := null, NIL_TIME, NIL_TIME, NIL_TIME, false;
      left, right, parent := this, this, this;
    }

    /** The `root` sentinel: its left child is the real root. */
    constructor Root(nil: IntervalTreeNode)
      ensures storedInterval == null && key == high == maxHigh == MAX_TIME && !red
      ensures left == right == parent == nil
    {
      storedInterval, key, high, maxHigh, red := null, MAX_TIME, MAX_TIME, MAX_TIME, false;
      left, right, parent := nil, nil, nil;
    }

    /** A node for one interval, not linked into any tree yet. */
    constructor Stored(interval: Interval, nil: IntervalTreeNode)
      ensures storedInterval == interval && key == interval.low && high == maxHigh == interval.high && !red
      ensures left == right == parent == nil
    {
      storedInterval, key, high, maxHigh, red := interval, interval.low, interval.high, interval.high, false;
      left, right, parent := nil, nil, nil;
    }
  }

  /** One entry of the stack of the query: the node whose right branch may still have to be tried. */
  datatype RecursionNode = RecursionNode(startNode: IntervalTreeNode?, parentIndex: nat, tryRightBranch: bool)
}
