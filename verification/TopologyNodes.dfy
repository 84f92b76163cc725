/** The objects a topology is made of (Topology.h): nodes, links and the costs on them. */
module TopologyNodes {

  /** A double without rounding; the source compares and adds it with INFINITY. */
  datatype Cost = Finite(v: real) | Infinity {
    function Plus(c: Cost): Cost {
      if Finite? && c.Finite? then Finite(v + c.v) else Infinity
    }

    predicate Exceeds(c: Cost) {
      c.Finite? && (Finite? ==> v > c.v)
    }

    predicate AtLeastZero() { Finite? ==> v >= 0.0 }

    predicate Positive() { Finite? ==> v > 0.0 }
  }

  /** A 32-bit module id; -1 stands for no module. */
  type ModuleId = i: int | -0x8000_0000 <= i < 0x8000_0000

  /** The (unsigned int) cast of lessByModuleId. */
  function Unsigned(id: ModuleId): (u: nat)
    ensures u < 0x1_0000_0000
  {
    id % 0x1_0000_0000
  }

  class Node {
    const moduleId: ModuleId
    var weight: Cost
    var enabled: bool
    var inLinks: seq<Link>
    var outLinks: seq<Link>
    var dist: Cost
    var outPath: Link?

    constructor (moduleId: ModuleId)
      ensures this.moduleId == moduleId && weight == Finite(0.0) && enabled
      ensures inLinks == [] && outLinks == [] && dist == Infinity && outPath == null
    {
      this.moduleId := moduleId;
      weight, enabled := Finite(0.0), true;
      inLinks, outLinks := [], [];
      dist, outPath := Infinity, null;
    }
  }

  class Link {
    var srcNode: Node?
    var srcGateId: int
    var destNode: Node?
    var destGateId: int
    var weight: Cost
    var enabled: bool

    constructor (weight: Cost)
      ensures srcNode == null && destNode == null && srcGateId == destGateId == -1
      ensures this.weight == weight && enabled
    {
      srcNode, destNode := null, null;
      srcGateId, destGateId := -1, -1;
      this.weight := weight;
      enabled := true;
    }
  }
}
