/** The graph of Topology.cc: its edits, its sorted node index and its two searches. */
module Topologies {
  import opened TopologyNodes
  import opened ShortestPaths

  /** Nodes ordered by module id, as unsigned numbers. */
  predicate IdsRise(s: seq<Node>) {
    forall i, j :: 0 <= i < j < |s| ==> Unsigned(s[i].moduleId) <= Unsigned(s[j].moduleId)
  }

  /** What that order is: ids that are not negative come first, and ids of the same sign rise. */
  lemma RisingIds(s: seq<Node>)
    ensures IdsRise(s) <==>
            forall i, j :: 0 <= i < j < |s| ==>
              if s[i].moduleId < 0 then s[j].moduleId < 0 && s[i].moduleId <= s[j].moduleId
              else s[j].moduleId < 0 || s[i].moduleId <= s[j].moduleId
  {
    forall i, j | 0 <= i < j < |s|
      ensures Unsigned(s[i].moduleId) <= Unsigned(s[j].moduleId) <==>
              if s[i].moduleId < 0 then s[j].moduleId < 0 && s[i].moduleId <= s[j].moduleId
              else s[j].moduleId < 0 || s[i].moduleId <= s[j].moduleId
    {
      UnsignedOrder(s[i].moduleId, s[j].moduleId);
    }
  }

  /** The ids that are not negative come first, each group in its own order. */
  lemma UnsignedOrder(a: ModuleId, b: ModuleId)
    ensures Unsigned(a) < Unsigned(b) <==> if (a < 0) == (b < 0) then a < b else b < 0
  {
  }

  lemma EarlierIds(s: seq<Node>, id: ModuleId)
    ensures forall i :: 0 <= i < |s| ==>
              (Unsigned(s[i].moduleId) < Unsigned(id) <==>
               if (s[i].moduleId < 0) == (id < 0) then s[i].moduleId < id else id < 0)
  {
    forall i | 0 <= i < |s|
      ensures Unsigned(s[i].moduleId) < Unsigned(id) <==>
              if (s[i].moduleId < 0) == (id < 0) then s[i].moduleId < id else id < 0
    {
      UnsignedOrder(s[i].moduleId, id);
    }
  }

  lemma LargestId(s: seq<Node>)
    ensures forall i :: 0 <= i < |s| ==> Unsigned(s[i].moduleId) <= Unsigned(-1)
  {
  }

  lemma {:induction false} WithoutSorted(s: seq<Node>, n: Node)
    requires IdsRise(s)
    ensures IdsRise(Without(s, n)) && forall m :: m in Without(s, n) ==> m in s
    decreases s
  {
    if s != [] {
      WithoutSorted(s[1..], n);
      forall m | m in s[1..] ensures Unsigned(s[0].moduleId) <= Unsigned(m.moduleId) { }
    }
  }

  /** One side of the graph, the links out of the nodes or those into them: each link is listed once, by its end. */
  ghost predicate Side(lists: map<Node, seq<Link>>, end: map<Link, Node?>) {
    && (forall n, l :: n in lists && l in lists[n] ==> l in end && end[l] == n)
    && (forall n :: n in lists ==> NoRepeats(lists[n]))
    && (forall l :: l in end ==> end[l] in lists && l in lists[end[l]])
  }

  /** The list without the links of a set, order kept. */
  ghost function Except(s: seq<Link>, gone: set<Link>): (r: seq<Link>)
    ensures forall l :: l in r ==> l in s && l !in gone
    ensures forall l :: l in s && l !in gone ==> l in r
  {
    if s == [] then [] else if s[0] in gone then Except(s[1..], gone) else [s[0]] + Except(s[1..], gone)
  }

  function LinksOf(s: seq<Link>): set<Link> { set l | l in s }

  lemma LinksOfPrefix(s: seq<Link>, i: nat)
    requires NoRepeats(s) && i < |s|
    ensures LinksOf(s[..i + 1]) == LinksOf(s[..i]) + {s[i]} && s[i] !in LinksOf(s[..i])
  {
  }

  lemma LinksOfEnds(s: seq<Link>)
    ensures LinksOf(s[..0]) == {} && LinksOf(s[..|s|]) == LinksOf(s)
  {
    assert s[..|s|] == s;
  }

  ghost function AllExcept(lists: map<Node, seq<Link>>, gone: set<Link>): map<Node, seq<Link>> {
    map n | n in lists :: Except(lists[n], gone)
  }

  ghost function Drop(end: map<Link, Node?>, gone: set<Link>): map<Link, Node?> {
    map l | l in end && l !in gone :: end[l]
  }

  lemma {:induction false} ExceptRepeats(s: seq<Link>, gone: set<Link>)
    requires NoRepeats(s)
    ensures NoRepeats(Except(s, gone))
  {
    if s != [] { ExceptRepeats(s[1..], gone); }
  }

  lemma {:induction false} ExceptSame(s: seq<Link>, gone: set<Link>, gone': set<Link>)
    requires forall l :: l in s ==> (l in gone <==> l in gone')
    ensures Except(s, gone) == Except(s, gone')
  {
    if s != [] { ExceptSame(s[1..], gone, gone'); }
  }

  lemma {:induction false} ExceptNone(s: seq<Link>)
    ensures Except(s, {}) == s
  {
    if s != [] { ExceptNone(s[1..]); }
  }

  lemma {:induction false} ExceptOneMore(s: seq<Link>, gone: set<Link>, l: Link)
    ensures Without(Except(s, gone), l) == Except(s, gone + {l})
  {
    if s != [] { ExceptOneMore(s[1..], gone, l); }
  }

  /** Taking links off their lists and off the graph keeps the side in order. */
  lemma SideExcept(lists: map<Node, seq<Link>>, end: map<Link, Node?>, gone: set<Link>)
    requires Side(lists, end)
    ensures Side(AllExcept(lists, gone), Drop(end, gone))
  {
    hide NoRepeats, Except;
    var rest := AllExcept(lists, gone);
    forall n | n in rest ensures NoRepeats(rest[n]) { ExceptRepeats(lists[n], gone); }
    forall n, l | n in rest && l in rest[n] ensures l in Drop(end, gone) && end[l] == n {
      assert l in lists[n];
    }
    forall l | l in Drop(end, gone) ensures end[l] in rest && l in rest[end[l]] {
      assert l in lists[end[l]];
    }
  }

  /** Appending a new link to the list of its end. */
  lemma SideAppend(lists: map<Node, seq<Link>>, end: map<Link, Node?>, n: Node, l: Link)
    requires Side(lists, end) && n in lists && l !in end
    ensures Side(Appended(lists, n, l), end[l := n])
  {
  }

  /** Nodes without links come and go freely. */
  lemma SideNodes(lists: map<Node, seq<Link>>, end: map<Link, Node?>, lists': map<Node, seq<Link>>)
    requires Side(lists, end)
    requires forall n :: n in lists && lists[n] != [] ==> n in lists'
    requires forall n :: n in lists' ==> if n in lists then lists'[n] == lists[n] else lists'[n] == []
    ensures Side(lists', end)
  {
  }

  /** Erasing the one occurrence in the list of its end takes the link off all lists. */
  lemma SideErase(lists: map<Node, seq<Link>>, end: map<Link, Node?>, gone: set<Link>, l: Link)
    requires Side(lists, end) && l in end && l !in gone
    ensures AllExcept(lists, gone)[end[l] := Without(AllExcept(lists, gone)[end[l]], l)] == AllExcept(lists, gone + {l})
  {
    ExceptOneMore(lists[end[l]], gone, l);
    forall n | n in lists && n != end[l] ensures Except(lists[n], gone) == Except(lists[n], gone + {l}) {
      ExceptSame(lists[n], gone, gone + {l});
    }
  }

  ghost function Appended(lists: map<Node, seq<Link>>, n: Node, l: Link): map<Node, seq<Link>>
    requires n in lists
  {
    lists[n := lists[n] + [l]]
  }

  lemma Rejoined(links: set<Link>, l: Link)
    ensures links - {l} + {l} == links + {l}
  {
  }

  lemma {:induction false} ExceptTwice(s: seq<Link>, gone: set<Link>, more: set<Link>)
    ensures Except(Except(s, gone), more) == Except(s, gone + more)
  {
    if s != [] { ExceptTwice(s[1..], gone, more); }
  }

  lemma AllExceptTwice(lists: map<Node, seq<Link>>, gone: set<Link>, more: set<Link>)
    ensures AllExcept(AllExcept(lists, gone), more) == AllExcept(lists, gone + more)
  {
    forall n | n in lists ensures Except(Except(lists[n], gone), more) == Except(lists[n], gone + more) {
      ExceptTwice(lists[n], gone, more);
    }
  }

  /** Emptying a node's own list is taking its links off all lists. */
  lemma SideEmptied(lists: map<Node, seq<Link>>, end: map<Link, Node?>, n: Node, gone: set<Link>)
    requires Side(lists, end) && n in lists && gone == LinksOf(lists[n])
    ensures lists[n := []] == AllExcept(lists, gone)
  {
    hide NoRepeats;
    forall m | m in lists ensures Except(lists[m], gone) == if m == n then [] else lists[m] {
      if m == n {
        ExceptAll(lists[n], gone);
      } else {
        forall l | l in lists[m] ensures l !in gone {
          SideHas(lists, end, m, l);
          if l in gone { SideHas(lists, end, n, l); }
        }
        ExceptSame(lists[m], gone, {});
        ExceptNone(lists[m]);
      }
    }
  }

  lemma {:induction false} ExceptAll(s: seq<Link>, gone: set<Link>)
    requires forall l :: l in s ==> l in gone
    ensures Except(s, gone) == []
  {
    if s != [] { ExceptAll(s[1..], gone); }
  }

  lemma AllExceptAt(lists: map<Node, seq<Link>>, gone: set<Link>, n: Node)
    requires n in lists
    ensures n in AllExcept(lists, gone) && AllExcept(lists, gone)[n] == Except(lists[n], gone)
  {
  }

  /** Links taken off in two goes: first some, then what a list still had. */
  lemma RemainingLinks(lists: map<Node, seq<Link>>, gone: set<Link>, s: seq<Link>)
    ensures AllExcept(AllExcept(lists, gone), LinksOf(Except(s, gone))) == AllExcept(lists, gone + LinksOf(s))
  {
    AllExceptTwice(lists, gone, LinksOf(Except(s, gone)));
    assert gone + LinksOf(Except(s, gone)) == gone + LinksOf(s);
  }

  lemma RemainingSet(links: set<Link>, gone: set<Link>, s: seq<Link>)
    ensures links - gone - LinksOf(Except(s, gone)) == links - (gone + LinksOf(s))
  {
  }

  lemma SideHas(lists: map<Node, seq<Link>>, end: map<Link, Node?>, n: Node, l: Link)
    requires Side(lists, end) && n in lists && l in lists[n]
    ensures l in end && end[l] == n
  {
  }

  lemma SideList(lists: map<Node, seq<Link>>, end: map<Link, Node?>, n: Node, l: Link)
    requires Side(lists, end) && n in lists && l in lists[n]
    ensures l in end && end[l] == n && NoRepeats(lists[n])
  {
  }

  lemma EndListed(lists: map<Node, seq<Link>>, end: map<Link, Node?>, l: Link)
    requires Side(lists, end) && l in end
    ensures end[l] in lists && l in lists[end[l]] && NoRepeats(lists[end[l]])
  {
  }

  lemma Erased(lists: map<Node, seq<Link>>, end: map<Link, Node?>, l: Link)
    requires Side(lists, end) && l in end
    ensures lists[end[l] := Without(lists[end[l]], l)] == AllExcept(lists, {l})
    ensures Side(AllExcept(lists, {l}), Drop(end, {l}))
  {
    hide Side, Except, AllExcept, Without;
    AllExceptNone(lists);
    EndListed(lists, end, l);
    SideErase(lists, end, {}, l);
    SideExcept(lists, end, {l});
    assert {} + {l} == {l};
  }

  /** A link that is not in the graph is on no list. */
  lemma NotListed(lists: map<Node, seq<Link>>, end: map<Link, Node?>, l: Link)
    requires Side(lists, end) && l !in end
    ensures AllExcept(lists, {l}) == lists
  {
    AllExceptNone(lists);
    forall n | n in lists ensures Except(lists[n], {l}) == lists[n] {
      ExceptSame(lists[n], {l}, {});
      ExceptNone(lists[n]);
    }
  }

  lemma AllExceptNone(lists: map<Node, seq<Link>>)
    ensures AllExcept(lists, {}) == lists
  {
    forall n | n in lists ensures Except(lists[n], {}) == lists[n] { ExceptNone(lists[n]); }
  }

  /** A link is in its source's list exactly once if and only if it is in its target's list exactly once. */
  lemma BothSidesOrNone(outs: map<Node, seq<Link>>, source: map<Link, Node?>, ins: map<Node, seq<Link>>,
      end: map<Link, Node?>, n: Node, m: Node, l: Link)
    requires Side(outs, source) && Side(ins, end) && source.Keys == end.Keys && n in outs && m in ins
    requires l in source ==> source[l] == n && end[l] == m
    ensures multiset(outs[n])[l] == multiset(ins[m])[l] == if l in source then 1 else 0
  {
    CountOnce(outs[n], l);
    CountOnce(ins[m], l);
  }

  lemma {:induction false} CountOnce(s: seq<Link>, l: Link)
    requires NoRepeats(s)
    ensures multiset(s)[l] == if l in s then 1 else 0
  {
    if s != [] {
      CountOnce(s[1..], l);
      assert s == [s[0]] + s[1..];
    }
  }

  lemma TailRepeats<T>(s: seq<T>)
    requires NoRepeats(s) && s != []
    ensures NoRepeats(s[1..]) && s[0] !in s[1..]
  {
  }

  lemma {:induction false} WithoutOne<T>(s: seq<T>, k: nat)
    requires NoRepeats(s) && k < |s|
    ensures Without(s, s[k]) == s[..k] + s[k + 1..]
    decreases s
  {
    TailRepeats(s);
    if k == 0 {
      WithoutAbsent(s[1..], s[0]);
    } else {
      hide NoRepeats;
      WithoutOne(s[1..], k - 1);
      assert s[..k] == [s[0]] + s[1..][..k - 1];
      assert s[k + 1..] == s[1..][k..];
    }
  }

  /** How adding a link between two modules ends: a module may have no node, an end the link names may not hold it. */
  datatype Adding = Added | NoNode | Refused

  class Topology {
    var nodes: seq<Node>
    var target: Node?
    /** The links that are in the graph. */
    ghost var links: set<Link>

    // ----- what every edit keeps -----

    ghost function Outs(): map<Node, seq<Link>>
      reads this`nodes, nodes`outLinks
    {
      map n | n in nodes :: n.outLinks
    }

    ghost function Ins(): map<Node, seq<Link>>
      reads this`nodes, nodes`inLinks
    {
      map n | n in nodes :: n.inLinks
    }

    ghost function Sources(): map<Link, Node?>
      reads this`links, links`srcNode
    {
      map l | l in links :: l.srcNode
    }

    ghost function Targets(): map<Link, Node?>
      reads this`links, links`destNode
    {
      map l | l in links :: l.destNode
    }

    ghost predicate Indexed()
      reads this`nodes
    {
      NoRepeats(nodes) && IdsRise(nodes)
    }

    ghost predicate Valid()
      reads this`nodes, this`links, nodes`outLinks, nodes`inLinks, links
    {
      Indexed() && Side(Outs(), Sources()) && Side(Ins(), Targets())
    }

    constructor ()
      ensures Valid() && nodes == [] && links == {} && target == null
    {
      nodes, target, links := [], null, {};
    }

    /**
     * A link of the graph is listed exactly once by its source and exactly once by
     * its destination; any other link by no node.
     */
    lemma TwoSided(l: Link, n: Node, m: Node)
      requires Valid() && n in nodes && m in nodes && (l in links ==> l.srcNode == n && l.destNode == m)
      ensures multiset(n.outLinks)[l] == multiset(m.inLinks)[l] == if l in links then 1 else 0
    {
      hide Side;
      LinksOnly();
      assert n in Outs() && m in Ins();
      BothSidesOrNone(Outs(), Sources(), Ins(), Targets(), n, m, l);
    }

    // ----- finding things -----

    /** std::lower_bound over the node index. */
    method LowerBound(key: nat) returns (k: nat)
      requires IdsRise(nodes)
      ensures k <= |nodes|
      ensures forall i :: 0 <= i < k ==> Unsigned(nodes[i].moduleId) < key
      ensures forall i :: k <= i < |nodes| ==> key <= Unsigned(nodes[i].moduleId)
    {
      k := 0;
      var len := |nodes|;
      while len > 0
        invariant 0 <= len && k + len <= |nodes|
        invariant forall i :: 0 <= i < k ==> Unsigned(nodes[i].moduleId) < key
        invariant forall i :: k + len <= i < |nodes| ==> key <= Unsigned(nodes[i].moduleId)
      {
        var half := len / 2;
        if Unsigned(nodes[k + half].moduleId) < key {
          k := k + half + 1;
          len := len - half - 1;
        } else {
          len := half;
        }
      }
    }

    predicate HasNode(id: ModuleId)
      reads this`nodes
    {
      exists n :: n in nodes && n.moduleId == id
    }

    predicate FirstWith(n: Node, id: ModuleId)
      reads this`nodes
    {
      n.moduleId == id && exists k :: 0 <= k < |nodes| && nodes[k] == n && forall i :: 0 <= i < k ==>
        nodes[i].moduleId != id
    }

    /** The first node with the id, exactly when a linear scan would meet one. */
    method GetNodeFor(id: ModuleId) returns (r: Node?)
      requires IdsRise(nodes)
      ensures r == null <==> !HasNode(id)
      ensures r != null ==> r in nodes && FirstWith(r, id)
    {
      var k := LowerBound(Unsigned(id));
      if k == |nodes| || nodes[k].moduleId != id {
        r := null;
        forall n | n in nodes ensures n.moduleId != id {
          var i :| 0 <= i < |nodes| && nodes[i] == n;
          if n.moduleId == id && i < k { assert false; }
        }
      } else {
        r := nodes[k];
      }
    }

    // ----- edits -----

    /**
     * A node takes the place its id demands; id -1 always goes last. The graph
     * stays in order exactly for a new node without links.
     */
    method AddNode(node: Node) returns (index: nat)
      requires IdsRise(nodes)
      modifies this`nodes
      ensures IdsRise(nodes) && index <= |old(nodes)| && nodes == InsertAt(old(nodes), index, node)
      ensures node.moduleId == -1 ==> index == |old(nodes)|
      ensures node.moduleId != -1 ==>
                forall i :: 0 <= i < |old(nodes)| ==>
                  (i < index <==> Unsigned(old(nodes)[i].moduleId) < Unsigned(node.moduleId))
      ensures forall i, j :: 0 <= i < j < |nodes| ==>
                if nodes[i].moduleId < 0 then nodes[j].moduleId < 0 && nodes[i].moduleId <= nodes[j].moduleId
                else nodes[j].moduleId < 0 || nodes[i].moduleId <= nodes[j].moduleId
      ensures node.moduleId != -1 ==>
                forall i :: 0 <= i < |old(nodes)| ==>
                  (i < index <==>
                   if (old(nodes)[i].moduleId < 0) == (node.moduleId < 0) then old(nodes)[i].moduleId < node.moduleId
                   else node.moduleId < 0)
      ensures old(Valid()) ==> (Valid() <==> node !in old(nodes) && node.outLinks == [] && node.inLinks == [])
    {
      hide *;
      ghost var was, outs, ins := nodes, Outs(), Ins();
      ListsAre();
      if Valid() {
        IsIndexed();
        NoneTwice();
      }
      index := InsertNode(node);
      InsertedIndex(was, index, node);
      RisingIds(nodes);
      EarlierIds(was, node.moduleId);
      if old(Valid()) {
        InsertedSides(outs, ins, node, was);
      }
    }

    lemma NoneTwice()
      requires Indexed()
      ensures NoRepeats(nodes)
    {
    }

    lemma ListsAre()
      ensures Outs().Keys == (set n | n in nodes) && Ins().Keys == set n | n in nodes
      ensures forall n :: n in nodes ==> Outs()[n] == n.outLinks && Ins()[n] == n.inLinks
    {
    }

    method InsertNode(node: Node) returns (index: nat)
      requires IdsRise(nodes)
      modifies this`nodes
      ensures index <= |old(nodes)| && nodes == InsertAt(old(nodes), index, node)
      ensures node.moduleId == -1 ==> index == |old(nodes)|
      ensures node.moduleId != -1 ==>
                forall i :: 0 <= i < |old(nodes)| ==>
                  (i < index <==> Unsigned(old(nodes)[i].moduleId) < Unsigned(node.moduleId))
      ensures forall i :: 0 <= i < index ==> Unsigned(old(nodes)[i].moduleId) <= Unsigned(node.moduleId)
      ensures forall i :: index <= i < |old(nodes)| ==> Unsigned(node.moduleId) <= Unsigned(old(nodes)[i].moduleId)
    {
      hide Unsigned, IdsRise;
      LargestId(nodes);
      if node.moduleId == -1 {
        index := |nodes|;
        nodes := nodes + [node];
      } else {
        index := LowerBound(Unsigned(node.moduleId));
        nodes := nodes[..index] + [node] + nodes[index..];
      }
    }

    /**
     * A joining node with a link would list a link that some other node of the
     * graph lists already, or one not in the graph.
     */
    lemma InsertedSides(outs: map<Node, seq<Link>>, ins: map<Node, seq<Link>>, node: Node, was: seq<Node>)
      requires Side(outs, Sources()) && Side(ins, Targets())
      requires outs.Keys == (set n | n in was) && ins.Keys == set n | n in was
      requires forall n :: n in nodes <==> n in was || n == node
      requires forall n :: n in was ==> outs[n] == n.outLinks && ins[n] == n.inLinks
      requires Indexed() <==> node !in was
      ensures Valid() <==> node !in was && node.outLinks == [] && node.inLinks == []
    {
      hide Side, Indexed;
      if node !in was && node.outLinks == [] && node.inLinks == [] {
        SideNodes(outs, Sources(), Outs());
        SideNodes(ins, Targets(), Ins());
      } else if Valid() {
        assert node in Outs() && node in Ins();
        if node.outLinks != [] {
          var l := node.outLinks[0];
          SideHas(Outs(), Sources(), node, l);
          EndListed(outs, Sources(), l);
        } else {
          var l := node.inLinks[0];
          SideHas(Ins(), Targets(), node, l);
          EndListed(ins, Targets(), l);
        }
        assert false;
      }
    }

    lemma InsertedRepeats(was: seq<Node>, k: nat, node: Node)
      requires k <= |was| && NoRepeats(was)
      ensures NoRepeats(InsertAt(was, k, node)) <==> node !in was
    {
      if node !in was {
        InsertKeeps(was, k, node);
      } else {
        var i :| 0 <= i < |was| && was[i] == node;
        assert InsertAt(was, k, node)[k] == node && InsertAt(was, k, node)[if i < k then i else i + 1] == node;
      }
    }

    lemma InsertedIndex(was: seq<Node>, k: nat, node: Node)
      requires k <= |was| && nodes == InsertAt(was, k, node) && IdsRise(was)
      requires forall i :: 0 <= i < k ==> Unsigned(was[i].moduleId) <= Unsigned(node.moduleId)
      requires forall i :: k <= i < |was| ==> Unsigned(node.moduleId) <= Unsigned(was[i].moduleId)
      ensures IdsRise(nodes) && forall n :: n in nodes <==> n in was || n == node
      ensures NoRepeats(was) ==> (Indexed() <==> node !in was)
    {
      hide NoRepeats;
      if NoRepeats(was) { InsertedRepeats(was, k, node); }
      forall i, j | 0 <= i < j < |nodes|
        ensures Unsigned(nodes[i].moduleId) <= Unsigned(nodes[j].moduleId)
      {
        if i < k { assert nodes[i] == was[i]; }
        if i > k { assert nodes[i] == was[i - 1]; }
        if j < k { assert nodes[j] == was[j]; }
        if j > k { assert nodes[j] == was[j - 1]; }
      }
    }

    /** std::find, and erase of the place found; refused where there is none. */
    method Erase<T(==)>(s: seq<T>, l: T) returns (r: seq<T>, ok: bool)
      ensures ok <==> l in s
      ensures ok ==> exists k :: 0 <= k < |s| && s[k] == l && l !in s[..k] && r == s[..k] + s[k + 1..]
      ensures ok && NoRepeats(s) ==> r == Without(s, l)
      ensures !ok ==> r == s
    {
      var k := 0;
      while k < |s| && s[k] != l
        invariant 0 <= k <= |s|
        invariant l !in s[..k]
      {
        k := k + 1;
      }
      ok := k < |s|;
      if ok {
        if NoRepeats(s) { WithoutOne(s, k); }
        r := s[..k] + s[k + 1..];
      } else {
        r := s;
      }
    }

    /** Takes a link off its source's list; refused if the list does not hold it. */
    method UnlinkFromSourceNode(link: Link) returns (ok: bool)
      requires link.srcNode != null
      modifies link.srcNode`outLinks
      ensures ok <==> link in old(link.srcNode.outLinks)
      ensures !ok ==> link.srcNode.outLinks == old(link.srcNode.outLinks)
      ensures !ok || link.srcNode !in nodes ==> Outs() == old(Outs())
      ensures ok && NoRepeats(old(link.srcNode.outLinks)) ==>
              link.srcNode.outLinks == Without(old(link.srcNode.outLinks), link)
      ensures ok && link.srcNode in nodes && NoRepeats(old(link.srcNode.outLinks)) ==>
                Outs() == old(Outs()[link.srcNode := Without(link.srcNode.outLinks, link)])
    {
      link.srcNode.outLinks, ok := Erase(link.srcNode.outLinks, link);
    }

    /** Takes a link off its target's list; refused if the list does not hold it. */
    method UnlinkFromDestNode(link: Link) returns (ok: bool)
      requires link.destNode != null
      modifies link.destNode`inLinks
      ensures ok <==> link in old(link.destNode.inLinks)
      ensures !ok ==> link.destNode.inLinks == old(link.destNode.inLinks)
      ensures !ok || link.destNode !in nodes ==> Ins() == old(Ins())
      ensures ok && NoRepeats(old(link.destNode.inLinks)) ==>
              link.destNode.inLinks == Without(old(link.destNode.inLinks), link)
      ensures ok && link.destNode in nodes && NoRepeats(old(link.destNode.inLinks)) ==>
                Ins() == old(Ins()[link.destNode := Without(link.destNode.inLinks, link)])
    {
      link.destNode.inLinks, ok := Erase(link.destNode.inLinks, link);
    }

    method DeleteLink(link: Link)
      requires Valid() && link in links
      modifies this`links, nodes`outLinks, nodes`inLinks
      ensures Valid() && links == old(links) - {link}
      ensures Outs() == AllExcept(old(Outs()), {link}) && Ins() == AllExcept(old(Ins()), {link})
    {
      hide *;
      IsIndexed();
      LinkEnds(link);
      Erased(Outs(), Sources(), link);
      Erased(Ins(), Targets(), link);
      var fromSource := UnlinkFromSourceNode(link);
      var fromDest := UnlinkFromDestNode(link);
      Forget({link});
      IsValid();
    }

    function SourceOf(link: Link): set<Node>
      reads link
    {
      if link.srcNode == null then {} else {link.srcNode}
    }

    function TargetOf(link: Link): set<Node>
      reads link
    {
      if link.destNode == null then {} else {link.destNode}
    }

    /** The ends a link names hold it, as both finds require. */
    ghost predicate Listed(link: Link)
      reads link, link.srcNode, link.destNode
    {
      && (link.srcNode != null ==> link in link.srcNode.outLinks)
      && (link.destNode != null ==> link in link.destNode.inLinks)
    }

    /**
     * Among links whose ends are in the graph, those left outside it by a failed
     * edit are exactly the ones no longer listed.
     */
    lemma ListedExactly(link: Link)
      requires Valid() && (link.srcNode == null || link.srcNode in nodes)
               && (link.destNode == null || link.destNode in nodes)
      ensures Listed(link) <==> link in links || (link.srcNode == null && link.destNode == null)
    {
      hide Valid;
      if link in links {
        LinkEnds(link);
      } else {
        Unlisted(link);
      }
    }

    /** No node of the graph lists a link that is not in the graph. */
    lemma Unlisted(link: Link)
      requires Valid() && link !in links
      ensures forall n :: n in nodes ==> link !in n.outLinks && link !in n.inLinks
    {
      hide Side, Indexed;
      forall n | n in nodes ensures link !in n.outLinks && link !in n.inLinks {
        assert n in Outs() && n in Ins();
        if link in n.outLinks { SideHas(Outs(), Sources(), n, link); }
        if link in n.inLinks { SideHas(Ins(), Targets(), n, link); }
      }
    }

    /**
     * Takes a link off the lists of the ends it names; refused, with the graph as
     * it was, if one of them does not hold it.
     */
    method Detach(link: Link) returns (ok: bool)
      requires Valid()
      modifies this`links, SourceOf(link)`outLinks, TargetOf(link)`inLinks
      ensures ok <==> old(Listed(link))
      ensures Valid() && links == old(links) - {link}
      ensures Outs() == AllExcept(old(Outs()), {link}) && Ins() == AllExcept(old(Ins()), {link})
    {
      hide *;
      IsIndexed();
      LinksOnly();
      Unlinked(link);
      SideExcept(Outs(), Sources(), {link});
      SideExcept(Ins(), Targets(), {link});
      ok := Unlink(link);
      Forget({link});
      IsValid();
    }

    /** The two finds and erases. */
    method Unlink(link: Link) returns (ok: bool)
      requires Valid()
      modifies SourceOf(link)`outLinks, TargetOf(link)`inLinks
      ensures ok <==> old(Listed(link))
      ensures Outs() == old(WithoutOut(link)) && Ins() == old(WithoutIn(link))
    {
      hide Without, NoRepeats, Valid, Outs, Ins;
      ListsAtEnds(link);
      ok := true;
      if link.srcNode != null { ok := UnlinkFromSourceNode(link); }
      if ok && link.destNode != null { ok := UnlinkFromDestNode(link); }
    }

    lemma ListsAtEnds(link: Link)
      requires Valid()
      ensures link.srcNode in nodes ==> NoRepeats(link.srcNode.outLinks)
      ensures link.destNode in nodes ==> NoRepeats(link.destNode.inLinks)
    {
      hide NoRepeats, Side, Indexed;
      if link.srcNode in nodes { NodeLists(link.srcNode); }
      if link.destNode in nodes { NodeLists(link.destNode); }
    }

    /** The source's find comes first. */
    ghost function WithoutOut(link: Link): map<Node, seq<Link>>
      reads this`nodes, link, nodes`outLinks, link.srcNode
    {
      if link.srcNode in nodes && link in link.srcNode.outLinks
      then Outs()[link.srcNode := Without(link.srcNode.outLinks, link)] else Outs()
    }

    ghost function WithoutIn(link: Link): map<Node, seq<Link>>
      reads this`nodes, link, nodes`inLinks, link.srcNode, link.destNode
    {
      if link.destNode in nodes && Listed(link)
      then Ins()[link.destNode := Without(link.destNode.inLinks, link)] else Ins()
    }

    lemma Unlinked(link: Link)
      requires Valid()
      ensures WithoutOut(link) == AllExcept(Outs(), {link}) && WithoutIn(link) == AllExcept(Ins(), {link})
    {
      hide Side, Indexed, AllExcept, Without, NoRepeats;
      if link in links {
        LinkEnds(link);
        Erased(Outs(), Sources(), link);
        Erased(Ins(), Targets(), link);
      } else {
        LinksOnly();
        NotListed(Outs(), Sources(), link);
        NotListed(Ins(), Targets(), link);
        Unlisted(link);
      }
    }

    lemma LinksOnly()
      ensures Sources().Keys == links && Targets().Keys == links
      ensures Outs().Keys == (set n | n in nodes) && Ins().Keys == set n | n in nodes
    {
    }

    /**
     * Sets the ends of a link that is not in the graph and appends it to the lists
     * of both, which need not be in the graph.
     */
    method Attach(link: Link, src: Node, dest: Node, srcGate: int, destGate: int)
      requires Valid() && link !in links
      modifies this`links, link, src`outLinks, dest`inLinks
      ensures links == old(links) + {link} && (Valid() <==> src in nodes && dest in nodes)
      ensures link.srcNode == src && link.destNode == dest && link.srcGateId == srcGate && link.destGateId == destGate
      ensures src.outLinks == old(src.outLinks) + [link] && dest.inLinks == old(dest.inLinks) + [link]
      ensures src in nodes ==> src in old(Outs()) && Outs() == Appended(old(Outs()), src, link)
      ensures dest in nodes ==> dest in old(Ins()) && Ins() == Appended(old(Ins()), dest, link)
    {
      hide *;
      IsIndexed();
      SetEnds(link, src, dest, srcGate, destGate);
      ListAtEnds(link, src, dest);
    }

    method ListAtEnds(link: Link, src: Node, dest: Node)
      requires Indexed() && Side(Outs(), Sources()) && Side(Ins(), Targets())
      requires link !in links && link.srcNode == src && link.destNode == dest
      modifies this`links, src`outLinks, dest`inLinks
      ensures links == old(links) + {link} && (Valid() <==> src in nodes && dest in nodes)
      ensures src.outLinks == old(src.outLinks) + [link] && dest.inLinks == old(dest.inLinks) + [link]
      ensures src in nodes ==> src in old(Outs()) && Outs() == Appended(old(Outs()), src, link)
      ensures dest in nodes ==> dest in old(Ins()) && Ins() == Appended(old(Ins()), dest, link)
    {
      hide *;
      ghost var inside := src in nodes && dest in nodes;
      LinksOnly();
      if inside {
        SideAppend(Outs(), Sources(), src, link);
        SideAppend(Ins(), Targets(), dest, link);
      }
      AppendOut(src, link);
      AppendIn(dest, link);
      Remember(link);
      if inside {
        IsValid();
      } else if Valid() {
        LinkEnds(link);
      }
    }

    method SetEnds(link: Link, src: Node, dest: Node, srcGate: int, destGate: int)
      requires link !in links
      modifies link
      ensures link.srcNode == src && link.destNode == dest && link.srcGateId == srcGate && link.destGateId == destGate
      ensures Sources() == old(Sources()) && Targets() == old(Targets())
    {
      link.srcNode, link.srcGateId := src, srcGate;
      link.destNode, link.destGateId := dest, destGate;
    }

    method AppendOut(n: Node, link: Link)
      modifies n`outLinks
      ensures n.outLinks == old(n.outLinks) + [link]
      ensures if n in nodes then n in old(Outs()) && Outs() == Appended(old(Outs()), n, link) else Outs() == old(Outs())
    {
      n.outLinks := n.outLinks + [link];
    }

    method AppendIn(n: Node, link: Link)
      modifies n`inLinks
      ensures n.inLinks == old(n.inLinks) + [link]
      ensures if n in nodes then n in old(Ins()) && Ins() == Appended(old(Ins()), n, link) else Ins() == old(Ins())
    {
      n.inLinks := n.inLinks + [link];
    }

    /** The link is in the graph from now on. */
    ghost method Remember(link: Link)
      modifies this`links
      ensures links == old(links) + {link}
      ensures Sources() == old(Sources())[link := link.srcNode] && Targets() == old(Targets())[link := link.destNode]
    {
      links := links + {link};
    }

    /**
     * Adds a link or moves it to other ends; a gate id is kept only where the end stays. Refused if
     * an end it names does not hold it. The graph stays in order exactly if the new ends are in it.
     */
    method AddLink(link: Link, src: Node, dest: Node) returns (ok: bool)
      requires Valid()
      modifies this`links, link, SourceOf(link)`outLinks, TargetOf(link)`inLinks, src`outLinks, dest`inLinks
      ensures ok <==> old(Listed(link))
      ensures ok ==> links == old(links) + {link} && (Valid() <==> src in nodes && dest in nodes)
      ensures ok ==>
                link.srcNode == src && link.srcGateId == (if old(link.srcNode) == src then old(link.srcGateId) else -1)
      ensures ok ==>
                link.destNode == dest
                && link.destGateId == (if old(link.destNode) == dest then old(link.destGateId) else -1)
      ensures ok ==> link in src.outLinks && link in dest.inLinks
      ensures ok && src in nodes ==> src in old(Outs()) && Outs() == Appended(AllExcept(old(Outs()), {link}), src, link)
      ensures ok && dest in nodes ==> dest in old(Ins()) && Ins() == Appended(AllExcept(old(Ins()), {link}), dest, link)
      ensures !ok ==> Valid() && links == old(links) && Outs() == old(Outs()) && Ins() == old(Ins())
    {
      hide *;
      LinksOnly();
      if !Listed(link) { Refusal(link); }
      ok := Detach(link);
      if !ok { return; }
      LinksOnly();
      var srcGate := if link.srcNode == src then link.srcGateId else -1;
      var destGate := if link.destNode == dest then link.destGateId else -1;
      Attach(link, src, dest, srcGate, destGate);
      Rejoined(old(links), link);
    }

    /** A link that is refused is not in the graph. */
    lemma Refusal(link: Link)
      requires Valid() && !Listed(link)
      ensures link !in links && AllExcept(Outs(), {link}) == Outs() && AllExcept(Ins(), {link}) == Ins()
    {
      hide Side, Indexed, AllExcept;
      if link in links { LinkEnds(link); }
      NotListed(Outs(), Sources(), link);
      NotListed(Ins(), Targets(), link);
    }

    /**
     * Adds a link between the nodes of two modules. If one is missing the link is left out of the
     * graph, its ends unchanged: they no longer hold it, and every later attempt to add it is refused.
     */
    method AddLinkByGates(link: Link, srcModule: ModuleId, srcGate: int, destModule: ModuleId, destGate: int)
        returns (r: Adding)
      requires Valid()
      modifies this`links, link, SourceOf(link)`outLinks, TargetOf(link)`inLinks, nodes`outLinks, nodes`inLinks
      ensures r == Refused <==> !old(Listed(link))
      ensures r == Added <==> old(Listed(link)) && HasNode(srcModule) && HasNode(destModule)
      ensures Valid() && links == if r == Added then old(links) + {link} else old(links) - {link}
      ensures r == Added ==> link.srcNode in nodes && FirstWith(link.srcNode, srcModule) && link.srcGateId == srcGate
      ensures r == Added ==>
                link.destNode in nodes && FirstWith(link.destNode, destModule) && link.destGateId == destGate
      ensures r == Added ==>
                link.srcNode in old(Outs()) && Outs() == Appended(AllExcept(old(Outs()), {link}), link.srcNode, link)
      ensures r == Added ==>
                link.destNode in old(Ins()) && Ins() == Appended(AllExcept(old(Ins()), {link}), link.destNode, link)
      ensures r != Added ==> link.srcNode == old(link.srcNode) && link.destNode == old(link.destNode)
      ensures r != Added ==> Outs() == AllExcept(old(Outs()), {link}) && Ins() == AllExcept(old(Ins()), {link})
      ensures r == NoNode && link in old(links) ==> !Listed(link)
    {
      hide *;
      LinksOnly();
      if link in links { LinkEnds(link); }
      var ok := Detach(link);
      if !ok { return Refused; }
      LinksOnly();
      IsIndexed();
      var src := GetNodeFor(srcModule);
      var dest := GetNodeFor(destModule);
      if src == null || dest == null {
        if link in old(links) { ListedExactly(link); }
        return NoNode;
      }
      r := Added;
      Attach(link, src, dest, srcGate, destGate);
      Rejoined(old(links), link);
    }

    /** Takes the links out of a node off the lists of the nodes they enter, then empties the node's own list. */
    method DropOutLinks(node: Node)
      requires Valid() && node in nodes
      modifies this`links, nodes`outLinks, nodes`inLinks
      ensures Valid() && links == old(links) - LinksOf(old(node.outLinks))
      ensures Outs() == AllExcept(old(Outs()), LinksOf(old(node.outLinks)))
      ensures Ins() == AllExcept(old(Ins()), LinksOf(old(node.outLinks)))
      ensures node.outLinks == []
    {
      hide *;
      ghost var gone := LinksOf(node.outLinks);
      NodeLists(node);
      IsIndexed();
      SideEmptied(Outs(), Sources(), node, gone);
      SideExcept(Outs(), Sources(), gone);
      SideExcept(Ins(), Targets(), gone);
      UnlinkAtDests(node);
      ClearOut(node);
      Forget(gone);
      IsValid();
    }

    lemma NodeLists(node: Node)
      requires Valid() && node in nodes
      ensures node in Outs() && Outs()[node] == node.outLinks && NoRepeats(node.outLinks)
      ensures node in Ins() && Ins()[node] == node.inLinks && NoRepeats(node.inLinks)
    {
      assert node in Outs() && node in Ins();
    }

    method UnlinkAtDests(node: Node)
      requires Valid() && node in nodes
      modifies nodes`inLinks
      ensures Ins() == AllExcept(old(Ins()), LinksOf(node.outLinks))
    {
      hide *;
      ghost var ins := Ins();
      NodeLists(node);
      IsIndexed();
      AllExceptNone(ins);
      LinksOfEnds(node.outLinks);
      LinksOnly();
      var i := 0;
      while i < |node.outLinks|
        invariant i <= |node.outLinks|
        invariant Ins() == AllExcept(ins, LinksOf(node.outLinks[..i]))
        modifies nodes`inLinks
      {
        UnlinkOneAtDest(node, i, ins);
        i := i + 1;
      }
    }

    method UnlinkOneAtDest(node: Node, i: nat, ghost ins: map<Node, seq<Link>>)
      requires Side(Outs(), Sources()) && Side(ins, Targets()) && node in nodes && i < |node.outLinks|
      requires Ins() == AllExcept(ins, LinksOf(node.outLinks[..i]))
      modifies nodes`inLinks
      ensures Ins() == AllExcept(ins, LinksOf(node.outLinks[..i + 1]))
    {
      hide Side, NoRepeats;
      ghost var link, gone := node.outLinks[i], LinksOf(node.outLinks[..i]);
      SideList(Outs(), Sources(), node, link);
      LinksOfPrefix(node.outLinks, i);
      AtDest(link, ins, gone);
      SideErase(ins, Targets(), gone, link);
      var ok := UnlinkFromDestNode(node.outLinks[i]);
    }

    lemma AtDest(link: Link, ins: map<Node, seq<Link>>, gone: set<Link>)
      requires Side(ins, Targets()) && Ins() == AllExcept(ins, gone) && link in links && link !in gone
      ensures link in Targets() && Targets()[link] == link.destNode && link.destNode in nodes
      ensures link.destNode in Ins() && Ins()[link.destNode] == link.destNode.inLinks
      ensures link in link.destNode.inLinks && NoRepeats(link.destNode.inLinks)
    {
      assert link in Targets();
      EndListed(ins, Targets(), link);
      hide Side;
      ExceptRepeats(ins[link.destNode], gone);
      assert link.destNode in Ins();
      assert Ins()[link.destNode] == Except(ins[link.destNode], gone);
    }

    /** Takes the links into a node off the lists of the nodes they leave, then empties the node's own list. */
    method DropInLinks(node: Node)
      requires Valid() && node in nodes
      modifies this`links, nodes`inLinks, nodes`outLinks
      ensures Valid() && links == old(links) - LinksOf(old(node.inLinks))
      ensures Ins() == AllExcept(old(Ins()), LinksOf(old(node.inLinks)))
      ensures Outs() == AllExcept(old(Outs()), LinksOf(old(node.inLinks)))
      ensures node.inLinks == []
    {
      hide *;
      ghost var gone := LinksOf(node.inLinks);
      NodeLists(node);
      IsIndexed();
      SideEmptied(Ins(), Targets(), node, gone);
      SideExcept(Ins(), Targets(), gone);
      SideExcept(Outs(), Sources(), gone);
      UnlinkAtSources(node);
      ClearIn(node);
      Forget(gone);
      IsValid();
    }

    method UnlinkAtSources(node: Node)
      requires Valid() && node in nodes
      modifies nodes`outLinks
      ensures Outs() == AllExcept(old(Outs()), LinksOf(node.inLinks))
    {
      hide *;
      ghost var outs := Outs();
      NodeLists(node);
      IsIndexed();
      AllExceptNone(outs);
      LinksOfEnds(node.inLinks);
      LinksOnly();
      var i := 0;
      while i < |node.inLinks|
        invariant i <= |node.inLinks|
        invariant Outs() == AllExcept(outs, LinksOf(node.inLinks[..i]))
        modifies nodes`outLinks
      {
        UnlinkOneAtSource(node, i, outs);
        i := i + 1;
      }
    }

    method UnlinkOneAtSource(node: Node, i: nat, ghost outs: map<Node, seq<Link>>)
      requires Side(Ins(), Targets()) && Side(outs, Sources()) && node in nodes && i < |node.inLinks|
      requires Outs() == AllExcept(outs, LinksOf(node.inLinks[..i]))
      modifies nodes`outLinks
      ensures Outs() == AllExcept(outs, LinksOf(node.inLinks[..i + 1]))
    {
      hide Side, NoRepeats;
      ghost var link, gone := node.inLinks[i], LinksOf(node.inLinks[..i]);
      SideList(Ins(), Targets(), node, link);
      LinksOfPrefix(node.inLinks, i);
      AtSource(link, outs, gone);
      SideErase(outs, Sources(), gone, link);
      var ok := UnlinkFromSourceNode(node.inLinks[i]);
    }

    lemma AtSource(link: Link, outs: map<Node, seq<Link>>, gone: set<Link>)
      requires Side(outs, Sources()) && Outs() == AllExcept(outs, gone) && link in links && link !in gone
      ensures link in Sources() && Sources()[link] == link.srcNode && link.srcNode in nodes
      ensures link.srcNode in Outs() && Outs()[link.srcNode] == link.srcNode.outLinks
      ensures link in link.srcNode.outLinks && NoRepeats(link.srcNode.outLinks)
    {
      assert link in Sources();
      EndListed(outs, Sources(), link);
      hide Side;
      ExceptRepeats(outs[link.srcNode], gone);
      assert link.srcNode in Outs();
      assert Outs()[link.srcNode] == Except(outs[link.srcNode], gone);
    }

    method ClearOut(n: Node)
      requires n in nodes
      modifies n`outLinks
      ensures n.outLinks == [] && Outs() == old(Outs())[n := []]
    {
      n.outLinks := [];
    }

    method ClearIn(n: Node)
      requires n in nodes
      modifies n`inLinks
      ensures n.inLinks == [] && Ins() == old(Ins())[n := []]
    {
      n.inLinks := [];
    }

    /** The links out of a node and those into it. */
    ghost function LinksAt(node: Node): set<Link>
      reads node`outLinks, node`inLinks
    {
      LinksOf(node.outLinks) + LinksOf(node.inLinks)
    }

    /** Takes a node and all its links off the graph; the other links stay, in their order. */
    method DeleteNode(node: Node)
      requires Valid() && node in nodes
      modifies this`nodes, this`links, nodes`outLinks, nodes`inLinks
      ensures Valid() && nodes == Without(old(nodes), node) && links == old(links) - old(LinksAt(node))
      ensures Outs() == AllExcept(old(Outs()), old(LinksAt(node))) - {node}
      ensures Ins() == AllExcept(old(Ins()), old(LinksAt(node))) - {node}
    {
      hide *;
      DropLinks(node);
      RemoveNode(node);
    }

    method DropLinks(node: Node)
      requires Valid() && node in nodes
      modifies this`links, nodes`outLinks, nodes`inLinks
      ensures Valid() && links == old(links) - old(LinksAt(node)) && node.outLinks == [] && node.inLinks == []
      ensures Outs() == AllExcept(old(Outs()), old(LinksAt(node))) && Ins() == AllExcept(old(Ins()), old(LinksAt(node)))
    {
      hide *;
      ghost var gone, s := LinksOf(node.outLinks), node.inLinks;
      NodeLists(node);
      RemainingLinks(Outs(), gone, s);
      RemainingLinks(Ins(), gone, s);
      RemainingSet(links, gone, s);
      AllExceptAt(Ins(), gone, node);
      LinksAtIs(node);
      DropOutLinks(node);
      NodeLists(node);
      AllExceptAt(Outs(), LinksOf(node.inLinks), node);
      ExceptAll([], LinksOf(node.inLinks));
      DropInLinks(node);
      NodeLists(node);
    }

    lemma LinksAtIs(node: Node)
      ensures LinksAt(node) == LinksOf(node.outLinks) + LinksOf(node.inLinks)
    {
    }

    method RemoveNode(node: Node)
      requires Valid() && node in nodes && node.outLinks == [] && node.inLinks == []
      modifies this`nodes
      ensures Valid() && nodes == Without(old(nodes), node)
      ensures Outs() == old(Outs()) - {node} && Ins() == old(Ins()) - {node}
    {
      hide *;
      IsIndexed();
      NodeLists(node);
      SideNodes(Outs(), Sources(), Outs() - {node});
      SideNodes(Ins(), Targets(), Ins() - {node});
      EraseNode(node);
      IsValid();
    }

    method EraseNode(node: Node)
      requires Indexed() && node in nodes
      modifies this`nodes
      ensures Indexed() && nodes == Without(old(nodes), node)
      ensures Outs() == old(Outs()) - {node} && Ins() == old(Ins()) - {node}
    {
      hide Side, Without, NoRepeats, IdsRise;
      ghost var was := nodes;
      var found;
      nodes, found := Erase(nodes, node);
      WithoutKeeps(was, node);
      WithoutSorted(was, node);
    }

    /** The links are no longer in the graph. */
    ghost method Forget(gone: set<Link>)
      modifies this`links
      ensures links == old(links) - gone
      ensures Sources() == Drop(old(Sources()), gone) && Targets() == Drop(old(Targets()), gone)
    {
      links := links - gone;
    }

    lemma IsValid()
      requires Indexed() && Side(Outs(), Sources()) && Side(Ins(), Targets())
      ensures Valid()
    {
    }

    lemma IsIndexed()
      requires Valid()
      ensures Indexed() && Side(Outs(), Sources()) && Side(Ins(), Targets())
    {
    }

    lemma LinkEnds(link: Link)
      requires Valid() && link in links
      ensures link.srcNode in nodes && link in link.srcNode.outLinks && NoRepeats(link.srcNode.outLinks)
      ensures link.destNode in nodes && link in link.destNode.inLinks && NoRepeats(link.destNode.inLinks)
      ensures Outs()[link.srcNode] == link.srcNode.outLinks && link in Sources() && Sources()[link] == link.srcNode
      ensures Ins()[link.destNode] == link.destNode.inLinks && link in Targets() && Targets()[link] == link.destNode
    {
      hide Side, Indexed;
      assert Sources()[link] == link.srcNode && Targets()[link] == link.destNode;
      EndListed(Outs(), Sources(), link);
      EndListed(Ins(), Targets(), link);
    }

    lemma InLink(v: Node, i: nat)
      requires Valid() && v in nodes && i < |v.inLinks|
      ensures v.inLinks[i] in links && v.inLinks[i].destNode == v && v.inLinks[i].srcNode in nodes
    {
      assert v in Ins() && Ins()[v] == v.inLinks;
      SideHas(Ins(), Targets(), v, v.inLinks[i]);
      LinkEnds(v.inLinks[i]);
    }

    // ----- the searches -----

    /**
     * The graph with the costs of the weighted search: a link's weight, and the
     * weight of the node it enters unless that is the target.
     */
    ghost function Weighted(t: Node): Graph
      reads this`nodes, this`links, nodes`inLinks, nodes`weight, nodes`enabled, links
    {
      Graph(
        set n | n in nodes,
        map n | n in nodes :: n.inLinks,
        map l | l in links && l.srcNode in nodes && l.destNode in nodes ::
          Edge(l.srcNode, l.destNode,
            if l.destNode == t then l.weight else l.weight.Plus(l.destNode.weight),
            l.enabled && l.srcNode.enabled))
    }

    ghost function Now(): Labels
      reads this`nodes, nodes`dist, nodes`outPath
    {
      Labels(map n | n in nodes :: n.dist, map n | n in nodes :: n.outPath)
    }

    /** What the search asserts of a link it may use. */
    ghost predicate FitLink(l: Link)
      reads this`nodes, nodes`enabled, l
    {
      l.enabled && l.srcNode in nodes && l.srcNode.enabled ==> l.weight.Positive()
    }

    /** What it asserts of a node it takes and of the links it may use into it. */
    ghost predicate Fit(n: Node)
      reads this`nodes, this`links, n`weight, n`inLinks, nodes`enabled, links
    {
      n.weight.AtLeastZero() && forall l :: l in n.inLinks && l in links ==> FitLink(l)
    }

    ghost predicate AllFit(s: seq<Node>)
      reads this`nodes, this`links, s`weight, s`inLinks, nodes`enabled, links
    {
      forall n :: n in s ==> Fit(n)
    }

    /** Every node from which a path of finite cost leads to the target passes the assertions. */
    ghost predicate Answerable(t: Node)
      reads this`nodes, this`links, nodes`inLinks, nodes`weight, nodes`enabled, links
    {
      forall n, p :: n in nodes && Path(Weighted(t), n, t, p) && Affordable(Weighted(t), p) ==> Fit(n)
    }

    /** A search that met an unfit node: the labels lead from there to the target. */
    lemma Unfit(t: Node, done: seq<Node>, q: seq<Node>, low: real, k: nat)
      requires Searching(Weighted(t), t, Now(), done, q, low, k) && done != [] && !Fit(done[|done| - 1])
      ensures !Answerable(t)
    {
      hide Searching, Path, Route, PathCost, Fit, Weighted;
      WeightedNodes(t);
      SearchQueue(Weighted(t), t, Now(), done, q, low, k);
      var n := done[|done| - 1];
      assert n in done;
      var p := RouteFrom(Weighted(t), t, Now(), done, q, low, k, |done| - 1);
      RouteIsPath(Weighted(t), t, Now(), n, p);
    }

    /** A search that ended has taken every node from which the target can be reached. */
    lemma AllAnswered(t: Node, done: seq<Node>, low: real, k: nat)
      requires Searching(Weighted(t), t, Now(), done, [], low, k) && Handled(Weighted(t), done, k) && AllFit(done)
      ensures Answerable(t)
    {
      hide Searching, Path, PathCost, Fit, Weighted, Handled;
      WeightedNodes(t);
      SearchQueue(Weighted(t), t, Now(), done, [], low, k);
      forall n, p | n in nodes && Path(Weighted(t), n, t, p) && Affordable(Weighted(t), p) ensures Fit(n) {
        NoShorterPath(Weighted(t), t, Now(), done, low, k, n, p);
        var i := TakenIndex(Weighted(t), t, Now(), done, low, k, n);
      }
    }

    lemma WeightedSound(t: Node)
      requires Valid() && t in nodes
      ensures Sound(Weighted(t))
    {
    }

    /** Clears all labels. */
    method Unlabel(t: Node)
      requires t in nodes
      modifies nodes`dist, nodes`outPath
      ensures forall n :: n in nodes ==> n.dist == (if n == t then Finite(0.0) else Infinity) && n.outPath == null
    {
      var i := 0;
      while i < |nodes|
        invariant 0 <= i <= |nodes|
        invariant forall j :: 0 <= j < i ==> nodes[j].dist == Infinity && nodes[j].outPath == null
        modifies nodes`dist, nodes`outPath
      {
        nodes[i].dist := Infinity;
        nodes[i].outPath := null;
        i := i + 1;
      }
      t.dist := Finite(0.0);
    }

    /** The cost at which v can be left for the target, over a link of the given weight. */
    function OfferedBy(t: Node, v: Node, w: Cost): Cost
      reads v`dist, v`weight
    {
      if v == t then v.dist.Plus(w) else v.dist.Plus(w).Plus(v.weight)
    }

    /** What a link into v is in the weighted graph. */
    lemma LinkInto(t: Node, v: Node, i: nat)
      requires Valid() && t in nodes && v in nodes && i < |v.inLinks|
      ensures var l := v.inLinks[i];
              && l in links && l.srcNode in nodes && l.srcNode in Weighted(t).nodes && l in Weighted(t).edge
                && v in Weighted(t).ins && Weighted(t).ins[v] == v.inLinks
              && var e := Weighted(t).edge[l];
                 && e.src == l.srcNode && e.dest == v && e.open == (l.enabled && l.srcNode.enabled)
                 && (v.dist.Finite? ==> v.dist.Plus(e.cost) == OfferedBy(t, v, l.weight))
                 && (e.open && FitLink(l) && v.weight.AtLeastZero() ==> e.cost.Positive())
    {
      hide Valid;
      InLink(v, i);
    }

    lemma LinkOffers(t: Node, v: Node, i: nat, d: real)
      requires Valid() && t in nodes && v in nodes && i < |v.inLinks| && v.dist.Finite?
      requires v.inLinks[i].enabled && v.inLinks[i].srcNode in nodes && v.inLinks[i].srcNode.enabled
      requires OfferedBy(t, v, v.inLinks[i].weight) == Finite(d)
      requires FitLink(v.inLinks[i]) && v.weight.AtLeastZero()
      ensures Offers(Weighted(t), Now(), v.inLinks[i], v.inLinks[i].srcNode, d) && d > v.dist.v
      ensures v.inLinks[i] in Weighted(t).edge && Weighted(t).edge[v.inLinks[i]].dest == v
    {
      hide Valid, OfferedBy;
      LinkInto(t, v, i);
    }

    lemma LinkOffersNothing(t: Node, v: Node, i: nat)
      requires Valid() && t in nodes && v in nodes && i < |v.inLinks| && v.dist.Finite?
      requires var l := v.inLinks[i];
               l.srcNode in nodes && l.enabled && l.srcNode.enabled ==>
                 !l.srcNode.dist.Exceeds(OfferedBy(t, v, l.weight))
      ensures v in Weighted(t).ins && Weighted(t).ins[v] == v.inLinks
      ensures Relaxed(Weighted(t), Now(), v.inLinks[i])
    {
      hide Valid, OfferedBy;
      LinkInto(t, v, i);
    }

    /** The first node in the queue that is farther than d. */
    method FirstFarther(q: seq<Node>, d: Cost) returns (k: nat)
      requires forall n :: n in q ==> n in nodes
      ensures forall n :: n in q ==> n in Now().dist
      ensures k == Place(Now().dist, q, d) <= |q|
    {
      k := 0;
      while k < |q| && !q[k].dist.Exceeds(d)
        invariant k <= |q|
        invariant forall j :: 0 <= j < k ==> !q[j].dist.Exceeds(d)
      {
        k := k + 1;
      }
      PlaceIs(Now().dist, q, d, k);
    }

    /** Lowers a node's distance and moves it to its place in the queue. */
    method Improve(src: Node, newdist: Cost, l: Link, q: seq<Node>) returns (r: seq<Node>)
      requires src in nodes && (forall n :: n in q ==> n in nodes) && (src.dist == Infinity <==> src !in q)
      modifies src`dist, src`outPath
      ensures Now() == Relabel(old(Now()), src, newdist, l)
      ensures (forall n :: n in q ==> n in Now().dist) && r == Requeued(Now().dist, q, src)
    {
      hide Place, Without, InsertAt;
      WithoutSubset(q, src);
      r := q;
      if src.dist != Infinity {
        r := Without(r, src);
      } else {
        WithoutAbsent(q, src);
      }
      SetLabel(src, newdist, l);
      var k := FirstFarther(r, newdist);
      r := InsertAt(r, k, src);
    }

    method SetLabel(n: Node, d: Cost, l: Link)
      requires n in nodes
      modifies n`dist, n`outPath
      ensures n.dist == d && Now() == Relabel(old(Now()), n, d, l)
    {
      n.dist := d;
      n.outPath := l;
    }

    /** One link of the node taken last; refused if it may be used and its weight is not positive. */
    method Relax(t: Node, v: Node, i: nat, q: seq<Node>, ghost done: seq<Node>) returns (r: seq<Node>, ok: bool)
      requires Valid() && t in nodes && v in nodes && i < |v.inLinks| && v.weight.AtLeastZero()
      requires done != [] && done[|done| - 1] == v && t in done && v.dist.Finite?
      requires Searching(Weighted(t), t, Now(), done, q, v.dist.v, i)
      modifies nodes`dist, nodes`outPath
      ensures v.dist == old(v.dist)
      ensures v.inLinks[i] in links && (ok <==> FitLink(v.inLinks[i]))
      ensures Searching(Weighted(t), t, Now(), done, r, v.dist.v, if ok then i + 1 else i)
    {
      hide Valid, Weighted, Searching, Offers, Relaxed, OfferedBy, Requeued;
      ghost var g, lab, low := Weighted(t), Now(), v.dist.v;
      r, ok := q, true;
      LinkInto(t, v, i);
      var l := v.inLinks[i];
      var src := l.srcNode;
      if !l.enabled || !src.enabled {
        LinkOffersNothing(t, v, i);
        Skipped(g, t, lab, done, q, i, low);
        return;
      }
      if !l.weight.Positive() {
        ok := false;
        return;
      }
      var newdist := v.dist.Plus(l.weight);
      if v != t { newdist := newdist.Plus(v.weight); }
      Offered(t, v, l.weight);
      if newdist != Infinity && src.dist.Exceeds(newdist) {
        LinkOffers(t, v, i, newdist.v);
        ImprovedIsOpen(g, t, lab, done, q, i, src, newdist.v, low);
        Improved(g, t, lab, done, q, i, src, newdist.v, low, l);
        SearchQueue(g, t, lab, done, q, low, i);
        r := Improve(src, newdist, l, q);
      } else {
        LinkOffersNothing(t, v, i);
        Skipped(g, t, lab, done, q, i, low);
      }
    }

    lemma Offered(t: Node, v: Node, w: Cost)
      ensures OfferedBy(t, v, w) == if v == t then v.dist.Plus(w) else v.dist.Plus(w).Plus(v.weight)
    {
    }

    /** All links of the node taken last. */
    method RelaxAll(t: Node, v: Node, q: seq<Node>, ghost done: seq<Node>)
        returns (r: seq<Node>, ok: bool, ghost k: nat)
      requires Valid() && t in nodes && v in nodes && v.dist.Finite? && v.weight.AtLeastZero()
      requires done != [] && done[|done| - 1] == v && t in done
      requires Searching(Weighted(t), t, Now(), done, q, v.dist.v, 0)
      modifies nodes`dist, nodes`outPath
      ensures v.dist == old(v.dist) && (ok <==> Fit(v)) && (ok ==> k == |v.inLinks|)
      ensures Searching(Weighted(t), t, Now(), done, r, v.dist.v, k)
    {
      hide *;
      r, ok, k := q, true, 0;
      var i := 0;
      while ok && i < |v.inLinks|
        invariant i <= |v.inLinks|
        invariant v.dist == old(v.dist)
        invariant ok ==> k == i
        invariant ok ==> forall j :: 0 <= j < i ==> FitLink(v.inLinks[j])
        invariant !ok ==> i > 0 && v.inLinks[i - 1] in links && !FitLink(v.inLinks[i - 1])
        invariant Searching(Weighted(t), t, Now(), done, r, v.dist.v, k)
        modifies nodes`dist, nodes`outPath
      {
        r, ok := Relax(t, v, i, r, done);
        i := i + 1;
        if ok { k := i; }
      }
      FitIs(v);
    }

    lemma FitIs(v: Node)
      ensures Fit(v) <==> v.weight.AtLeastZero() && forall l :: l in v.inLinks && l in links ==> FitLink(l)
    {
    }

    /**
     * Distances and first links of cheapest paths to the target; refused without a target, or when
     * a node or a usable link from which the target can be reached has a weight it must not have.
     */
    method CalculateWeightedSingleShortestPathsTo(t: Node?) returns (ok: bool)
      requires Valid() && (t != null ==> t in nodes)
      modifies this`target, nodes`dist, nodes`outPath
      ensures ok <==> t != null && Answerable(t)
      ensures t != null ==>
                (ok <==> forall n, p :: n in nodes && Walk(n, t, p) && Passable(t, p) ==> WeighedRightly(n))
      ensures ok ==> target == t && Labelled(Weighted(t), Now())
      ensures ok ==> forall n, p :: n in nodes && Path(Weighted(t), n, t, p) ==> NoCheaper(Weighted(t), p, n.dist)
      ensures ok ==> forall n :: n in nodes && n.dist.Finite? ==>
              exists p :: Route(Weighted(t), t, Now(), n, p) && CostIs(Weighted(t), p, n.dist)
      ensures ok ==> forall n, p :: n in nodes && Walk(n, t, p) && Passable(t, p) ==>
              n.dist.Finite? && n.dist.v <= Total(t, p)
      ensures ok ==> forall n :: n in nodes && n.dist.Finite? ==>
              exists p :: Walk(n, t, p) && Passable(t, p) && n.dist.v == Total(t, p) && StartsBy(n, t, p)
      ensures t == null ==> unchanged(this, nodes)
    {
      hide *;
      ok := t != null;
      if !ok { return; }
      target := t;
      ok := Search(t);
      AnswerableMeans(t);
      if ok { WeightedMeans(t); }
    }

    method Search(t: Node) returns (ok: bool)
      requires Valid() && t in nodes
      modifies nodes`dist, nodes`outPath
      ensures ok <==> Answerable(t)
      ensures ok ==> Labelled(Weighted(t), Now())
      ensures ok ==> forall n, p :: n in nodes && Path(Weighted(t), n, t, p) ==> NoCheaper(Weighted(t), p, n.dist)
      ensures ok ==> forall n :: n in nodes && n.dist.Finite? ==>
              exists p :: Route(Weighted(t), t, Now(), n, p) && CostIs(Weighted(t), p, n.dist)
    {
      hide *;
      WeightedSound(t);
      WeightedNodes(t);
      Unlabel(t);
      UnlabelledNow(Weighted(t), t);
      SearchStarts(Weighted(t), t);
      var q: seq<Node> := [t];
      ghost var done: seq<Node> := [];
      ghost var low: real, k: nat := 0.0, 0;
      ok := true;
      HandledNone(Weighted(t));
      NoneFit();
      while ok && q != []
        invariant ok ==>
                    Searching(Weighted(t), t, Now(), done, q, low, k) && Handled(Weighted(t), done, k) && AllFit(done)
        invariant if done == [] then q == [t] else t in done
        invariant !ok ==> !Answerable(t)
        decreases |Weighted(t).nodes| - |done|, ok
      {
        q, ok, done, low, k := TakeNext(t, q, done, low, k);
      }
      WeightedNodes(t);
      if ok {
        AllAnswered(t, done, low, k);
        SearchDone(Weighted(t), t, done, low, k);
      }
    }

    lemma NoneFit()
      ensures AllFit([])
    {
    }

    lemma OneMoreFit(s: seq<Node>, n: Node)
      requires AllFit(s) && Fit(n)
      ensures AllFit(s + [n])
    {
    }

    lemma SearchDone(g: Graph, t: Node, done: seq<Node>, low: real, k: nat)
      requires g.nodes == set n | n in nodes
      requires Searching(g, t, Now(), done, [], low, k) && Handled(g, done, k)
      ensures Labelled(g, Now())
      ensures forall n, p :: n in nodes && Path(g, n, t, p) ==> NoCheaper(g, p, n.dist)
      ensures forall n :: n in nodes && n.dist.Finite? ==> exists p :: Route(g, t, Now(), n, p) && CostIs(g, p, n.dist)
    {
      hide *;
      var lab := Now();
      WeightedNodes(t);
      SearchQueue(g, t, lab, done, [], low, k);
      SearchEnds(g, t, lab, done, low, k);
      forall n | n in nodes && n.dist.Finite? ensures exists p :: Route(g, t, lab, n, p) && CostIs(g, p, n.dist) {
        assert n in g.nodes && lab.dist[n] == n.dist;
        var p :| Route(g, t, lab, n, p) && CostIs(g, p, lab.dist[n]);
      }
      forall n, p | n in nodes && Path(g, n, t, p) ensures NoCheaper(g, p, n.dist) {
        assert n in g.nodes && lab.dist[n] == n.dist;
      }
    }

    /** Takes the nearest queued node and handles the links into it; refused if the node or such a link is unfit. */
    method TakeNext(t: Node, q: seq<Node>, ghost done: seq<Node>, ghost low: real, ghost k: nat)
      returns (r: seq<Node>, ok: bool, ghost done': seq<Node>, ghost low': real, ghost k': nat)
      requires Valid() && t in nodes && q != []
      requires Searching(Weighted(t), t, Now(), done, q, low, k) && Handled(Weighted(t), done, k) && AllFit(done)
      requires if done == [] then q == [t] else t in done
      modifies nodes`dist, nodes`outPath
      ensures ok ==>
                Searching(Weighted(t), t, Now(), done', r, low', k') && Handled(Weighted(t), done', k') && AllFit(done')
      ensures t in done' && |done| < |done'| <= |Weighted(t).nodes|
      ensures !ok ==> !Answerable(t)
    {
      hide *;
      var v := q[0];
      Taken(Weighted(t), t, Now(), done, q, k, low);
      WeightedNodes(t);
      r := q[1..];
      done' := done + [v];
      TakenFits(Weighted(t), t, Now(), done', r, v.dist.v, 0);
      low', k' := v.dist.v, 0;
      ok := v.weight.AtLeastZero();
      FitIs(v);
      if ok { r, ok, k' := RelaxAll(t, v, r, done'); }
      if ok {
        HandledAll(Weighted(t), done', k');
        OneMoreFit(done, v);
      } else {
        Unfit(t, done', r, low', k');
      }
    }

    lemma WeightedNodes(t: Node)
      ensures Weighted(t).nodes == (set n | n in nodes)
      ensures Weighted(t).ins == map n | n in nodes :: n.inLinks
      ensures Now().dist == map n | n in nodes :: n.dist
    {
    }

    lemma UnlabelledNow(g: Graph, t: Node)
      requires t in nodes && g.nodes == set n | n in nodes
      requires forall n :: n in nodes ==> n.dist == (if n == t then Finite(0.0) else Infinity) && n.outPath == null
      ensures Now() == Unlabelled(g, t)
    {
    }

    // ----- what the searches mean for nodes and links -----

    /** Enabled links, one behind the other, from n to t; each leaves an enabled node. */
    ghost predicate Walk(n: Node?, t: Node, p: seq<Link>)
      reads this`nodes, this`links, nodes`enabled, links
      decreases p
    {
      if p == [] then n == t
      else
        && p[0] in links && p[0].enabled && p[0].srcNode == n && n in nodes && n.enabled
        && Walk(p[0].destNode, t, p[1..])
    }

    /** What a node on the way costs: its weight, unless it is the target. */
    function Transit(n: Node?, t: Node): Cost
      reads n
    {
      if n == null || n == t then Finite(0.0) else n.weight
    }

    /** No infinite weight lies on the way. */
    ghost predicate Passable(t: Node, p: seq<Link>)
      reads p, set l | l in p && l.destNode != null :: l.destNode
    {
      forall l :: l in p ==> l.weight.Finite? && Transit(l.destNode, t).Finite?
    }

    /** The weights of the links, and those of the nodes passed through. */
    ghost function Total(t: Node, p: seq<Link>): real
      requires Passable(t, p)
      reads p, set l | l in p && l.destNode != null :: l.destNode
      decreases p
    {
      if p == [] then 0.0
      else
        assert forall l :: l in p[1..] ==> l in p;
        p[0].weight.v + Transit(p[0].destNode, t).v + Total(t, p[1..])
    }

    /** An enabled link of the graph is what the two search graphs take it for. */
    lemma LinkMeans(l: Link, t: Node)
      requires Valid() && l in links
      ensures l.srcNode in nodes && l.destNode in nodes && l in l.destNode.inLinks
      ensures l in Weighted(t).edge && l in Hops().edge
      ensures var e := Weighted(t).edge[l];
              && e.src == l.srcNode && e.dest == l.destNode && e.open == (l.enabled && l.srcNode.enabled)
              && e.cost.Finite? == (l.weight.Finite? && Transit(l.destNode, t).Finite?)
              && (e.cost.Finite? ==> e.cost.v == l.weight.v + Transit(l.destNode, t).v)
      ensures Hops().edge[l] == Edge(l.srcNode, l.destNode, Finite(1.0), l.enabled && l.srcNode.enabled)
    {
      hide Side, Indexed;
      LinkEnds(l);
    }

    lemma EdgesAreLinks(t: Node)
      ensures (forall l :: l in Weighted(t).edge ==> l in links) && forall l :: l in Hops().edge ==> l in links
    {
    }

    lemma InsAre(t: Node)
      ensures Weighted(t).ins == Hops().ins == map n | n in nodes :: n.inLinks
    {
    }

    /** The paths the searches speak of are walks over enabled links and nodes. */
    lemma {:induction false} PathsAreWalks(n: Node, t: Node, p: seq<Link>)
      requires Valid() && n in nodes
      ensures Path(Weighted(t), n, t, p) <==> Walk(n, t, p)
      ensures Path(Hops(), n, t, p) <==> Walk(n, t, p)
      decreases p
    {
      if p != [] {
        hide Valid, Weighted, Hops;
        EdgesAreLinks(t);
        InsAre(t);
        if p[0] in links {
          LinkMeans(p[0], t);
          PathsAreWalks(p[0].destNode, t, p[1..]);
        }
      }
    }

    /** What a walk costs in the weighted search, and in the breadth-first one. */
    lemma {:induction false} CostsAreTotals(n: Node, t: Node, p: seq<Link>)
      requires Valid() && n in nodes && Walk(n, t, p)
      ensures (forall l :: l in p ==> l in Weighted(t).edge) && forall l :: l in p ==> l in Hops().edge
      ensures PathCost(Weighted(t), p) == if Passable(t, p) then Finite(Total(t, p)) else Infinity
      ensures PathCost(Hops(), p) == Finite(|p| as real)
      decreases p
    {
      if p != [] {
        hide Valid, Weighted, Hops;
        LinkMeans(p[0], t);
        CostsAreTotals(p[0].destNode, t, p[1..]);
        assert forall l :: l in p <==> l == p[0] || l in p[1..];
      }
    }

    /** The first link of a way, if it has one, is the one the node is labelled with. */
    ghost predicate StartsBy(n: Node, t: Node, p: seq<Link>)
      reads n
    {
      if p == [] then n == t else n != t && n.outPath == p[0]
    }

    lemma {:induction false} RouteStarts(g: Graph, t: Node, lab: Labels, n: Node, p: seq<Link>)
      requires Labelled(g, lab) && Route(g, t, lab, n, p)
      ensures n in g.nodes && if p == [] then n == t else n != t && lab.out[n] == p[0]
    {
    }

    /** The result of the weighted search, in terms of nodes and links. */
    lemma WeightedMeans(t: Node)
      requires Valid() && t in nodes && Labelled(Weighted(t), Now())
      requires forall n, p :: n in nodes && Path(Weighted(t), n, t, p) ==> NoCheaper(Weighted(t), p, n.dist)
      requires forall n :: n in nodes && n.dist.Finite? ==>
               exists p :: Route(Weighted(t), t, Now(), n, p) && CostIs(Weighted(t), p, n.dist)
      ensures forall n, p :: n in nodes && Walk(n, t, p) && Passable(t, p) ==> n.dist.Finite? && n.dist.v <= Total(t, p)
      ensures forall n :: n in nodes && n.dist.Finite? ==>
              exists p :: Walk(n, t, p) && Passable(t, p) && n.dist.v == Total(t, p) && StartsBy(n, t, p)
    {
      hide Valid, Weighted, Walk, Passable, Total, Path, Route, PathCost;
      forall n, p | n in nodes && Walk(n, t, p) && Passable(t, p) ensures n.dist.Finite? && n.dist.v <= Total(t, p) {
        PathsAreWalks(n, t, p);
        CostsAreTotals(n, t, p);
      }
      forall n | n in nodes && n.dist.Finite?
        ensures exists p :: Walk(n, t, p) && Passable(t, p) && n.dist.v == Total(t, p) && StartsBy(n, t, p)
      {
        var p :| Route(Weighted(t), t, Now(), n, p) && CostIs(Weighted(t), p, n.dist);
        RouteIsPath(Weighted(t), t, Now(), n, p);
        RouteStarts(Weighted(t), t, Now(), n, p);
        PathsAreWalks(n, t, p);
        CostsAreTotals(n, t, p);
        assert Now().out[n] == n.outPath;
      }
    }

    /** That of the breadth-first search. */
    lemma HopsMean(t: Node)
      requires Valid() && t in nodes && Labelled(Hops(), Now())
      requires forall n, p :: n in nodes && Path(Hops(), n, t, p) ==> NoCheaper(Hops(), p, n.dist)
      requires forall n :: n in nodes && n.dist.Finite? ==>
               exists p :: Route(Hops(), t, Now(), n, p) && CostIs(Hops(), p, n.dist)
      ensures forall n, p :: n in nodes && Walk(n, t, p) ==> n.dist.Finite? && n.dist.v <= |p| as real
      ensures forall n :: n in nodes && n.dist.Finite? ==>
              exists p :: Walk(n, t, p) && n.dist.v == |p| as real && StartsBy(n, t, p)
    {
      hide Valid, Hops, Walk, Passable, Total, Path, Route, PathCost;
      forall n, p | n in nodes && Walk(n, t, p) ensures n.dist.Finite? && n.dist.v <= |p| as real {
        PathsAreWalks(n, t, p);
        CostsAreTotals(n, t, p);
      }
      forall n | n in nodes && n.dist.Finite?
        ensures exists p :: Walk(n, t, p) && n.dist.v == |p| as real && StartsBy(n, t, p)
      {
        var p :| Route(Hops(), t, Now(), n, p) && CostIs(Hops(), p, n.dist);
        RouteIsPath(Hops(), t, Now(), n, p);
        RouteStarts(Hops(), t, Now(), n, p);
        PathsAreWalks(n, t, p);
        CostsAreTotals(n, t, p);
        assert Now().out[n] == n.outPath;
      }
    }

    /** A node that is not weighed negatively, and the enabled links from enabled nodes into it have positive weight. */
    ghost predicate WeighedRightly(n: Node)
      reads this`nodes, nodes`enabled, n, n.inLinks
    {
      && (n.weight.Finite? ==> n.weight.v >= 0.0)
      && forall l :: l in n.inLinks && l.enabled && l.srcNode in nodes && l.srcNode.enabled ==>
           (l.weight.Finite? ==> l.weight.v > 0.0)
    }

    /** When the weighted search can answer: that holds of every node that a passable walk leads from to the target. */
    lemma AnswerableMeans(t: Node)
      requires Valid() && t in nodes
      ensures Answerable(t) <==> forall n, p :: n in nodes && Walk(n, t, p) && Passable(t, p) ==> WeighedRightly(n)
    {
      hide Valid, Weighted, Walk, Passable, Total, Path, PathCost, Fit, WeighedRightly;
      if Answerable(t) {
        forall n, p | n in nodes && Walk(n, t, p) && Passable(t, p) ensures WeighedRightly(n) {
          PathsAreWalks(n, t, p);
          CostsAreTotals(n, t, p);
          FitMeans(n);
        }
      } else {
        var n, p :| n in nodes && Path(Weighted(t), n, t, p) && Affordable(Weighted(t), p) && !Fit(n);
        PathsAreWalks(n, t, p);
        CostsAreTotals(n, t, p);
        FitMeans(n);
      }
    }

    lemma FitMeans(n: Node)
      requires Valid() && n in nodes
      ensures Fit(n) <==> WeighedRightly(n)
    {
      hide Side, Indexed;
      assert n in Ins();
      forall l | l in n.inLinks ensures l in links { SideHas(Ins(), Targets(), n, l); }
    }

    // ----- the breadth-first search -----

    /** The graph in which every link costs one. */
    ghost function Hops(): Graph
      reads this`nodes, this`links, nodes`inLinks, nodes`enabled, links
    {
      Graph(
        set n | n in nodes,
        map n | n in nodes :: n.inLinks,
        map l | l in links && l.srcNode in nodes && l.destNode in nodes ::
          Edge(l.srcNode, l.destNode, Finite(1.0), l.enabled && l.srcNode.enabled))
    }

    lemma HopsNodes()
      ensures Hops().nodes == (set n | n in nodes)
      ensures Hops().ins == map n | n in nodes :: n.inLinks
      ensures Valid() ==> Sound(Hops())
    {
    }

    lemma HopInto(v: Node, i: nat)
      requires Valid() && v in nodes && i < |v.inLinks|
      ensures var l := v.inLinks[i];
              && l in links && l.srcNode in nodes && l.srcNode in Hops().nodes && l in Hops().edge && v in Hops().ins
                && Hops().ins[v] == v.inLinks
              && Hops().edge[l] == Edge(l.srcNode, v, Finite(1.0), l.enabled && l.srcNode.enabled)
    {
      hide Valid;
      InLink(v, i);
    }

    /** The nodes queued are at most one link farther than the one taken last. */
    ghost predicate SearchingHops(t: Node, done: seq<Node>, q: seq<Node>, low: real, k: nat)
      reads this`nodes, this`links, nodes`inLinks, nodes`enabled, links, nodes`dist, nodes`outPath
    {
      Searching(Hops(), t, Now(), done, q, low, k) && Within(Now().dist, q, low + 1.0)
    }

    lemma HopOffersNothing(t: Node, v: Node, i: nat, q: seq<Node>, done: seq<Node>)
      requires Valid() && v in nodes && i < |v.inLinks| && v.dist.Finite? && SearchingHops(t, done, q, v.dist.v, i)
      requires var l := v.inLinks[i]; l.srcNode in nodes && l.enabled && l.srcNode.enabled ==> l.srcNode.dist.Finite?
      ensures v in Hops().ins && Hops().ins[v] == v.inLinks && Relaxed(Hops(), Now(), v.inLinks[i])
    {
      hide Valid, Searching, Hops, Sound;
      HopInto(v, i);
      HopsNodes();
      var l := v.inLinks[i];
      if l.enabled && l.srcNode.enabled {
        SearchQueue(Hops(), t, Now(), done, q, v.dist.v, i);
        AlreadyNear(Hops(), t, Now(), done, q, v.dist.v, i, l);
      }
    }

    method RelaxHop(t: Node, v: Node, i: nat, q: seq<Node>, ghost done: seq<Node>) returns (r: seq<Node>)
      requires Valid() && t in nodes && v in nodes && i < |v.inLinks|
      requires done != [] && done[|done| - 1] == v && t in done && v.dist.Finite?
      requires SearchingHops(t, done, q, v.dist.v, i)
      modifies nodes`dist, nodes`outPath
      ensures v.dist == old(v.dist)
      ensures SearchingHops(t, done, r, v.dist.v, i + 1)
    {
      hide Valid, Hops, Searching, Relaxed, Requeued, Within, Offers;
      ghost var g, lab, low := Hops(), Now(), v.dist.v;
      r := q;
      HopInto(v, i);
      HopsNodes();
      var l := v.inLinks[i];
      if !l.enabled {
        HopOffersNothing(t, v, i, q, done);
        Skipped(g, t, lab, done, q, i, low);
        return;
      }
      var w := l.srcNode;
      if !w.enabled {
        HopOffersNothing(t, v, i, q, done);
        Skipped(g, t, lab, done, q, i, low);
        return;
      }
      if w.dist == Infinity {
        HopOffers(v, i);
        ImprovedIsOpen(g, t, lab, done, q, i, w, low + 1.0, low);
        Improved(g, t, lab, done, q, i, w, low + 1.0, low, l);
        PlacedLast(lab.dist, q, w, low + 1.0);
        SetLabel(w, v.dist.Plus(Finite(1.0)), l);
        r := r + [w];
      } else {
        HopOffersNothing(t, v, i, q, done);
        Skipped(g, t, lab, done, q, i, low);
      }
    }

    lemma HopOffers(v: Node, i: nat)
      requires Valid() && v in nodes && i < |v.inLinks| && v.dist.Finite?
      requires v.inLinks[i].enabled && v.inLinks[i].srcNode in nodes && v.inLinks[i].srcNode.enabled
      ensures Offers(Hops(), Now(), v.inLinks[i], v.inLinks[i].srcNode, v.dist.v + 1.0)
    {
      hide Valid;
      HopInto(v, i);
    }

    method RelaxHops(t: Node, v: Node, q: seq<Node>, ghost done: seq<Node>) returns (r: seq<Node>)
      requires Valid() && t in nodes && v in nodes && v.dist.Finite?
      requires done != [] && done[|done| - 1] == v && t in done
      requires SearchingHops(t, done, q, v.dist.v, 0)
      modifies nodes`dist, nodes`outPath
      ensures v.dist == old(v.dist)
      ensures SearchingHops(t, done, r, v.dist.v, |v.inLinks|)
    {
      hide *;
      r := q;
      var i := 0;
      while i < |v.inLinks|
        invariant i <= |v.inLinks|
        invariant v.dist == old(v.dist)
        invariant SearchingHops(t, done, r, v.dist.v, i)
        modifies nodes`dist, nodes`outPath
      {
        r := RelaxHop(t, v, i, r, done);
        i := i + 1;
      }
    }

    method CalculateUnweightedSingleShortestPathsTo(t: Node?) returns (ok: bool)
      requires Valid() && (t != null ==> t in nodes)
      modifies this`target, nodes`dist, nodes`outPath
      ensures ok <==> t != null
      ensures ok ==> target == t && Labelled(Hops(), Now())
      ensures ok ==> forall n, p :: n in nodes && Path(Hops(), n, t, p) ==> NoCheaper(Hops(), p, n.dist)
      ensures ok ==> forall n :: n in nodes && n.dist.Finite? ==>
              exists p :: Route(Hops(), t, Now(), n, p) && CostIs(Hops(), p, n.dist)
      ensures ok ==> forall n, p :: n in nodes && Walk(n, t, p) ==> n.dist.Finite? && n.dist.v <= |p| as real
      ensures ok ==> forall n :: n in nodes && n.dist.Finite? ==>
              exists p :: Walk(n, t, p) && n.dist.v == |p| as real && StartsBy(n, t, p)
      ensures !ok ==> unchanged(this, nodes)
    {
      hide *;
      ok := t != null;
      if !ok { return; }
      target := t;
      SearchHops(t);
      HopsMean(t);
    }

    method SearchHops(t: Node)
      requires Valid() && t in nodes
      modifies nodes`dist, nodes`outPath
      ensures Labelled(Hops(), Now())
      ensures forall n, p :: n in nodes && Path(Hops(), n, t, p) ==> NoCheaper(Hops(), p, n.dist)
      ensures forall n :: n in nodes && n.dist.Finite? ==>
              exists p :: Route(Hops(), t, Now(), n, p) && CostIs(Hops(), p, n.dist)
    {
      hide *;
      HopsNodes();
      Unlabel(t);
      UnlabelledNow(Hops(), t);
      HopsStart(t);
      var q: seq<Node> := [t];
      ghost var done: seq<Node> := [];
      ghost var low: real, k: nat := 0.0, 0;
      HandledNone(Hops());
      while q != []
        invariant SearchingHops(t, done, q, low, k) && Handled(Hops(), done, k)
        invariant if done == [] then q == [t] else t in done
        decreases |Hops().nodes| - |done|
      {
        q, done, low, k := TakeNextHop(t, q, done, low, k);
      }
      HopsNodes();
      HopsSearch(t, done, q, low, k);
      SearchDone(Hops(), t, done, low, k);
    }

    lemma HopsSearch(t: Node, done: seq<Node>, q: seq<Node>, low: real, k: nat)
      requires SearchingHops(t, done, q, low, k)
      ensures Searching(Hops(), t, Now(), done, q, low, k)
    {
    }

    lemma HopsStart(t: Node)
      requires Valid() && t in nodes && Now() == Unlabelled(Hops(), t)
      ensures SearchingHops(t, [], [t], 0.0, 0)
    {
      hide Valid, Hops, Searching, Sound;
      HopsNodes();
      SearchStarts(Hops(), t);
    }

    method TakeNextHop(t: Node, q: seq<Node>, ghost done: seq<Node>, ghost low: real, ghost k: nat)
      returns (r: seq<Node>, ghost done': seq<Node>, ghost low': real, ghost k': nat)
      requires Valid() && t in nodes && q != []
      requires SearchingHops(t, done, q, low, k) && Handled(Hops(), done, k)
      requires if done == [] then q == [t] else t in done
      modifies nodes`dist, nodes`outPath
      ensures SearchingHops(t, done', r, low', k') && Handled(Hops(), done', k')
      ensures t in done' && |done| < |done'| <= |Hops().nodes|
    {
      hide *;
      var v := q[0];
      HopsNodes();
      HopsSearch(t, done, q, low, k);
      Taken(Hops(), t, Now(), done, q, k, low);
      WeightedNodes(t);
      HopTaken(t, done, q, low, k);
      r := q[1..];
      done' := done + [v];
      TakenFits(Hops(), t, Now(), done', r, v.dist.v, 0);
      r := RelaxHops(t, v, r, done');
      low', k' := v.dist.v, |v.inLinks|;
      HandledAll(Hops(), done', k');
    }

    lemma HopTaken(t: Node, done: seq<Node>, q: seq<Node>, low: real, k: nat)
      requires SearchingHops(t, done, q, low, k) && q != [] && q[0] in nodes && q[0].dist.Finite? && low <= q[0].dist.v
      requires Searching(Hops(), t, Now(), done + [q[0]], q[1..], q[0].dist.v, 0)
      ensures SearchingHops(t, done + [q[0]], q[1..], q[0].dist.v, 0)
    {
      hide Searching, Hops;
    }
  }
}
