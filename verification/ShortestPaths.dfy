/** The label-setting search of Topology.cc, seen as labels on a graph whose links have costs. */
module ShortestPaths {
  import opened TopologyNodes

  /** A link as the search uses it: its ends, what crossing it costs, and whether it may be crossed at all. */
  datatype Edge = Edge(src: Node, dest: Node, cost: Cost, open: bool)

  /** The nodes, the links into each of them, and what each link is. */
  datatype Graph = Graph(nodes: set<Node>, ins: map<Node, seq<Link>>, edge: map<Link, Edge>)

  ghost predicate Sound(g: Graph) {
    && g.ins.Keys == g.nodes
    && (forall n, i :: n in g.nodes && 0 <= i < |g.ins[n]| ==> Enters(g, g.ins[n][i], n))
  }

  ghost predicate Enters(g: Graph, l: Link, n: Node) {
    l in g.edge && g.edge[l].dest == n && g.edge[l].src in g.nodes
  }

  // ----- paths -----

  /** A sequence of open links leading from n to t. */
  ghost predicate Path(g: Graph, n: Node, t: Node, older p: seq<Link>)
    decreases p
  {
    if p == [] then n == t
    else
      && p[0] in g.edge && g.edge[p[0]].open && g.edge[p[0]].src == n
      && g.edge[p[0]].dest in g.ins && p[0] in g.ins[g.edge[p[0]].dest]
      && Path(g, g.edge[p[0]].dest, t, p[1..])
  }

  ghost function PathCost(g: Graph, p: seq<Link>): Cost
    requires forall l :: l in p ==> l in g.edge
    decreases p
  {
    if p == [] then Finite(0.0) else g.edge[p[0]].cost.Plus(PathCost(g, p[1..]))
  }

  lemma {:induction false} PathKnown(g: Graph, n: Node, t: Node, p: seq<Link>)
    requires Path(g, n, t, p)
    ensures forall l :: l in p ==> l in g.edge
    decreases p
  {
    if p != [] { PathKnown(g, g.edge[p[0]].dest, t, p[1..]); }
  }

  /** What the search leaves on the nodes: their distance and the link to leave by. */
  datatype Labels = Labels(dist: map<Node, Cost>, out: map<Node, Link?>)

  ghost predicate Labelled(g: Graph, lab: Labels) {
    lab.dist.Keys == g.nodes && lab.out.Keys == g.nodes
  }

  ghost predicate CostIs(g: Graph, p: seq<Link>, d: Cost) {
    (forall l :: l in p ==> l in g.edge) && PathCost(g, p) == d
  }

  /** The path can be used at a finite cost. */
  ghost predicate Affordable(g: Graph, p: seq<Link>) {
    (forall l :: l in p ==> l in g.edge) && PathCost(g, p).Finite?
  }

  ghost predicate NoCheaper(g: Graph, p: seq<Link>, d: Cost) {
    (forall l :: l in p ==> l in g.edge) && !d.Exceeds(PathCost(g, p))
  }

  /** A path that leaves every node by its label, to a node strictly nearer to the target. */
  ghost predicate Route(g: Graph, t: Node, lab: Labels, n: Node, p: seq<Link>)
    requires Labelled(g, lab)
    decreases p
  {
    && n in g.nodes
    && if p == [] then n == t
       else
         && n != t && lab.out[n] == p[0]
         && p[0] in g.edge && g.edge[p[0]].open && g.edge[p[0]].src == n
         && g.edge[p[0]].dest in g.ins && p[0] in g.ins[g.edge[p[0]].dest]
         && g.edge[p[0]].dest in g.nodes && lab.dist[n].Exceeds(lab.dist[g.edge[p[0]].dest])
         && Route(g, t, lab, g.edge[p[0]].dest, p[1..])
  }

  lemma {:induction false} RouteIsPath(g: Graph, t: Node, lab: Labels, n: Node, p: seq<Link>)
    requires Labelled(g, lab) && Route(g, t, lab, n, p)
    ensures Path(g, n, t, p)
    decreases p
  {
    if p != [] { RouteIsPath(g, t, lab, g.edge[p[0]].dest, p[1..]); }
  }

  // ----- the state of the search -----

  predicate NoRepeats<T(==)>(s: seq<T>) {
    forall i, j :: 0 <= i < j < |s| ==> s[i] != s[j]
  }

  /** The nodes taken from the queue so far, in that order, and the queue: each node is in one of them at most once. */
  ghost predicate Members(g: Graph, dist: map<Node, Cost>, done: seq<Node>, q: seq<Node>)
    requires dist.Keys == g.nodes
  {
    && NoRepeats(done) && NoRepeats(q)
    && (forall n :: n in done ==> n in g.nodes && n !in q)
    && (forall n :: n in q ==> n in g.nodes)
    && (forall n :: n in g.nodes ==> (dist[n].Finite? <==> n in done || n in q))
  }

  /** The distances along the queue do not fall. */
  ghost predicate Rising(dist: map<Node, Cost>, q: seq<Node>) {
    && (forall n :: n in q ==> n in dist && dist[n].Finite?)
    && forall i, j :: 0 <= i < j < |q| ==> dist[q[i]].v <= dist[q[j]].v
  }

  ghost predicate Within(dist: map<Node, Cost>, done: seq<Node>, d: real) {
    forall n :: n in done ==> n in dist && dist[n].Finite? && dist[n].v <= d
  }

  ghost predicate Beyond(dist: map<Node, Cost>, q: seq<Node>, d: real) {
    forall n :: n in q ==> n in dist && dist[n].Finite? && d <= dist[n].v
  }

  /** The label of a node leads over an open link to a node taken before, at exactly the recorded cost. */
  ghost predicate Guided(g: Graph, lab: Labels, before: seq<Node>, n: Node)
    requires Labelled(g, lab) && n in g.nodes
  {
    && lab.out[n] != null && lab.out[n] in g.edge
    && var e := g.edge[lab.out[n]];
       && e.src == n && e.open && e.dest in g.nodes && e.dest in g.ins && lab.out[n] in g.ins[e.dest]
       && e.dest in before
       && e.cost.Finite? && e.cost.v > 0.0
       && lab.dist[e.dest].Finite? && lab.dist[n] == Finite(lab.dist[e.dest].v + e.cost.v)
  }

  ghost predicate Guides(g: Graph, t: Node, lab: Labels, done: seq<Node>, q: seq<Node>)
    requires Labelled(g, lab)
  {
    && t in g.nodes && lab.dist[t] == Finite(0.0) && lab.out[t] == null
    && (forall n :: n in q && n in g.nodes && n != t ==> Guided(g, lab, done, n))
    && (forall i :: 0 <= i < |done| && done[i] in g.nodes && done[i] != t ==> Guided(g, lab, done[..i], done[i]))
    && (forall n :: n in g.nodes && lab.dist[n].Infinity? ==> lab.out[n] == null)
  }

  /** A link offers its source no shorter way. */
  ghost predicate Relaxed(g: Graph, lab: Labels, l: Link)
    requires Labelled(g, lab)
  {
    l in g.edge && g.edge[l].src in g.nodes && g.edge[l].dest in g.nodes && g.edge[l].open
    ==> !lab.dist[g.edge[l].src].Exceeds(lab.dist[g.edge[l].dest].Plus(g.edge[l].cost))
  }

  /** All links into the nodes taken are relaxed, of the last one the first k. */
  ghost predicate Settled(g: Graph, lab: Labels, done: seq<Node>, k: nat)
    requires Labelled(g, lab)
  {
    forall i, j :: 0 <= i < |done| && done[i] in g.ins && 0 <= j < |g.ins[done[i]]| && (i == |done| - 1 ==> j < k) ==>
      Relaxed(g, lab, g.ins[done[i]][j])
  }

  /** The state of the search while it handles the node taken last: d is its distance, k its links handled. */
  ghost predicate Searching(g: Graph, t: Node, lab: Labels, done: seq<Node>, q: seq<Node>, d: real, k: nat) {
    && Sound(g) && Labelled(g, lab)
    && Members(g, lab.dist, done, q) && Rising(lab.dist, q) && Within(lab.dist, done, d) && Beyond(lab.dist, q, d)
    && Guides(g, t, lab, done, q) && Settled(g, lab, done, k)
  }

  // ----- the queue -----

  /** std::list::remove. */
  function Without<T(==)>(q: seq<T>, n: T): seq<T> {
    if q == [] then [] else if q[0] == n then Without(q[1..], n) else [q[0]] + Without(q[1..], n)
  }

  /** The place the search looks for: before the first node that is farther than d. */
  function Place(dist: map<Node, Cost>, q: seq<Node>, d: Cost): (k: nat)
    requires forall n :: n in q ==> n in dist
    ensures k <= |q|
    ensures forall i :: 0 <= i < k ==> !dist[q[i]].Exceeds(d)
    ensures k < |q| ==> dist[q[k]].Exceeds(d)
  {
    if q == [] || dist[q[0]].Exceeds(d) then 0 else 1 + Place(dist, q[1..], d)
  }

  function InsertAt<T>(q: seq<T>, k: nat, n: T): seq<T>
    requires k <= |q|
  {
    q[..k] + [n] + q[k..]
  }

  lemma {:induction false} PlaceIs(dist: map<Node, Cost>, q: seq<Node>, d: Cost, k: nat)
    requires (forall n :: n in q ==> n in dist) && k <= |q|
    requires (forall i :: 0 <= i < k ==> !dist[q[i]].Exceeds(d)) && (k < |q| ==> dist[q[k]].Exceeds(d))
    ensures Place(dist, q, d) == k
  {
  }

  lemma {:induction false} WithoutKeeps(q: seq<Node>, n: Node)
    requires NoRepeats(q)
    ensures n !in Without(q, n) && NoRepeats(Without(q, n))
    ensures forall m :: m in Without(q, n) <==> m in q && m != n
    ensures n in q ==> |Without(q, n)| == |q| - 1
    ensures n !in q ==> Without(q, n) == q
    decreases q
  {
    if q != [] {
      assert q[0] !in q[1..];
      WithoutKeeps(q[1..], n);
      if q[0] == n { assert Without(q[1..], n) == q[1..]; }
    }
  }

  lemma {:induction false} WithoutRising(dist: map<Node, Cost>, q: seq<Node>, n: Node)
    requires Rising(dist, q) && NoRepeats(q)
    ensures Rising(dist, Without(q, n))
    decreases q
  {
    if q != [] {
      var w := Without(q[1..], n);
      WithoutKeeps(q[1..], n);
      RisingTail(dist, q);
      WithoutRising(dist, q[1..], n);
      if q[0] != n { RisingCons(dist, q[0], w); }
    }
  }

  lemma RisingTail(dist: map<Node, Cost>, q: seq<Node>)
    requires Rising(dist, q) && q != []
    ensures Rising(dist, q[1..]) && Beyond(dist, q[1..], dist[q[0]].v)
  {
    forall m | m in q[1..] ensures dist[q[0]].v <= dist[m].v {
      var j :| 0 <= j < |q| - 1 && q[1..][j] == m;
      assert q[1 + j] == m;
    }
  }

  lemma RisingCons(dist: map<Node, Cost>, n: Node, q: seq<Node>)
    requires Rising(dist, q) && n in dist && dist[n].Finite? && Beyond(dist, q, dist[n].v)
    ensures Rising(dist, [n] + q)
  {
  }

  lemma InsertKeeps(q: seq<Node>, k: nat, n: Node)
    requires k <= |q| && NoRepeats(q) && n !in q
    ensures NoRepeats(InsertAt(q, k, n))
    ensures forall m :: m in InsertAt(q, k, n) <==> m in q || m == n
  {
  }

  lemma {:induction false} InsertRising(dist: map<Node, Cost>, q: seq<Node>, n: Node, d: real)
    requires Rising(dist, q) && n in dist && dist[n] == Finite(d)
    ensures (forall m :: m in q ==> m in dist) && Rising(dist, InsertAt(q, Place(dist, q, Finite(d)), n))
    decreases q
  {
    hide Rising, Beyond, InsertAt;
    RisingKnown(dist, q);
    var k := Place(dist, q, Finite(d));
    if q == [] {
      InsertAtSplit(q, k, n);
      EmptyQueue(dist, n);
      RisingCons(dist, n, []);
    } else if k == 0 {
      InsertAtSplit(q, k, n);
      RisingTail(dist, q);
      BeyondCons(dist, q, d);
      RisingCons(dist, n, q);
    } else {
      RisingTail(dist, q);
      InsertAtSplit(q, k, n);
      InsertRising(dist, q[1..], n, d);
      BeyondInsert(dist, q[1..], k - 1, n, dist[q[0]].v);
      RisingCons(dist, q[0], InsertAt(q[1..], k - 1, n));
    }
  }

  lemma RisingKnown(dist: map<Node, Cost>, q: seq<Node>)
    requires Rising(dist, q)
    ensures forall m :: m in q ==> m in dist && dist[m].Finite?
  {
  }

  lemma EmptyQueue(dist: map<Node, Cost>, n: Node)
    requires n in dist && dist[n].Finite?
    ensures Rising(dist, []) && Beyond(dist, [], dist[n].v)
  {
  }

  lemma BeyondCons(dist: map<Node, Cost>, q: seq<Node>, d: real)
    requires q != [] && q[0] in dist && dist[q[0]].Finite? && d <= dist[q[0]].v && Beyond(dist, q[1..], dist[q[0]].v)
    ensures Beyond(dist, q, d)
  {
    forall m | m in q ensures m in dist && dist[m].Finite? && d <= dist[m].v {
      if m != q[0] { assert m in q[1..]; }
    }
  }

  lemma BeyondInsert(dist: map<Node, Cost>, q: seq<Node>, k: nat, n: Node, d: real)
    requires k <= |q| && Beyond(dist, q, d) && n in dist && dist[n].Finite? && d <= dist[n].v
    ensures Beyond(dist, InsertAt(q, k, n), d)
  {
  }

  lemma InsertAtSplit<T>(q: seq<T>, k: nat, n: T)
    requires k <= |q|
    ensures k == 0 ==> InsertAt(q, k, n) == [n] + q
    ensures k > 0 ==> InsertAt(q, k, n) == [q[0]] + InsertAt(q[1..], k - 1, n)
  {
  }

  // ----- what one improvement keeps -----

  /** The queue after a node's distance fell: taken out if it was there, and put back at its place. */
  function Requeued(dist: map<Node, Cost>, q: seq<Node>, n: Node): seq<Node>
    requires n in dist && forall m :: m in q ==> m in dist
  {
    WithoutSubset(q, n);
    var rest := Without(q, n);
    InsertAt(rest, Place(dist, rest, dist[n]), n)
  }

  lemma {:induction false} WithoutSubset(q: seq<Node>, n: Node)
    ensures forall m :: m in Without(q, n) ==> m in q
    decreases q
  {
    if q != [] { WithoutSubset(q[1..], n); }
  }

  lemma RequeuedMembers(g: Graph, dist: map<Node, Cost>, done: seq<Node>, q: seq<Node>, n: Node, d: real)
    requires dist.Keys == g.nodes && Members(g, dist, done, q) && n in g.nodes && n !in done
    ensures Members(g, dist[n := Finite(d)], done, Requeued(dist[n := Finite(d)], q, n))
  {
    WithoutKeeps(q, n);
    var rest := Without(q, n);
    InsertKeeps(rest, Place(dist[n := Finite(d)], rest, Finite(d)), n);
  }

  lemma RequeuedRising(dist: map<Node, Cost>, q: seq<Node>, n: Node, d: real)
    requires Rising(dist, q) && NoRepeats(q)
    ensures Rising(dist[n := Finite(d)], Requeued(dist[n := Finite(d)], q, n))
  {
    WithoutKeeps(q, n);
    WithoutRising(dist, q, n);
    InsertRising(dist[n := Finite(d)], Without(q, n), n, d);
  }

  lemma RequeuedBeyond(dist: map<Node, Cost>, q: seq<Node>, n: Node, d: real, low: real)
    requires Beyond(dist, q, low) && NoRepeats(q) && low <= d
    ensures Beyond(dist[n := Finite(d)], Requeued(dist[n := Finite(d)], q, n), low)
  {
    WithoutKeeps(q, n);
    var rest := Without(q, n);
    InsertKeeps(rest, Place(dist[n := Finite(d)], rest, Finite(d)), n);
  }

  /** The node being improved was not taken yet, and is queued exactly if it already had a distance. */
  lemma ImprovedIsOpen(g: Graph, t: Node, lab: Labels, done: seq<Node>, q: seq<Node>, k: nat, n: Node, d: real,
      low: real)
    requires Searching(g, t, lab, done, q, low, k) && t in done
    requires n in g.nodes && d > low && lab.dist[n].Exceeds(Finite(d))
    ensures n !in done && n != t
    ensures n in q <==> lab.dist[n].Finite?
  {
    hide Guides, Settled, Rising, Beyond, Sound;
  }

  lemma ImprovedWithin(dist: map<Node, Cost>, done: seq<Node>, n: Node, d: Cost, low: real)
    requires Within(dist, done, low) && n !in done
    ensures Within(dist[n := d], done, low)
  {
  }

  function Relabel(lab: Labels, n: Node, d: Cost, l: Link): Labels {
    Labels(lab.dist[n := d], lab.out[n := l])
  }

  /** A link into a taken node that offers n the distance d. */
  ghost predicate Offers(g: Graph, lab: Labels, l: Link, n: Node, d: real)
    requires Labelled(g, lab)
  {
    && l in g.edge
    && var e := g.edge[l];
       && e.src == n && e.open && n in g.nodes && e.dest in g.nodes && e.dest in g.ins && l in g.ins[e.dest]
       && e.cost.Finite? && e.cost.v > 0.0 && lab.dist[e.dest].Finite? && d == lab.dist[e.dest].v + e.cost.v
  }

  lemma StillGuided(g: Graph, lab: Labels, before: seq<Node>, m: Node, n: Node, d: Cost, l: Link)
    requires Labelled(g, lab) && m in g.nodes && n in g.nodes && Guided(g, lab, before, m) && m != n && n !in before
    ensures Guided(g, Relabel(lab, n, d, l), before, m)
  {
  }

  lemma ImprovedGuides(g: Graph, t: Node, lab: Labels, done: seq<Node>, q: seq<Node>, q': seq<Node>, n: Node, d: real,
      l: Link)
    requires Labelled(g, lab) && Guides(g, t, lab, done, q) && Offers(g, lab, l, n, d)
    requires n !in done && n != t && g.edge[l].dest in done && forall m :: m in q' ==> m in q || m == n
    ensures Guides(g, t, Relabel(lab, n, Finite(d), l), done, q')
  {
    hide Guided;
    var lab' := Relabel(lab, n, Finite(d), l);
    NewlyGuided(g, lab, done, n, d, l);
    forall m | m in q' && m in g.nodes && m != t ensures Guided(g, lab', done, m) {
      if m != n { StillGuided(g, lab, done, m, n, Finite(d), l); }
    }
    forall i | 0 <= i < |done| && done[i] in g.nodes && done[i] != t ensures Guided(g, lab', done[..i], done[i]) {
      assert done[i] in done;
      StillGuided(g, lab, done[..i], done[i], n, Finite(d), l);
    }
  }

  lemma NewlyGuided(g: Graph, lab: Labels, done: seq<Node>, n: Node, d: real, l: Link)
    requires Labelled(g, lab) && Offers(g, lab, l, n, d) && n !in done && g.edge[l].dest in done
    ensures Guided(g, Relabel(lab, n, Finite(d), l), done, n)
  {
  }

  /** Lowering a node that was not taken leaves the links into taken nodes relaxed. */
  lemma StillRelaxed(g: Graph, lab: Labels, l: Link, n: Node, d: Cost, out: Link)
    requires Labelled(g, lab) && n in g.nodes && Relaxed(g, lab, l) && lab.dist[n].Exceeds(d)
    requires l in g.edge && g.edge[l].dest != n
    ensures Relaxed(g, Relabel(lab, n, d, out), l)
  {
  }

  lemma ImprovedSettled(g: Graph, lab: Labels, done: seq<Node>, k: nat, n: Node, d: real, l: Link)
    requires Sound(g) && Labelled(g, lab) && Settled(g, lab, done, k) && Offers(g, lab, l, n, d)
    requires n !in done && lab.dist[n].Exceeds(Finite(d)) && (forall m :: m in done ==> m in g.nodes)
    requires done != [] && g.edge[l].dest == done[|done| - 1] && k < |g.ins[g.edge[l].dest]|
             && g.ins[g.edge[l].dest][k] == l
    ensures Settled(g, Relabel(lab, n, Finite(d), l), done, k + 1)
  {
    hide Relaxed;
    var lab' := Relabel(lab, n, Finite(d), l);
    forall i, j | 0 <= i < |done| && done[i] in g.ins && 0 <= j < |g.ins[done[i]]| && (i == |done| - 1 ==> j < k + 1)
      ensures Relaxed(g, lab', g.ins[done[i]][j])
    {
      assert done[i] in done && Enters(g, g.ins[done[i]][j], done[i]);
      if i == |done| - 1 && j == k {
        TightRelaxed(g, lab, n, d, l);
      } else {
        StillRelaxed(g, lab, g.ins[done[i]][j], n, Finite(d), l);
      }
    }
  }

  lemma TightRelaxed(g: Graph, lab: Labels, n: Node, d: real, l: Link)
    requires Labelled(g, lab) && Offers(g, lab, l, n, d) && g.edge[l].dest != n
    ensures Relaxed(g, Relabel(lab, n, Finite(d), l), l)
  {
  }

  /** Improving a node keeps the search's state; the link that did it is the next one handled. */
  lemma Improved(g: Graph, t: Node, lab: Labels, done: seq<Node>, q: seq<Node>, k: nat, n: Node, d: real, low: real,
      l: Link)
    requires Searching(g, t, lab, done, q, low, k) && t in done && Offers(g, lab, l, n, d)
    requires d > low && lab.dist[n].Exceeds(Finite(d))
    requires done != [] && g.edge[l].dest == done[|done| - 1] && k < |g.ins[g.edge[l].dest]|
             && g.ins[g.edge[l].dest][k] == l
    ensures var lab' := Relabel(lab, n, Finite(d), l);
            (forall m :: m in q ==> m in lab'.dist)
              && Searching(g, t, lab', done, Requeued(lab'.dist, q, n), low, k + 1)
  {
    ImprovedIsOpen(g, t, lab, done, q, k, n, d, low);
    QueueInGraph(g, lab, done, q);
    hide Guides, Settled, Rising, Beyond, Within, Sound, Members, Offers, Requeued;
    assert g.edge[l].dest in done;
    ImprovedSettled(g, lab, done, k, n, d, l);
    RequeuedMembers(g, lab.dist, done, q, n, d);
    RequeuedRising(lab.dist, q, n, d);
    RequeuedBeyond(lab.dist, q, n, d, low);
    ImprovedWithin(lab.dist, done, n, Finite(d), low);
    RequeuedOnly(lab.dist[n := Finite(d)], q, n);
    ImprovedGuides(g, t, lab, done, q, Requeued(lab.dist[n := Finite(d)], q, n), n, d, l);
  }

  lemma QueueInGraph(g: Graph, lab: Labels, done: seq<Node>, q: seq<Node>)
    requires Labelled(g, lab) && Members(g, lab.dist, done, q)
    ensures (forall n :: n in q ==> n in g.nodes) && (forall n :: n in done ==> n in g.nodes) && NoRepeats(q)
            && NoRepeats(done)
  {
  }

  lemma RequeuedOnly(dist: map<Node, Cost>, q: seq<Node>, n: Node)
    requires n in dist && forall m :: m in q ==> m in dist
    ensures forall m :: m in Requeued(dist, q, n) ==> m in q || m == n
  {
    WithoutSubset(q, n);
  }

  /** A link that offers nothing shorter is passed over. */
  lemma Skipped(g: Graph, t: Node, lab: Labels, done: seq<Node>, q: seq<Node>, k: nat, low: real)
    requires Searching(g, t, lab, done, q, low, k)
    requires done != [] && done[|done| - 1] in g.ins && k < |g.ins[done[|done| - 1]]|
    requires Relaxed(g, lab, g.ins[done[|done| - 1]][k])
    ensures Searching(g, t, lab, done, q, low, k + 1)
  {
    hide Guides, Rising, Beyond, Within, Sound, Members, Relaxed;
  }

  // ----- taking the next node -----

  /** All links into the node taken last have been handled. */
  predicate Handled(g: Graph, done: seq<Node>, k: nat) {
    done == [] || (done[|done| - 1] in g.ins && k == |g.ins[done[|done| - 1]]|)
  }

  lemma HandledNone(g: Graph)
    ensures Handled(g, [], 0)
  {
  }

  lemma HandledAll(g: Graph, done: seq<Node>, k: nat)
    requires done != [] && done[|done| - 1] in g.ins && k == |g.ins[done[|done| - 1]]|
    ensures Handled(g, done, k)
  {
  }

  lemma TakenMembers(g: Graph, dist: map<Node, Cost>, done: seq<Node>, q: seq<Node>)
    requires dist.Keys == g.nodes && Members(g, dist, done, q) && q != []
    ensures Members(g, dist, done + [q[0]], q[1..])
  {
    var done' := done + [q[0]];
    assert q[0] in q;
    forall i | 0 <= i < |done| ensures done[i] != q[0] { assert done[i] in done; }
    forall n | n in g.nodes ensures dist[n].Finite? <==> n in done' || n in q[1..] {
      if n in q && n != q[0] { TailHas(q, n); }
    }
    forall n | n in done' ensures n in g.nodes && n !in q[1..] { }
  }

  lemma TailHas(q: seq<Node>, n: Node)
    requires n in q && n != q[0]
    ensures n in q[1..]
  {
  }

  lemma TakenGuides(g: Graph, t: Node, lab: Labels, done: seq<Node>, q: seq<Node>)
    requires Labelled(g, lab) && Guides(g, t, lab, done, q) && q != []
    ensures Guides(g, t, lab, done + [q[0]], q[1..])
  {
    hide Guided;
    var done' := done + [q[0]];
    forall n | n in q[1..] && n in g.nodes && n != t ensures Guided(g, lab, done', n) {
      assert n in q;
      GuidedMore(g, lab, done, done', n);
    }
    forall i | 0 <= i < |done'| && done'[i] in g.nodes && done'[i] != t ensures Guided(g, lab, done'[..i], done'[i]) {
      if i < |done| { assert done'[..i] == done[..i] && done'[i] == done[i]; } else { assert done'[..i] == done; }
    }
  }

  lemma GuidedMore(g: Graph, lab: Labels, before: seq<Node>, more: seq<Node>, n: Node)
    requires Labelled(g, lab) && n in g.nodes && Guided(g, lab, before, n) && forall m :: m in before ==> m in more
    ensures Guided(g, lab, more, n)
  {
  }

  lemma TakenSettled(g: Graph, lab: Labels, done: seq<Node>, k: nat, n: Node)
    requires Labelled(g, lab) && Settled(g, lab, done, k) && Handled(g, done, k)
    ensures Settled(g, lab, done + [n], 0)
  {
    hide Relaxed;
  }

  lemma TakenWithin(dist: map<Node, Cost>, done: seq<Node>, q: seq<Node>, low: real)
    requires q != [] && Within(dist, done, low) && Beyond(dist, q, low)
    ensures q[0] in dist && dist[q[0]].Finite? && low <= dist[q[0]].v && Within(dist, done + [q[0]], dist[q[0]].v)
  {
  }

  /** The next node is taken for the first time, and it is no nearer than any taken before. */
  lemma Taken(g: Graph, t: Node, lab: Labels, done: seq<Node>, q: seq<Node>, k: nat, low: real)
    requires Searching(g, t, lab, done, q, low, k) && Handled(g, done, k) && q != []
    ensures q[0] in g.nodes && q[0] !in done && q[0] in g.ins && lab.dist[q[0]].Finite? && low <= lab.dist[q[0]].v
    ensures Searching(g, t, lab, done + [q[0]], q[1..], lab.dist[q[0]].v, 0)
  {
    TakenKnown(g, lab, done, q);
    hide Guides, Settled, Rising, Beyond, Within, Members, Handled;
    TakenMembers(g, lab.dist, done, q);
    TakenWithin(lab.dist, done, q, low);
    RisingTail(lab.dist, q);
    TakenGuides(g, t, lab, done, q);
    TakenSettled(g, lab, done, k, q[0]);
  }

  lemma TakenKnown(g: Graph, lab: Labels, done: seq<Node>, q: seq<Node>)
    requires Labelled(g, lab) && Members(g, lab.dist, done, q) && q != []
    ensures q[0] in g.nodes && q[0] !in done
  {
  }

  // ----- the beginning and the end -----

  ghost function Unlabelled(g: Graph, t: Node): Labels {
    Labels(map n | n in g.nodes :: if n == t then Finite(0.0) else Infinity, map n | n in g.nodes :: null)
  }

  lemma SearchStarts(g: Graph, t: Node)
    requires Sound(g) && t in g.nodes
    ensures Searching(g, t, Unlabelled(g, t), [], [t], 0.0, 0)
  {
  }

  /** Following the labels from a taken node leads to the target, ever nearer, at exactly its distance. */
  lemma {:induction false} RouteFrom(g: Graph, t: Node, lab: Labels, done: seq<Node>, q: seq<Node>, low: real,
      k: nat, i: nat)
    returns (p: seq<Link>)
    requires Searching(g, t, lab, done, q, low, k) && i < |done|
    ensures done[i] in g.nodes && Route(g, t, lab, done[i], p) && CostIs(g, p, lab.dist[done[i]])
    decreases i
  {
    QueueInGraph(g, lab, done, q);
    var n := done[i];
    if n == t {
      p := [];
    } else {
      hide Settled, Rising, Beyond, Within, Members, Route, CostIs, Guided;
      var l, j := GuideOf(g, t, lab, done, q, i);
      var rest := RouteFrom(g, t, lab, done, q, low, k, j);
      assert g.edge[l].dest == done[j];
      RouteCons(g, t, lab, n, l, rest);
      p := [l] + rest;
    }
  }

  lemma GuideOf(g: Graph, t: Node, lab: Labels, done: seq<Node>, q: seq<Node>, i: nat) returns (l: Link, j: nat)
    requires Sound(g) && Labelled(g, lab) && Guides(g, t, lab, done, q) && i < |done| && done[i] in g.nodes
             && done[i] != t
    ensures lab.out[done[i]] == l && j < i && l in g.edge && g.edge[l].dest == done[j] && done[j] in g.nodes
    ensures Leads(g, lab, done[i], l)
  {
    assert Guided(g, lab, done[..i], done[i]);
    l := lab.out[done[i]];
    var d := g.edge[l].dest;
    assert d in done[..i];
    j :| 0 <= j < i && done[..i][j] == d;
    var x :| 0 <= x < |g.ins[d]| && g.ins[d][x] == l;
    assert Enters(g, g.ins[d][x], d);
  }

  /** One step along the labels. */
  ghost predicate Leads(g: Graph, lab: Labels, n: Node, l: Link)
    requires Labelled(g, lab)
  {
    && n in g.nodes && l in g.edge
    && var e := g.edge[l];
       && e.src == n && e.open && e.dest in g.nodes && e.dest in g.ins && l in g.ins[e.dest]
       && e.cost.Finite? && e.cost.v > 0.0
       && lab.dist[e.dest].Finite? && lab.dist[n] == Finite(lab.dist[e.dest].v + e.cost.v)
  }

  lemma RouteCons(g: Graph, t: Node, lab: Labels, n: Node, l: Link, p: seq<Link>)
    requires Labelled(g, lab) && Leads(g, lab, n, l) && n != t && lab.out[n] == l
    requires Route(g, t, lab, g.edge[l].dest, p) && CostIs(g, p, lab.dist[g.edge[l].dest])
    ensures Route(g, t, lab, n, [l] + p) && CostIs(g, [l] + p, lab.dist[n])
  {
    assert ([l] + p)[1..] == p;
  }

  /** With the queue empty, no path is cheaper than the distance its first node got. */
  lemma {:induction false} NoShorterPath(g: Graph, t: Node, lab: Labels, done: seq<Node>, low: real, k: nat, n: Node,
      p: seq<Link>)
    requires Searching(g, t, lab, done, [], low, k) && Handled(g, done, k)
    requires n in g.nodes && Path(g, n, t, p)
    ensures NoCheaper(g, p, lab.dist[n])
    decreases p
  {
    PathKnown(g, n, t, p);
    if p != [] {
      var e := g.edge[p[0]];
      var x :| 0 <= x < |g.ins[e.dest]| && g.ins[e.dest][x] == p[0];
      NoShorterPath(g, t, lab, done, low, k, e.dest, p[1..]);
      hide Guides, Rising, Beyond, Within;
      if PathCost(g, p).Finite? {
        assert e.dest in done;
        var i :| 0 <= i < |done| && done[i] == e.dest;
        assert Relaxed(g, lab, g.ins[done[i]][x]);
      }
    }
  }

  // ----- the breadth-first search -----

  /** Appending to the queue is putting the node at its place when nothing queued is farther. */
  lemma PlacedLast(dist: map<Node, Cost>, q: seq<Node>, n: Node, d: real)
    requires Within(dist, q, d) && n !in q
    ensures Requeued(dist[n := Finite(d)], q, n) == q + [n] && Within(dist[n := Finite(d)], q + [n], d)
  {
    WithoutAbsent(q, n);
    LastPlace(dist[n := Finite(d)], q, d);
  }

  lemma {:induction false} WithoutAbsent<T>(q: seq<T>, n: T)
    requires n !in q
    ensures Without(q, n) == q
    decreases q
  {
    if q != [] { WithoutAbsent(q[1..], n); }
  }

  lemma {:induction false} LastPlace(dist: map<Node, Cost>, q: seq<Node>, d: real)
    requires Within(dist, q, d)
    ensures Place(dist, q, Finite(d)) == |q|
    decreases q
  {
    if q != [] {
      assert q[0] in q && forall m :: m in q[1..] ==> m in q;
      LastPlace(dist, q[1..], d);
    }
  }

  /** A link of cost one offers a node that has a distance nothing shorter. */
  lemma AlreadyNear(g: Graph, t: Node, lab: Labels, done: seq<Node>, q: seq<Node>, low: real, k: nat, l: Link)
    requires Searching(g, t, lab, done, q, low, k) && Within(lab.dist, q, low + 1.0)
    requires l in g.edge && g.edge[l].src in g.nodes && g.edge[l].dest in g.nodes && g.edge[l].cost == Finite(1.0)
    requires lab.dist[g.edge[l].dest] == Finite(low) && lab.dist[g.edge[l].src].Finite?
    ensures Relaxed(g, lab, l)
  {
    hide Guides, Settled, Rising, Beyond, Sound;
  }

  lemma SearchQueue(g: Graph, t: Node, lab: Labels, done: seq<Node>, q: seq<Node>, low: real, k: nat)
    requires Searching(g, t, lab, done, q, low, k)
    ensures Labelled(g, lab) && (forall n :: n in q ==> n in g.nodes)
            && (forall n :: n in done ==> n in g.nodes && lab.dist[n].Finite?)
  {
  }

  /** When the queue is empty, every distance is the least cost of a path, and the labels lead along such a path. */
  lemma SearchEnds(g: Graph, t: Node, lab: Labels, done: seq<Node>, low: real, k: nat)
    requires Searching(g, t, lab, done, [], low, k) && Handled(g, done, k)
    ensures forall n, p :: n in g.nodes && Path(g, n, t, p) ==> NoCheaper(g, p, lab.dist[n])
    ensures forall n :: n in g.nodes && lab.dist[n].Finite? ==>
            exists p :: Route(g, t, lab, n, p) && CostIs(g, p, lab.dist[n])
  {
    hide Path, Route, CostIs, NoCheaper, Searching, Handled;
    SearchQueue(g, t, lab, done, [], low, k);
    forall n, p | n in g.nodes && Path(g, n, t, p) ensures NoCheaper(g, p, lab.dist[n]) {
      NoShorterPath(g, t, lab, done, low, k, n, p);
    }
    forall n | n in g.nodes && lab.dist[n].Finite?
      ensures exists p :: Route(g, t, lab, n, p) && CostIs(g, p, lab.dist[n])
    {
      var i := TakenIndex(g, t, lab, done, low, k, n);
      var p := RouteFrom(g, t, lab, done, [], low, k, i);
    }
  }

  lemma TakenIndex(g: Graph, t: Node, lab: Labels, done: seq<Node>, low: real, k: nat, n: Node) returns (i: nat)
    requires Searching(g, t, lab, done, [], low, k) && n in g.nodes && lab.dist[n].Finite?
    ensures i < |done| && done[i] == n
  {
    hide Guides, Settled, Rising, Beyond, Within, Sound;
    i :| 0 <= i < |done| && done[i] == n;
  }

  /** No more nodes can be taken than there are. */
  lemma {:induction false} TakenFit(done: seq<Node>, nodes: set<Node>)
    requires NoRepeats(done) && forall n :: n in done ==> n in nodes
    ensures |done| <= |nodes|
    decreases done
  {
    if done != [] {
      var last := done[|done| - 1];
      assert forall n :: n in done[..|done| - 1] ==> n in nodes - {last};
      TakenFit(done[..|done| - 1], nodes - {last});
    }
  }

  lemma TakenFits(g: Graph, t: Node, lab: Labels, done: seq<Node>, q: seq<Node>, low: real, k: nat)
    requires Searching(g, t, lab, done, q, low, k)
    ensures |done| <= |g.nodes|
  {
    hide Guides, Settled, Rising, Beyond, Within, Sound;
    TakenFit(done, g.nodes);
  }

  /** In a graph whose links all cost one, the cost of a path is its number of links. */
  lemma {:induction false} CostCountsLinks(g: Graph, p: seq<Link>)
    requires (forall l :: l in p ==> l in g.edge) && (forall l :: l in g.edge ==> g.edge[l].cost == Finite(1.0))
    ensures PathCost(g, p) == Finite(|p| as real)
    decreases p
  {
    if p != [] { CostCountsLinks(g, p[1..]); }
  }
}
