/** What the pruned search of IntervalTree.cc (query) returns, and that it is what a full scan would find. */
module IntervalQuery {
  import opened IntervalNodes
  import opened RedBlackTree
  import opened RebalanceSteps

  /** Whether [a1, a2] and [b1, b2] overlap, as the source tests it. */
  predicate Overlap(a1: SimTime, a2: SimTime, b1: SimTime, b2: SimTime) {
    if a1 <= b1 then b1 <= a2 else a1 <= b2
  }

  predicate Hit(n: Ref, low: SimTime, high: SimTime) {
    Overlap(low, high, n.key, n.high)
  }

  /** For proper intervals the test is the symmetric one: neither ends before the other begins. */
  lemma OverlapIsSymmetric(a1: SimTime, a2: SimTime, b1: SimTime, b2: SimTime)
    requires a1 <= a2 && b1 <= b2
    ensures Overlap(a1, a2, b1, b2) <==> a1 <= b2 && b1 <= a2
  {
  }

  /** The full scan: all overlapping nodes of a sequence. */
  function Filter(s: seq<Ref>, low: SimTime, high: SimTime): seq<Ref> {
    if s == [] then [] else (if Hit(s[0], low, high) then [s[0]] else []) + Filter(s[1..], low, high)
  }

  lemma FilterHead(s: seq<Ref>, low: SimTime, high: SimTime)
    requires s != []
    ensures Filter(s, low, high) == (if Hit(s[0], low, high) then [s[0]] else []) + Filter(s[1..], low, high)
  {
  }

  lemma {:induction false} FilterAppend(a: seq<Ref>, b: seq<Ref>, low: SimTime, high: SimTime)
    ensures Filter(a + b, low, high) == Filter(a, low, high) + Filter(b, low, high)
  {
    hide Hit;
    if a == [] {
      assert a + b == b;
    } else {
      assert (a + b)[1..] == a[1..] + b && (a + b)[0] == a[0];
      FilterAppend(a[1..], b, low, high);
      FilterHead(a, low, high);
      FilterHead(a + b, low, high);
    }
  }

  lemma {:induction false} FilterNone(s: seq<Ref>, low: SimTime, high: SimTime)
    requires forall n :: n in s ==> !Hit(n, low, high)
    ensures Filter(s, low, high) == []
  {
    if s != [] { FilterNone(s[1..], low, high); }
  }

  lemma {:induction false} FilterMembers(s: seq<Ref>, low: SimTime, high: SimTime)
    ensures forall n :: n in Filter(s, low, high) <==> n in s && Hit(n, low, high)
  {
    if s != [] {
      FilterMembers(s[1..], low, high);
      assert s == [s[0]] + s[1..];
    }
  }

  /** The nodes the search reports for a subtree, in its order. */
  function Visit(t: Tree, low: SimTime, high: SimTime): seq<Ref> {
    if t.Leaf? then [] else
      var own := if Hit(t.n, low, high) then [t.n] else [];
      if Mh(t.l) >= low then
        var left := Visit(t.l, low, high);
        own + left + (if left != [] then Visit(t.r, low, high) else [])
      else own + Visit(t.r, low, high)
  }

  /** Stored intervals do not end before they begin. */
  predicate Proper(s: seq<Ref>) {
    forall n :: n in s ==> n.key <= n.high
  }

  // ----- soundness, for every query -----

  lemma {:induction false} InorderFilter(t: Tree, low: SimTime, high: SimTime)
    requires t.Node?
    ensures var own := if Hit(t.n, low, high) then [t.n] else [];
      Filter(Inorder(t), low, high) == Filter(Inorder(t.l), low, high) + own + Filter(Inorder(t.r), low, high)
  {
    FilterAppend(Inorder(t.l) + [t.n], Inorder(t.r), low, high);
    FilterAppend(Inorder(t.l), [t.n], low, high);
  }

  /** Whatever is reported overlaps, and no node is reported twice. */
  lemma {:induction false} VisitSound(t: Tree, low: SimTime, high: SimTime)
    ensures multiset(Visit(t, low, high)) <= multiset(Filter(Inorder(t), low, high))
  {
    if t.Node? {
      InorderFilter(t, low, high);
      VisitSound(t.l, low, high);
      VisitSound(t.r, low, high);
    }
  }

  // ----- completeness -----

  /** Below a subtree whose greatest end lies before the query nothing overlaps. */
  lemma {:induction false} PrunedLeft(t: Tree, low: SimTime, high: SimTime)
    requires MhOk(t) && Proper(Inorder(t)) && Mh(t) < low
    ensures Filter(Inorder(t), low, high) == []
  {
    EndsBefore(t);
    FilterNone(Inorder(t), low, high);
  }

  lemma {:induction false} EndsBefore(t: Tree)
    requires MhOk(t)
    ensures forall n :: n in Inorder(t) ==> n.high <= Mh(t)
  {
    if t.Node? {
      EndsBefore(t.l);
      EndsBefore(t.r);
    }
  }

  /** The greatest end is some node's. */
  lemma {:induction false} SomeEnd(t: Tree) returns (n: Ref)
    requires MhOk(t) && t.Node? && Mh(t) > NIL_TIME
    ensures n in Inorder(t) && n.high == Mh(t)
  {
    if t.mh == t.n.high {
      n := t.n;
    } else if t.mh == Mh(t.l) {
      n := SomeEnd(t.l);
    } else {
      n := SomeEnd(t.r);
    }
  }

  /** If the left subtree reaches the query but has no hit, all keys to the right lie behind the query. */
  lemma PrunedRight(t: Tree, low: SimTime, high: SimTime)
    requires t.Node? && MhOk(t) && SortedKeys(Inorder(t)) && low > NIL_TIME
    requires Mh(t.l) >= low && Filter(Inorder(t.l), low, high) == []
    ensures Filter(Inorder(t.r), low, high) == []
  {
    var m := SomeEnd(t.l);
    FilterMembers(Inorder(t.l), low, high);
    assert !Hit(m, low, high);
    forall n | n in Inorder(t.r) ensures !Hit(n, low, high) {
      KeysLeftOfRight(t, m, n);
    }
    FilterNone(Inorder(t.r), low, high);
  }

  lemma KeysLeftOfRight(t: Tree, m: Ref, n: Ref)
    requires t.Node? && SortedKeys(Inorder(t)) && m in Inorder(t.l) && n in Inorder(t.r)
    ensures m.key <= n.key
  {
    var i :| 0 <= i < |Inorder(t.l)| && Inorder(t.l)[i] == m;
    var j :| 0 <= j < |Inorder(t.r)| && Inorder(t.r)[j] == n;
    var s := Inorder(t);
    assert s[i] == m && s[|Inorder(t.l)| + 1 + j] == n;
  }

  lemma InorderIs(t: Tree)
    requires t.Node?
    ensures Inorder(t) == Inorder(t.l) + [t.n] + Inorder(t.r)
  {
  }

  lemma SortedSubtrees(t: Tree)
    requires t.Node? && SortedKeys(Inorder(t)) && Proper(Inorder(t))
    ensures SortedKeys(Inorder(t.l)) && SortedKeys(Inorder(t.r))
    ensures Proper(Inorder(t.l)) && Proper(Inorder(t.r))
  {
    hide SortedKeys, Inorder;
    InorderIs(t);
    var s, a, b := Inorder(t), Inorder(t.l), Inorder(t.r);
    assert s == [] + a + ([t.n] + b);
    SortedParts([], a, [t.n] + b);
    assert s == (a + [t.n]) + b + [];
    SortedParts(a + [t.n], b, []);
  }

  /** What the search reports for a node, given what it reports for the subtrees. */
  lemma VisitNode(t: Tree, low: SimTime, high: SimTime)
    requires t.Node?
    ensures var own := if Hit(t.n, low, high) then [t.n] else [];
      var left, right := Visit(t.l, low, high), Visit(t.r, low, high);
      Visit(t, low, high) == if Mh(t.l) < low then own + right else own + left + (if left != [] then right else [])
  {
  }

  /** The search reports every overlapping node exactly once. */
  lemma {:induction false} VisitComplete(t: Tree, low: SimTime, high: SimTime)
    requires MhOk(t) && SortedKeys(Inorder(t)) && Proper(Inorder(t)) && low > NIL_TIME
    ensures multiset(Visit(t, low, high)) == multiset(Filter(Inorder(t), low, high))
  {
    hide Visit, Filter, Inorder, SortedKeys, Proper, Hit;
    if t.Node? {
      InorderFilter(t, low, high);
      VisitNode(t, low, high);
      SortedSubtrees(t);
      VisitComplete(t.l, low, high);
      VisitComplete(t.r, low, high);
      var left, right := Filter(Inorder(t.l), low, high), Filter(Inorder(t.r), low, high);
      if Mh(t.l) < low {
        PrunedLeft(t.l, low, high);
      } else if Visit(t.l, low, high) == [] {
        assert |multiset(left)| == 0;
        EmptyMultiset(left);
        PrunedRight(t, low, high);
      }
    } else {
      VisitLeaf(t, low, high);
    }
  }

  lemma VisitLeaf(t: Tree, low: SimTime, high: SimTime)
    requires t.Leaf?
    ensures Visit(t, low, high) == [] == Filter(Inorder(t), low, high)
  {
  }

  lemma HitTimes(n: Ref, low: SimTime, high: SimTime)
    ensures Hit(n, low, high) <==> if low <= n.key then n.key <= high else low <= n.high
  {
  }

  /** The nodes reported, by their times: one that begins in the query, or one that ends no earlier than it begins. */
  lemma Reported(t: Tree, low: SimTime, high: SimTime)
    ensures forall n :: n in Visit(t, low, high) ==>
              n in Inorder(t) && if low <= n.key then n.key <= high else low <= n.high
    ensures Complete(t, low, high) ==> forall n :: n in Inorder(t) ==>
              (if low <= n.key then n.key <= high else low <= n.high) ==> n in Visit(t, low, high)
  {
    hide Visit, Inorder, Filter, Hit;
    VisitSound(t, low, high);
    FilterMembers(Inorder(t), low, high);
    forall n | n in Visit(t, low, high)
      ensures n in Inorder(t) && if low <= n.key then n.key <= high else low <= n.high
    {
      assert n in multiset(Visit(t, low, high));
      assert n in Filter(Inorder(t), low, high);
      HitTimes(n, low, high);
      assert Hit(n, low, high);
      assert n in Inorder(t);
    }
    forall n | n in Inorder(t) && (if low <= n.key then n.key <= high else low <= n.high)
      ensures Complete(t, low, high) ==> n in Visit(t, low, high)
    {
      HitTimes(n, low, high);
      assert n in multiset(Filter(Inorder(t), low, high));
    }
  }

  predicate Once(s: seq<Ref>) { forall i, j :: 0 <= i < j < |s| ==> s[i] != s[j] }

  lemma OnceAppend(a: seq<Ref>, b: seq<Ref>)
    requires Once(a) && Once(b) && forall n :: n in a ==> n !in b
    ensures Once(a + b)
  {
    forall i, j | 0 <= i < j < |a + b| ensures (a + b)[i] != (a + b)[j] {
      if i < |a| <= j { assert a[i] in a && b[j - |a|] in b; }
    }
  }

  /** No node is reported twice. */
  lemma {:induction false} VisitOnce(t: Tree, low: SimTime, high: SimTime)
    requires Distinct(t)
    ensures Once(Visit(t, low, high)) && forall n :: n in Visit(t, low, high) ==> n in Nodes(t)
  {
    hide Hit, Once;
    OnceSmall(t);
    if t.Node? {
      VisitOnce(t.l, low, high);
      VisitOnce(t.r, low, high);
      var own := if Hit(t.n, low, high) then [t.n] else [];
      OnceAppend(own, Visit(t.l, low, high));
      OnceAppend(own, Visit(t.r, low, high));
      OnceAppend(own + Visit(t.l, low, high), Visit(t.r, low, high));
      assert own + Visit(t.l, low, high) + [] == own + Visit(t.l, low, high);
    }
  }

  lemma OnceSmall(t: Tree)
    ensures Once([]) && (t.Node? ==> Once([t.n]))
  {
  }

  lemma EmptyMultiset(s: seq<Ref>)
    requires |multiset(s)| == 0
    ensures s == []
  {
  }

  /** The answer to a query on a valid tree is complete. */
  predicate Complete(t: Tree, low: SimTime, high: SimTime) {
    multiset(Visit(t, low, high)) == multiset(Filter(Inorder(t), low, high))
  }

  /**
   * At the least time of all the search also descends into `nil`, finds nothing there, and gives up the
   * right branch: with low == nil's `maxHigh` there is a valid tree on which an overlapping node is missed.
   */
  function LeaningRight(a: Ref, b: Ref): Tree {
    Node(Leaf, a, false, Max(a.high, b.high), Node(Leaf, b, true, b.high, Leaf))
  }

  lemma LeaningRightValid(a: Ref, b: Ref)
    requires Stores(a) && Stores(b) && a.key <= b.key
    ensures ValidTree(LeaningRight(a, b)) && Inorder(LeaningRight(a, b)) == [a, b]
  {
    var t := LeaningRight(a, b);
    assert t.r == Node(Leaf, b, true, b.high, Leaf);
    assert Inorder(t.r) == [b];
    assert Inorder(t) == [] + [a] + [b];
    assert MhOk(t.r) && NoRedRed(t.r) && Balanced(t.r);
  }

  lemma LeaningRightMisses(a: Ref, b: Ref, low: SimTime, high: SimTime)
    requires Hit(a, low, high) && Hit(b, low, high) && low <= NIL_TIME
    ensures Visit(LeaningRight(a, b), low, high) == [a] && !Complete(LeaningRight(a, b), low, high)
  {
    var t := LeaningRight(a, b);
    assert Visit(t.l, low, high) == [];
    assert Inorder(t.r) == [b];
    assert Inorder(t) == [] + [a] + [b] == [a, b];
    FilterTwo(a, b, low, high);
    assert |multiset([a])| == 1 && |multiset([a, b])| == 2;
  }

  /** So the query is complete on every tree of two overlapping nodes exactly when it starts after that time. */
  lemma QueryCompleteExactly(a: Ref, b: Ref, low: SimTime, high: SimTime)
    requires Stores(a) && Stores(b) && a.key <= b.key && Proper([a, b])
    requires Hit(a, low, high) && Hit(b, low, high)
    ensures (forall t :: ValidTree(t) && multiset(Inorder(t)) == multiset([a, b]) ==> Complete(t, low, high))
      <==> low > NIL_TIME
  {
    hide Hit, Visit, Filter, LeaningRight, RedBlack;
    if low > NIL_TIME {
      forall t | ValidTree(t) && multiset(Inorder(t)) == multiset([a, b]) ensures Complete(t, low, high) {
        ProperMultiset(Inorder(t), [a, b]);
        VisitComplete(t, low, high);
      }
    } else {
      LeaningRightValid(a, b);
      LeaningRightMisses(a, b, low, high);
      assert multiset(Inorder(LeaningRight(a, b))) == multiset([a, b]);
    }
  }

  lemma FilterTwo(a: Ref, b: Ref, low: SimTime, high: SimTime)
    requires Hit(a, low, high) && Hit(b, low, high)
    ensures Filter([a, b], low, high) == [a, b]
  {
    assert [a, b][1..] == [b] && [b][1..] == [];
    assert Filter([b], low, high) == [b];
  }

  lemma ProperMultiset(s: seq<Ref>, p: seq<Ref>)
    requires multiset(s) == multiset(p) && Proper(p)
    ensures Proper(s)
  {
    forall n | n in s ensures n.key <= n.high {
      assert n in multiset(s);
    }
  }

  // ----- the explicit stack -----

  /**
   * What is still to come once the current subtree is done: for each entry, the right subtree
   * of its node if the entry's bit is set, or if what was just finished (`hit`) had a result.
   */
  function Rest(ts: seq<Tree>, bits: seq<bool>, hit: bool, low: SimTime, high: SimTime): seq<Ref>
    requires |ts| == |bits| && forall t :: t in ts ==> t.Node?
    decreases |ts|
  {
    if ts == [] then [] else
      var k := |ts| - 1;
      if bits[k] || hit then Visit(ts[k].r, low, high) + Rest(ts[..k], bits[..k], true, low, high)
      else Rest(ts[..k], bits[..k], false, low, high)
  }

  /** Setting the topmost bit is the same as having had a result. */
  function SetTop(bits: seq<bool>, on: bool): (r: seq<bool>)
    ensures |r| == |bits|
  {
    if bits == [] || !on then bits else bits[|bits| - 1 := true]
  }

  lemma RestSetTop(ts: seq<Tree>, bits: seq<bool>, on: bool, hit: bool, low: SimTime, high: SimTime)
    requires |ts| == |bits| && forall t :: t in ts ==> t.Node?
    ensures Rest(ts, SetTop(bits, on), hit, low, high) == Rest(ts, bits, on || hit, low, high)
  {
    if ts != [] && on {
      var k := |ts| - 1;
      assert bits[k := true][..k] == bits[..k];
    }
  }

  lemma RestPush(ts: seq<Tree>, bits: seq<bool>, t: Tree, hit: bool, low: SimTime, high: SimTime)
    requires |ts| == |bits| && (forall u :: u in ts ==> u.Node?) && t.Node?
    ensures Rest(ts + [t], bits + [false], hit, low, high)
      == if hit then Visit(t.r, low, high) + Rest(ts, bits, true, low, high) else Rest(ts, bits, false, low, high)
  {
    assert (ts + [t])[..|ts|] == ts && (bits + [false])[..|ts|] == bits;
  }

  lemma Regrouped(f: seq<Ref>, own: seq<Ref>, left: seq<Ref>, right: seq<Ref>, rest: seq<Ref>)
    ensures f + (own + left + right) + rest == f + own + left + (right + rest)
    ensures f + (own + right) + rest == f + own + right + rest
    ensures left == [] ==> f + (own + left + []) + rest == f + own + left + rest
  {
  }

  /** One node of the search, going left. */
  lemma VisitPushes(t: Tree, ts: seq<Tree>, bits: seq<bool>, found: seq<Ref>, low: SimTime, high: SimTime)
    requires |ts| == |bits| && (forall u :: u in ts ==> u.Node?) && t.Node? && Mh(t.l) >= low
    ensures var hit := Hit(t.n, low, high);
      var found', bits' := found + (if hit then [t.n] else []), SetTop(bits, hit);
      var left := Visit(t.l, low, high);
      found + Visit(t, low, high) + Rest(ts, bits, Visit(t, low, high) != [], low, high)
      == found' + left + Rest(ts + [t], bits' + [false], left != [], low, high)
  {
    hide Visit, Rest, SetTop, Hit;
    var hit := Hit(t.n, low, high);
    var own, left, right := if hit then [t.n] else [], Visit(t.l, low, high), Visit(t.r, low, high);
    VisitNode(t, low, high);
    RestPush(ts, SetTop(bits, hit), t, left != [], low, high);
    if left != [] {
      RestSetTop(ts, bits, hit, true, low, high);
      Regrouped(found, own, left, right, Rest(ts, bits, true, low, high));
    } else {
      RestSetTop(ts, bits, hit, false, low, high);
      assert own + left + [] != [] <==> hit;
      Regrouped(found, own, left, right, Rest(ts, bits, hit, low, high));
    }
  }

  /** One node of the search, going right at once. */
  lemma VisitSkips(t: Tree, ts: seq<Tree>, bits: seq<bool>, found: seq<Ref>, low: SimTime, high: SimTime)
    requires |ts| == |bits| && (forall u :: u in ts ==> u.Node?) && t.Node? && Mh(t.l) < low
    ensures var hit := Hit(t.n, low, high);
      var found', bits' := found + (if hit then [t.n] else []), SetTop(bits, hit);
      var right := Visit(t.r, low, high);
      found + Visit(t, low, high) + Rest(ts, bits, Visit(t, low, high) != [], low, high)
      == found' + right + Rest(ts, bits', right != [], low, high)
  {
    hide Visit, Rest, SetTop, Hit;
    var hit := Hit(t.n, low, high);
    var own, right := if hit then [t.n] else [], Visit(t.r, low, high);
    VisitNode(t, low, high);
    RestSetTop(ts, bits, hit, right != [], low, high);
    assert own + right != [] <==> hit || right != [];
    Regrouped(found, own, [], right, Rest(ts, bits, hit || right != [], low, high));
  }

  /** One entry taken off the stack. */
  lemma RestPops(ts: seq<Tree>, bits: seq<bool>, low: SimTime, high: SimTime)
    requires |ts| == |bits| > 0 && forall u :: u in ts ==> u.Node?
    ensures var k := |ts| - 1;
      Rest(ts, bits, false, low, high) ==
        if bits[k]
        then Visit(ts[k].r, low, high) + Rest(ts[..k], SetTop(bits[..k], true), Visit(ts[k].r, low, high) != [],
          low, high)
        else Rest(ts[..k], bits[..k], false, low, high)
  {
    var k := |ts| - 1;
    RestSetTop(ts[..k], bits[..k], true, Visit(ts[k].r, low, high) != [], low, high);
  }

  // ----- termination -----

  function Weight(t: Tree): nat {
    if t.Leaf? then 0 else 2 + Weight(t.l) + Weight(t.r)
  }

  function Work(ts: seq<Tree>): nat {
    if ts == [] || ts[|ts| - 1].Leaf? then 0 else Work(ts[..|ts| - 1]) + 1 + Weight(ts[|ts| - 1].r)
  }

  lemma WorkPush(ts: seq<Tree>, t: Tree)
    requires (forall u :: u in ts ==> u.Node?) && t.Node?
    ensures Weight(t.l) + Work(ts + [t]) < Weight(t) + Work(ts)
  {
    assert (ts + [t])[..|ts|] == ts;
  }

  lemma WorkPop(ts: seq<Tree>)
    requires ts != [] && forall u :: u in ts ==> u.Node?
    ensures Work(ts) == Work(ts[..|ts| - 1]) + 1 + Weight(ts[|ts| - 1].r)
  {
    assert ts[|ts| - 1] in ts;
  }

  lemma WeightLeaf()
    ensures Weight(Leaf) == 0
  {
  }

  lemma WeightNode(t: Tree)
    requires t.Node?
    ensures Weight(t) == 2 + Weight(t.l) + Weight(t.r)
  {
  }

  lemma RestEmpty(hit: bool, low: SimTime, high: SimTime)
    ensures Rest([], [], hit, low, high) == []
  {
  }

  lemma SetTopOff(bits: seq<bool>)
    ensures SetTop(bits, false) == bits
  {
  }

  /** The intervals a sequence of nodes stores. */
  function StoredBy(s: seq<Ref>): seq<Interval?> {
    seq(|s|, i requires 0 <= i < |s| => s[i].storedInterval)
  }

  lemma StoredAt(s: seq<Ref>)
    ensures |StoredBy(s)| == |s| && forall i :: 0 <= i < |s| ==> StoredBy(s)[i] == s[i].storedInterval
  {
  }

  lemma StoredByAppend(s: seq<Ref>, n: Ref)
    ensures StoredBy(s + [n]) == StoredBy(s) + [n.storedInterval]
  {
  }

  lemma StoredByEmpty()
    ensures StoredBy([]) == []
  {
  }
}
