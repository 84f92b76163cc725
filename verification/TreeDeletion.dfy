/** What deletion (IntervalTree.cc, deleteNode) takes out of a tree, and where neighbours in key order are. */
module TreeDeletion {
  import opened Options
  import opened IntervalNodes
  import opened RedBlackTree
  import opened RebalanceSteps

  // ----- the least node of a tree -----

  function MinTree(t: Tree): (m: Tree)
    requires t.Node?
    ensures m.Node? && m.l.Leaf?
  {
    if t.l.Leaf? then t else MinTree(t.l)
  }

  function MinCtx(t: Tree): Ctx
    requires t.Node?
  {
    if t.l.Leaf? then Top else Append(MinCtx(t.l), InL(t.n, t.red, t.mh, t.r, Top))
  }

  lemma {:induction false} PlugMin(t: Tree)
    requires t.Node?
    ensures Plug(MinCtx(t), MinTree(t)) == t && Before(MinCtx(t)) == []
  {
    if t.l.Node? {
      var step := InL(t.n, t.red, t.mh, t.r, Top);
      PlugMin(t.l);
      PlugAppend(MinCtx(t.l), step, MinTree(t.l));
      BeforeAppend(MinCtx(t.l), step);
    }
  }

  lemma {:induction false} BeforeAppend(inner: Ctx, outer: Ctx)
    ensures Before(Append(inner, outer)) == Before(outer) + Before(inner)
    ensures After(Append(inner, outer)) == After(inner) + After(outer)
    decreases inner
  {
    if !inner.Top? { BeforeAppend(inner.up, outer); }
  }

  /** Any node of a tree can be brought into focus. */
  lemma {:induction false} FindNode(t: Tree, z: Ref) returns (c: Ctx, u: Tree)
    requires z in Nodes(t)
    ensures Plug(c, u) == t && u.Node? && u.n == z
    decreases t
  {
    if t.n == z {
      return Top, t;
    } else if z in Nodes(t.l) {
      c, u := FindNode(t.l, z);
      var step := InL(t.n, t.red, t.mh, t.r, Top);
      PlugAppend(c, step, u);
      c := Append(c, step);
    } else {
      c, u := FindNode(t.r, z);
      var step := InR(t.l, t.n, t.red, t.mh, Top);
      PlugAppend(c, step, u);
      c := Append(c, step);
    }
  }

  // ----- neighbours in key order -----

  /** The first step on the way up that leaves a left subtree. */
  function NextUp(c: Ctx): Option<Ref> {
    match c
    case Top => None
    case InL(n, _, _, _, _) => Some(n)
    case InR(_, _, _, _, up) => NextUp(up)
  }

  function PreviousUp(c: Ctx): Option<Ref> {
    match c
    case Top => None
    case InL(_, _, _, _, up) => PreviousUp(up)
    case InR(_, n, _, _, _) => Some(n)
  }

  lemma {:induction false} NextUpIs(c: Ctx)
    ensures NextUp(c) == if After(c) == [] then None else Some(After(c)[0])
    decreases c
  {
    if c.InR? { NextUpIs(c.up); }
  }

  lemma {:induction false} PreviousUpIs(c: Ctx)
    ensures PreviousUp(c) == if Before(c) == [] then None else Some(Before(c)[|Before(c)| - 1])
    decreases c
  {
    if c.InL? { PreviousUpIs(c.up); }
  }

  function MaxNode(t: Tree): Ref
    requires t.Node?
  {
    if t.r.Leaf? then t.n else MaxNode(t.r)
  }

  function Successor(c: Ctx, t: Tree): Option<Ref>
    requires t.Node?
  {
    if t.r.Node? then Some(MinTree(t.r).n) else NextUp(c)
  }

  function Predecessor(c: Ctx, t: Tree): Option<Ref>
    requires t.Node?
  {
    if t.l.Node? then Some(MaxNode(t.l)) else PreviousUp(c)
  }

  lemma {:induction false} MinIsFirst(t: Tree)
    requires t.Node?
    ensures Inorder(t)[0] == MinTree(t).n
  {
    if t.l.Node? { MinIsFirst(t.l); }
  }

  lemma {:induction false} MaxIsLast(t: Tree)
    requires t.Node?
    ensures Inorder(t)[|Inorder(t)| - 1] == MaxNode(t)
  {
    if t.r.Node? { MaxIsLast(t.r); }
  }

  lemma NeighbourIndices(b: seq<Ref>, l: seq<Ref>, n: Ref, r: seq<Ref>, a: seq<Ref>)
    ensures var s, k := b + (l + [n] + r) + a, |b| + |l|;
      && k < |s| && s[k] == n
      && (k + 1 < |s| <==> r != [] || a != [])
      && (r != [] ==> s[k + 1] == r[0])
      && (r == [] && a != [] ==> s[k + 1] == a[0])
      && (k > 0 <==> l != [] || b != [])
      && (l != [] ==> s[k - 1] == l[|l| - 1])
      && (l == [] && b != [] ==> s[k - 1] == b[|b| - 1])
  {
  }

  lemma InorderParts(t: Tree)
    ensures Inorder(t) == if t.Leaf? then [] else Inorder(t.l) + [t.n] + Inorder(t.r)
  {
  }

  /** The node in focus has an index, and its neighbours have the indices beside it. */
  lemma Neighbours(c: Ctx, t: Tree)
    requires t.Node?
    ensures var s, k := Inorder(Plug(c, t)), |Before(c)| + |Inorder(t.l)|;
      && k < |s| && s[k] == t.n
      && Successor(c, t) == (if k + 1 < |s| then Some(s[k + 1]) else None)
      && Predecessor(c, t) == (if k > 0 then Some(s[k - 1]) else None)
  {
    hide Plug, Before, After, NextUp, PreviousUp, MinTree, MaxNode, Inorder;
    PlugInorder(c, t);
    InorderParts(t);
    InorderParts(t.l);
    InorderParts(t.r);
    NextUpIs(c);
    PreviousUpIs(c);
    if t.r.Node? { MinIsFirst(t.r); }
    if t.l.Node? { MaxIsLast(t.l); }
    NeighbourIndices(Before(c), Inorder(t.l), t.n, Inorder(t.r), After(c));
  }

  // ----- taking a node out -----

  /** s' is s without its element number k, which is z. */
  predicate RemovedAt(s: seq<Ref>, z: Ref, k: int, s': seq<Ref>) {
    0 <= k < |s| && s[k] == z && s' == s[..k] + s[k + 1..]
  }

  lemma RemovedKeeps(s: seq<Ref>, z: Ref, k: int, s': seq<Ref>)
    requires RemovedAt(s, z, k, s') && SortedKeys(s) && forall n :: n in s ==> Stores(n)
    ensures SortedKeys(s') && forall n :: n in s' ==> Stores(n)
  {
    forall i, j | 0 <= i < j < |s'| ensures s'[i].key <= s'[j].key {
      assert s'[i] == s[if i < k then i else i + 1] && s'[j] == s[if j < k then j else j + 1];
    }
  }

  /** The only child of a node that has at most one. */
  function OnlyChild(t: Tree): Tree
    requires t.Node?
  {
    if t.l.Leaf? then t.r else t.l
  }

  lemma RemovedBetween(b: seq<Ref>, l: seq<Ref>, z: Ref, r: seq<Ref>, a: seq<Ref>)
    ensures RemovedAt(b + (l + [z] + r) + a, z, |b| + |l|, b + (l + r) + a)
  {
    var s, k := b + (l + [z] + r) + a, |b| + |l|;
    assert s[..k] == b + l && s[k + 1..] == r + a;
  }

  /** A node with at most one child: that child takes its place, and `maxHigh` is walked up from there. */
  lemma SpliceMh(c: Ctx, t: Tree)
    requires t.Node? && (t.l.Leaf? || t.r.Leaf?) && MhOk(Plug(c, t))
    ensures MhOk(Plug(FixMax(c, Mh(OnlyChild(t))), OnlyChild(t)))
  {
    var u := OnlyChild(t);
    PlugMhOk(c, t);
    CtxMhOkSiblings(c, Mh(t));
    FixMaxOk(c, Mh(u));
    PlugMhOk(FixMax(c, Mh(u)), u);
  }

  lemma SpliceInorder(c: Ctx, t: Tree, m: SimTime)
    requires t.Node? && (t.l.Leaf? || t.r.Leaf?)
    ensures var b, l, r, a := Before(c), Inorder(t.l), Inorder(t.r), After(c);
      && Inorder(Plug(c, t)) == b + (l + [t.n] + r) + a
      && Inorder(Plug(FixMax(c, m), OnlyChild(t))) == b + (l + r) + a
  {
    var u := OnlyChild(t);
    PlugInorder(c, t);
    PlugInorder(FixMax(c, m), u);
    FixMaxKeeps(c, m, 0);
    assert Inorder(u) == Inorder(t.l) + Inorder(t.r);
  }

  lemma SpliceRemoves(c: Ctx, t: Tree, m: SimTime)
    requires t.Node? && (t.l.Leaf? || t.r.Leaf?)
    ensures RemovedAt(Inorder(Plug(c, t)), t.n, |Before(c)| + |Inorder(t.l)|, Inorder(Plug(FixMax(c, m), OnlyChild(t))))
  {
    hide Plug, Inorder, Before, After, FixMax, RemovedAt, Promoted, MinTree;
    SpliceInorder(c, t, m);
    RemovedBetween(Before(c), Inorder(t.l), t.n, Inorder(t.r), After(c));
  }

  /** Its colour decides whether the context is one black node short. */
  lemma SpliceColours(c: Ctx, t: Tree, m: SimTime)
    requires t.Node? && (t.l.Leaf? || t.r.Leaf?) && ValidTree(Plug(c, t))
    ensures var u, c' := OnlyChild(t), FixMax(c, m);
      if t.red then RedBlack(Plug(c', u)) else DeleteInv(c', u)
  {
    var u, c' := OnlyChild(t), FixMax(c, m);
    UnplugRedBlack(c, t);
    FixMaxKeeps(c, m, BlackHeight(t));
    assert Sub(u) && BlackHeight(u) == BlackHeight(t.l);
    if t.red {
      PlugRedBlack(c', u);
    } else {
      assert Sub(Blacken(u));
    }
  }

  // ----- a node with two children: its successor takes its place -----

  /** The way up from the successor's old place, once the successor stands in the place of t's top node. */
  function Promoted(c: Ctx, t: Tree, red: bool): Ctx
    requires t.Node? && t.r.Node?
  {
    Append(MinCtx(t.r), InR(t.l, MinTree(t.r).n, red, NIL_TIME, c))
  }

  lemma {:induction false} SiblingsAppend(inner: Ctx, outer: Ctx)
    ensures SiblingsMhOk(Append(inner, outer)) <==> SiblingsMhOk(inner) && SiblingsMhOk(outer)
    decreases inner
  {
    if !inner.Top? { SiblingsAppend(inner.up, outer); }
  }

  /** Neither the node nor its `maxHigh` matters to the colours. */
  lemma {:induction false} CtxOkAppend(inner: Ctx, o: Ctx, o': Ctx, h: nat)
    requires o.InR? && o'.InR? && o.l == o'.l && o.red == o'.red && o.up == o'.up
    ensures CtxOk(Append(inner, o), h) ==> CtxOk(Append(inner, o'), h)
    ensures CtxRed(Append(inner, o)) == CtxRed(Append(inner, o'))
    decreases inner
  {
    if !inner.Top? { CtxOkAppend(inner.up, o, o', if inner.red then h else h + 1); }
  }

  lemma PromoteInorder(c: Ctx, t: Tree, v: SimTime)
    requires t.Node? && t.r.Node?
    ensures var b, l, r, a := Before(c), Inorder(t.l), Inorder(t.r), After(c);
      && Inorder(Plug(c, t)) == b + (l + [t.n] + r) + a
      && Inorder(Plug(FixMax(Promoted(c, t, t.red), v), MinTree(t.r).r)) == b + (l + r) + a
  {
    PlugInorder(c, t);
    var y := MinTree(t.r);
    var m, o, p := MinCtx(t.r), InR(t.l, y.n, t.red, NIL_TIME, c), Promoted(c, t, t.red);
    PlugMin(t.r);
    PlugInorder(m, y);
    BeforeAppend(m, o);
    PlugInorder(FixMax(p, v), y.r);
    FixMaxKeeps(p, v, 0);
    assert Inorder(y) == [y.n] + Inorder(y.r);
    PromoteRegroup(Before(c), Inorder(t.l), y.n, Inorder(y.r), After(m), After(c));
  }

  lemma PromoteRegroup(b: seq<Ref>, l: seq<Ref>, y: Ref, u: seq<Ref>, m: seq<Ref>, a: seq<Ref>)
    ensures (b + l + [y] + []) + u + (m + a) == b + (l + ([] + ([y] + u) + m)) + a
  {
  }

  lemma PromoteMh(c: Ctx, t: Tree)
    requires t.Node? && t.r.Node? && MhOk(Plug(c, t))
    ensures var u := MinTree(t.r).r; MhOk(Plug(FixMax(Promoted(c, t, t.red), Mh(u)), u))
  {
    var y, m := MinTree(t.r), MinCtx(t.r);
    PlugMin(t.r);
    PlugMhOk(c, t);
    PlugMhOk(m, y);
    CtxMhOkSiblings(c, Mh(t));
    CtxMhOkSiblings(m, Mh(y));
    SiblingsAppend(m, InR(t.l, y.n, t.red, NIL_TIME, c));
    var p := Promoted(c, t, t.red);
    FixMaxOk(p, Mh(y.r));
    PlugMhOk(FixMax(p, Mh(y.r)), y.r);
  }

  lemma PromoteRemoves(c: Ctx, t: Tree, v: SimTime)
    requires t.Node? && t.r.Node?
    ensures RemovedAt(Inorder(Plug(c, t)), t.n, |Before(c)| + |Inorder(t.l)|,
                      Inorder(Plug(FixMax(Promoted(c, t, t.red), v), MinTree(t.r).r)))
  {
    hide Plug, Inorder, Before, After, FixMax, RemovedAt, Promoted, MinTree;
    PromoteInorder(c, t, v);
    RemovedBetween(Before(c), Inorder(t.l), t.n, Inorder(t.r), After(c));
  }

  lemma PromoteColours(c: Ctx, t: Tree, v: SimTime)
    requires t.Node? && t.r.Node? && ValidTree(Plug(c, t))
    ensures var y := MinTree(t.r);
      var c' := FixMax(Promoted(c, t, t.red), v);
      if y.red then RedBlack(Plug(c', y.r)) else DeleteInv(c', y.r)
  {
    var y, m := MinTree(t.r), MinCtx(t.r);
    var o, p := InR(t.l, t.n, t.red, t.mh, c), Promoted(c, t, t.red);
    var c' := FixMax(p, v);
    PlugMin(t.r);
    PlugAppend(m, o, y);
    assert Plug(Append(m, o), y) == Plug(c, t);
    UnplugRedBlack(Append(m, o), y);
    CtxOkAppend(m, o, InR(t.l, y.n, t.red, NIL_TIME, c), BlackHeight(y));
    FixMaxKeeps(p, v, BlackHeight(y));
    assert Sub(y.r) && BlackHeight(y.r) == 0 == BlackHeight(y.l);
    if y.red {
      PlugRedBlack(c', y.r);
      assert !c'.Top?;
    } else {
      assert Sub(Blacken(y.r));
    }
  }

  /** The `maxHigh` that arrives at the end of a walk. */
  function EndMax(c: Ctx, m: SimTime): SimTime
    decreases c
  {
    if c.Top? then m else EndMax(c.up, Max(c.n.high, Max(m, Mh(Sibling(c)))))
  }

  lemma {:induction false} FixMaxAppend(inner: Ctx, outer: Ctx, m: SimTime)
    ensures FixMax(Append(inner, outer), m) == Append(FixMax(inner, m), FixMax(outer, EndMax(inner, m)))
    decreases inner
  {
    if !inner.Top? { FixMaxAppend(inner.up, outer, Max(inner.n.high, Max(m, Mh(Sibling(inner))))); }
  }

  // ----- the result -----

  /** A tree of the same order and augmentation as `mid`, which has one node of a valid tree less. */
  lemma DeletionEnds(t: Tree, z: Ref, k: int, mid: Tree, r: Tree)
    requires ValidTree(t) && MhOk(mid) && RemovedAt(Inorder(t), z, k, Inorder(mid))
    requires SameContent(mid, r) && RedBlack(r)
    ensures ValidTree(r) && RemovedAt(Inorder(t), z, k, Inorder(r))
  {
    hide RemovedAt, Inorder, SortedKeys, MhOk, RedBlack, Stores;
    RemovedKeeps(Inorder(t), z, k, Inorder(r));
  }

  /** r is the valid tree that is left of t without its node number k, which is z. */
  predicate Deleted(t: Tree, z: Ref, k: int, r: Tree) {
    ValidTree(r) && RemovedAt(Inorder(t), z, k, Inorder(r))
  }

  lemma SpliceEnds(c: Ctx, t: Tree, r: Tree)
    requires t.Node? && (t.l.Leaf? || t.r.Leaf?) && ValidTree(Plug(c, t)) && RedBlack(r)
    requires SameContent(Plug(FixMax(c, Mh(OnlyChild(t))), OnlyChild(t)), r)
    ensures Deleted(Plug(c, t), t.n, |Before(c)| + |Inorder(t.l)|, r)
  {
    hide Plug, Inorder, Before, FixMax, RemovedAt, OnlyChild, SameContent, MhOk, RedBlack, SortedKeys, Stores;
    SpliceMh(c, t);
    SpliceRemoves(c, t, Mh(OnlyChild(t)));
    DeletionEnds(Plug(c, t), t.n, |Before(c)| + |Inorder(t.l)|, Plug(FixMax(c, Mh(OnlyChild(t))), OnlyChild(t)), r);
  }

  lemma PromoteEnds(c: Ctx, t: Tree, r: Tree)
    requires t.Node? && t.r.Node? && ValidTree(Plug(c, t)) && RedBlack(r)
    requires var u := MinTree(t.r).r; SameContent(Plug(FixMax(Promoted(c, t, t.red), Mh(u)), u), r)
    ensures Deleted(Plug(c, t), t.n, |Before(c)| + |Inorder(t.l)|, r)
  {
    hide Plug, Inorder, Before, FixMax, RemovedAt, Promoted, MinTree, SameContent, MhOk, RedBlack, SortedKeys, Stores;
    var u := MinTree(t.r).r;
    PromoteMh(c, t);
    PromoteRemoves(c, t, Mh(u));
    DeletionEnds(Plug(c, t), t.n, |Before(c)| + |Inorder(t.l)|, Plug(FixMax(Promoted(c, t, t.red), Mh(u)), u), r);
  }

  /** Taking a node out of a tree without repetitions takes it out of the set of nodes. */
  lemma RemovedNodes(t: Tree, z: Ref, k: int, r: Tree)
    requires Distinct(t) && RemovedAt(Inorder(t), z, k, Inorder(r))
    ensures Nodes(r) == Nodes(t) - {z}
  {
    hide RemovedAt, NoRepeats, Inorder, Nodes;
    InorderNodes(t);
    InorderNodes(r);
    DistinctInorder(t);
    RemovedMembers(Inorder(t), z, k, Inorder(r));
  }

  lemma RemovedMembers(s: seq<Ref>, z: Ref, k: int, s': seq<Ref>)
    requires NoRepeats(s) && RemovedAt(s, z, k, s')
    ensures (set n | n in s') == (set n | n in s) - {z}
  {
    forall n | n in s && n != z ensures n in s' {
      var i :| 0 <= i < |s| && s[i] == n;
      assert s'[if i < k then i else i - 1] == n;
    }
    forall n | n in s' ensures n in s && n != z {
      var i :| 0 <= i < |s'| && s'[i] == n;
      assert s[if i < k then i else i + 1] == n;
    }
  }

  predicate NoRepeats(s: seq<Ref>) {
    forall i, j :: 0 <= i < j < |s| ==> s[i] != s[j]
  }

  lemma NoRepeatsBetween(a: seq<Ref>, n: Ref, b: seq<Ref>)
    requires NoRepeats(a) && NoRepeats(b) && n !in a && n !in b
    requires forall m :: m in a ==> m !in b
    ensures NoRepeats(a + [n] + b)
  {
    var s := a + [n] + b;
    forall i, j | 0 <= i < j < |s| ensures s[i] != s[j] {
      assert i < |a| ==> s[i] == a[i] && s[i] in a;
      assert j > |a| ==> s[j] == b[j - |a| - 1] && s[j] in b;
      assert i > |a| ==> s[i] == b[i - |a| - 1];
    }
  }

  lemma {:induction false} DistinctInorder(t: Tree)
    requires Distinct(t)
    ensures NoRepeats(Inorder(t))
  {
    if t.Node? {
      DistinctInorder(t.l);
      DistinctInorder(t.r);
      InorderNodes(t.l);
      InorderNodes(t.r);
      forall m | m in Inorder(t.l) ensures m !in Inorder(t.r) {
        assert m in Nodes(t.l);
      }
      NoRepeatsBetween(Inorder(t.l), t.n, Inorder(t.r));
    }
  }

  /** `fixupMaxHigh` passes the promoted node on its way up. */
  lemma PromotedFixed(c: Ctx, t: Tree, red: bool, v: SimTime)
    requires t.Node? && t.r.Node?
    ensures var m, y := MinCtx(t.r), MinTree(t.r).n;
      var v' := Max(y.high, Max(EndMax(m, v), Mh(t.l)));
      FixMax(Promoted(c, t, red), v) == Append(FixMax(m, v), InR(t.l, y, red, v', FixMax(c, v')))
  {
    FixMaxAppend(MinCtx(t.r), InR(t.l, MinTree(t.r).n, red, NIL_TIME, c), v);
  }

  /** A node with a right child is not its own successor. */
  lemma SuccessorInside(c: Ctx, t: Tree)
    requires t.Node? && t.r.Node? && Distinct(t)
    ensures Successor(c, t) == Some(MinTree(t.r).n) && MinTree(t.r).n != t.n
  {
    PlugMin(t.r);
    PlugNodes(MinCtx(t.r), MinTree(t.r));
    assert MinTree(t.r).n in Nodes(MinTree(t.r));
  }

  lemma MinOnlyChild(t: Tree)
    requires t.Node?
    ensures OnlyChild(MinTree(t)) == MinTree(t).r && MinTree(t).l.Leaf?
  {
  }

  /** Neither the colour nor `maxHigh` changes which node is innermost. */
  lemma PromotedPar(c: Ctx, t: Tree, red: bool, red': bool, v: SimTime)
    requires t.Node? && t.r.Node?
    ensures var p, p' := Promoted(c, t, red), FixMax(Promoted(c, t, red'), v);
      !p.Top? && !p'.Top? && p.n == p'.n
  {
    var m, y := MinCtx(t.r), MinTree(t.r).n;
    FixMaxSame(Promoted(c, t, red'), v);
    assert m.Top? || (Append(m, InR(t.l, y, red, NIL_TIME, c)).n == m.n
      && Append(m, InR(t.l, y, red', NIL_TIME, c)).n == m.n);
  }

  lemma DeletedNodes(t: Tree, z: Ref, k: int, r: Tree)
    requires Distinct(t) && Deleted(t, z, k, r)
    ensures Nodes(r) == Nodes(t) - {z} && ValidTree(r) && RemovedAt(Inorder(t), z, k, Inorder(r))
  {
    hide RemovedAt, Inorder, Nodes, ValidTree, Distinct;
    RemovedNodes(t, z, k, r);
  }

  // ----- looking for an interval -----

  /** The first node in preorder that stores this very interval. */
  function FindStored(t: Tree, ivl: Interval): (r: Option<Ref>)
    ensures r.Some? ==> r.value in Nodes(t) && r.value.storedInterval == ivl
    ensures r.None? ==> forall n :: n in Nodes(t) ==> n.storedInterval != ivl
  {
    if t.Leaf? then None
    else if t.n.storedInterval == ivl then Some(t.n)
    else
      var left := FindStored(t.l, ivl);
      if left.Some? then left else FindStored(t.r, ivl)
  }
}
