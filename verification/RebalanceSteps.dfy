/** One step of each rebalancing loop (IntervalTree.cc, insert and deleteFixup), on trees and contexts. */
module RebalanceSteps {
  import opened IntervalNodes
  import opened RedBlackTree
  import opened Powers

  // ----- places inside a tree -----

  function SetL(g: Tree, u: Tree): Tree
    requires g.Node?
  {
    Node(u, g.n, g.red, g.mh, g.r)
  }

  function SetR(g: Tree, u: Tree): Tree
    requires g.Node?
  {
    Node(g.l, g.n, g.red, g.mh, u)
  }

  /** Cutting out a child. */
  function AtLeft(g: Tree): Ctx
    requires g.Node?
  {
    InL(g.n, g.red, g.mh, g.r, Top)
  }

  function AtRight(g: Tree): Ctx
    requires g.Node?
  {
    InR(g.l, g.n, g.red, g.mh, Top)
  }

  lemma PlugAt(g: Tree, u: Tree)
    requires g.Node?
    ensures Plug(Top, u) == u && Plug(AtLeft(g), u) == SetL(g, u) && Plug(AtRight(g), u) == SetR(g, u)
  {
  }

  // ----- what no step changes: the order and the augmentation -----

  predicate SameContent(t: Tree, t': Tree) {
    && Inorder(t) == Inorder(t')
    && (MhOk(t) ==> MhOk(t') && Mh(t') == Mh(t))
  }

  lemma SameContentRefl(t: Tree)
    ensures SameContent(t, t)
  {
  }

  lemma RotateLeftSame(t: Tree)
    requires t.Node? && t.r.Node?
    ensures SameContent(t, RotateLeft(t))
  {
    RotateLeftKeeps(t);
  }

  lemma RotateRightSame(t: Tree)
    requires t.Node? && t.l.Node?
    ensures SameContent(t, RotateRight(t))
  {
    RotateRightKeeps(t);
  }

  lemma SameContentTrans(t: Tree, u: Tree, v: Tree)
    requires SameContent(t, u) && SameContent(u, v)
    ensures SameContent(t, v)
  {
  }

  lemma SameContentNodes(t: Tree, t': Tree)
    requires SameContent(t, t')
    ensures Nodes(t) == Nodes(t')
  {
    InorderNodes(t);
    InorderNodes(t');
  }

  lemma SameContentPlug(d: Ctx, t: Tree, t': Tree)
    requires SameContent(t, t')
    ensures SameContent(Plug(d, t), Plug(d, t'))
  {
    PlugInorder(d, t);
    PlugInorder(d, t');
    PlugMhOk(d, t);
    PlugMhOk(d, t');
    if MhOk(t) { PlugMh(d, t, t'); }
  }

  lemma {:induction false} PlugMh(d: Ctx, t: Tree, t': Tree)
    requires Mh(t) == Mh(t')
    ensures Mh(Plug(d, t)) == Mh(Plug(d, t'))
    decreases d
  {
    if !d.Top? { PlugMh(d.up, Fill(d, t), Fill(d, t')); }
  }

  lemma SameContentSet(g: Tree, u: Tree, u': Tree)
    requires g.Node? && SameContent(u, u')
    ensures SameContent(SetL(g, u), SetL(g, u')) && SameContent(SetR(g, u), SetR(g, u'))
  {
    PlugAt(g, u);
    PlugAt(g, u');
    SameContentPlug(AtLeft(g), u, u');
    SameContentPlug(AtRight(g), u, u');
  }

  lemma SameContentPaint(d: Ctx, t: Tree, red: bool)
    requires t.Node?
    ensures SameContent(Plug(d, t), Plug(d, t.(red := red)))
  {
    SameContentPlug(d, t, t.(red := red));
  }

  lemma SameContentBlacken(d: Ctx, t: Tree, t': Tree)
    requires t' == t || t' == Blacken(t)
    ensures SameContent(Plug(d, t), Plug(d, t'))
  {
    if t' != t { SameContentPaint(d, t, false); }
  }

  /** A node that stores an interval mirrors its ends. */
  predicate Stores(n: Ref) {
    n.storedInterval != null && n.key == n.storedInterval.low && n.high == n.storedInterval.high
  }

  /** All that holds of the tree between two calls, but for the links. */
  predicate ValidTree(t: Tree) {
    RedBlack(t) && MhOk(t) && SortedKeys(Inorder(t)) && forall n :: n in Inorder(t) ==> Stores(n)
  }

  /** s' is s with n put behind every key that is not greater. */
  predicate InsertedAt(s: seq<Ref>, n: Ref, k: int, s': seq<Ref>) {
    && 0 <= k <= |s| && s' == s[..k] + [n] + s[k..]
    && (forall i :: 0 <= i < k ==> s[i].key <= n.key)
    && (forall i :: k <= i < |s| ==> n.key < s[i].key)
  }

  // ----- how high a valid tree can be -----

  function Height(t: Tree): nat {
    if t.Leaf? then 0 else 1 + (if Height(t.l) < Height(t.r) then Height(t.r) else Height(t.l))
  }

  lemma {:induction false} SizeFromBlackHeight(t: Tree)
    requires Balanced(t)
    ensures Pow2(BlackHeight(t)) <= |Inorder(t)| + 1
  {
    if t.Node? {
      SizeFromBlackHeight(t.l);
      SizeFromBlackHeight(t.r);
    }
  }

  lemma {:induction false} HeightFromBlackHeight(t: Tree)
    requires Sub(t)
    ensures Height(t) <= 2 * BlackHeight(t) + (if IsRed(t) then 1 else 0)
  {
    if t.Node? {
      HeightFromBlackHeight(t.l);
      HeightFromBlackHeight(t.r);
    }
  }

  /** A valid tree of n nodes is at most 2 log2(n + 1) high. */
  lemma HeightBound(t: Tree)
    requires RedBlack(t)
    ensures Pow2(Height(t)) <= (|Inorder(t)| + 1) * (|Inorder(t)| + 1)
  {
    var h, n := BlackHeight(t), |Inorder(t)| + 1;
    HeightFromBlackHeight(t);
    SizeFromBlackHeight(t);
    Pow2Grows(Height(t), h + h);
    Pow2Sum(h, h);
    SquareGrows(Pow2(h), n);
  }

  lemma SquareGrows(a: nat, b: nat)
    requires a <= b
    ensures a * a <= b * b
  {
    assert a * a <= a * b <= b * b;
  }

  // ----- insertion: a red node whose parent may be red -----

  predicate InsertInv(c: Ctx, t: Tree) {
    IsRed(t) && Sub(t) && CtxOk(c, BlackHeight(t))
  }

  /** A red parent is never the root. */
  lemma OuterRed(c: Ctx, t: Tree)
    requires InsertInv(c, t) && CtxRed(c)
    ensures !c.up.Top?
  {
  }

  /** A red uncle: the grandparent turns red and becomes the node to look at. */
  lemma InsertRecolours(c: Ctx, t: Tree, uncle: Tree)
    requires InsertInv(c, t) && CtxRed(c) && uncle == Sibling(c.up) && IsRed(uncle)
    ensures var p, u := Painted(Fill(c, t), false), Painted(uncle, false);
      InsertInv(c.up.up, if c.up.InL? then Node(p, c.up.n, true, c.up.mh, u) else Node(u, c.up.n, true, c.up.mh, p))
  {
    var p := Painted(Fill(c, t), false);
    assert CtxOk(c.up, BlackHeight(t));
    assert Sub(p) && BlackHeight(p) == BlackHeight(t) + 1;
    assert Sub(Painted(uncle, false));
  }

  /** A black uncle, the node on the outer side: rotating the black grandparent ends the repair. */
  lemma InsertRotatesRight(c: Ctx, t: Tree)
    requires InsertInv(c, t) && c.InL? && c.red && c.up.InL? && !IsRed(c.up.r)
    ensures var g := Node(Painted(Fill(c, t), false), c.up.n, true, c.up.mh, c.up.r);
      var r := RotateRight(g);
      InsertInv(InL(r.n, r.red, r.mh, r.r, c.up.up), r.l) && r.l == t && !r.red
  {
    var p := Painted(Fill(c, t), false);
    assert CtxOk(c.up, BlackHeight(t));
    assert Sub(p) && BlackHeight(p) == BlackHeight(t) + 1;
    var g := Node(p, c.up.n, true, c.up.mh, c.up.r);
    assert Sub(RotateRight(g).r) && BlackHeight(RotateRight(g).r) == BlackHeight(t);
  }

  lemma InsertRotatesLeft(c: Ctx, t: Tree)
    requires InsertInv(c, t) && c.InR? && c.red && c.up.InR? && !IsRed(c.up.l)
    ensures var g := Node(c.up.l, c.up.n, true, c.up.mh, Painted(Fill(c, t), false));
      var r := RotateLeft(g);
      InsertInv(InR(r.l, r.n, r.red, r.mh, c.up.up), r.r) && r.r == t && !r.red
  {
    var p := Painted(Fill(c, t), false);
    assert CtxOk(c.up, BlackHeight(t));
    assert Sub(p) && BlackHeight(p) == BlackHeight(t) + 1;
    var g := Node(c.up.l, c.up.n, true, c.up.mh, p);
    assert Sub(RotateLeft(g).l) && BlackHeight(RotateLeft(g).l) == BlackHeight(t);
  }

  /** The node on the inner side: rotating its parent first brings it outside. */
  lemma InsertTurnsLeft(c: Ctx, t: Tree)
    requires InsertInv(c, t) && c.InR? && c.red
    ensures var r := RotateLeft(Fill(c, t));
      InsertInv(InL(r.n, r.red, r.mh, r.r, c.up), r.l) && r.red
  {
  }

  lemma InsertTurnsRight(c: Ctx, t: Tree)
    requires InsertInv(c, t) && c.InL? && c.red
    ensures var r := RotateRight(Fill(c, t));
      InsertInv(InR(r.l, r.n, r.red, r.mh, c.up), r.r) && r.red
  {
  }

  lemma ValidParts(t: Tree)
    requires ValidTree(t)
    ensures RedBlack(t) && MhOk(t) && SortedKeys(Inorder(t))
  {
  }

  /** What the repair starts from: z hung red into a hole of a valid tree, `maxHigh` walked up. */
  lemma InsertStarts(c0: Ctx, z: Ref)
    requires ValidTree(Plug(c0, Leaf))
    ensures var c, t := FixMax(c0, z.high), Node(Leaf, z, true, z.high, Leaf);
      && InsertInv(c, t) && MhOk(Plug(c, t))
      && Nodes(Plug(c, t)) == Nodes(Plug(c0, Leaf)) + {z}
  {
    hide ValidTree;
    ValidParts(Plug(c0, Leaf));
    var c, t := FixMax(c0, z.high), Node(Leaf, z, true, z.high, Leaf);
    UnplugRedBlack(c0, Leaf);
    FixMaxKeeps(c0, z.high, 0);
    PlugMhOk(c0, Leaf);
    CtxMhOkSiblings(c0, Mh(Leaf));
    FixMaxOk(c0, z.high);
    PlugMhOk(c, t);
    PlugNodes(c, t);
    PlugNodes(c0, Leaf);
  }

  lemma InsertedBetween(b: seq<Ref>, z: Ref, a: seq<Ref>)
    requires forall n :: n in b ==> n.key <= z.key
    requires forall n :: n in a ==> z.key < n.key
    ensures InsertedAt(b + a, z, |b|, b + [z] + a)
  {
    var s := b + a;
    assert s[..|b|] == b && s[|b|..] == a;
  }

  /** Where z then stands. */
  lemma InsertPlace(c0: Ctx, z: Ref)
    requires SortedKeys(Inorder(Plug(c0, Leaf))) && KeyPath(c0, z.key)
    ensures var s := Inorder(Plug(FixMax(c0, z.high), Node(Leaf, z, true, z.high, Leaf)));
      InsertedAt(Inorder(Plug(c0, Leaf)), z, |Before(c0)|, s) && SortedKeys(s)
  {
    hide Plug, Inorder, Before, After, FixMax, InsertedAt, KeyPath, SortedKeys;
    InsertOrder(c0, z);
    KeyPathSorted(c0, z);
    KeyPathSplits(c0, z.key);
    InsertedBetween(Before(c0), z, After(c0));
  }

  lemma InsertOrder(c0: Ctx, z: Ref)
    ensures Inorder(Plug(c0, Leaf)) == Before(c0) + After(c0)
    ensures Inorder(Plug(FixMax(c0, z.high), Node(Leaf, z, true, z.high, Leaf))) == Before(c0) + [z] + After(c0)
  {
    hide Plug, FixMax, Before, After;
    var t := Node(Leaf, z, true, z.high, Leaf);
    PlugInorder(c0, Leaf);
    FixMaxKeeps(c0, z.high, 0);
    PlugInorder(FixMax(c0, z.high), t);
    assert Inorder(t) == [z];
  }

  /** The repaired tree is what the insertion promised. */
  lemma InsertEnds(c0: Ctx, z: Ref, r: Tree)
    requires ValidTree(Plug(c0, Leaf)) && KeyPath(c0, z.key) && RedBlack(r) && Stores(z)
    requires SameContent(Plug(FixMax(c0, z.high), Node(Leaf, z, true, z.high, Leaf)), r)
    ensures ValidTree(r) && Nodes(r) == Nodes(Plug(c0, Leaf)) + {z}
    ensures InsertedAt(Inorder(Plug(c0, Leaf)), z, |Before(c0)|, Inorder(r))
  {
    InsertStarts(c0, z);
    InsertPlace(c0, z);
    SameContentNodes(Plug(FixMax(c0, z.high), Node(Leaf, z, true, z.high, Leaf)), r);
  }

  lemma InsertDone(c: Ctx, t: Tree)
    requires InsertInv(c, t) && !CtxRed(c)
    ensures Plug(c, t).Node? && RedBlack(Painted(Plug(c, t), false))
  {
    PlugRedBlack(c, t);
    PlugNode(c, t);
  }

  lemma {:induction false} PlugNode(c: Ctx, t: Tree)
    requires t.Node?
    ensures Plug(c, t).Node?
    decreases c
  {
    if !c.Top? { PlugNode(c.up, Fill(c, t)); }
  }

  // ----- deletion: a subtree one black node short -----

  predicate DeleteInv(c: Ctx, t: Tree) {
    Sub(Blacken(t)) && Balanced(t) && CtxOk(c, BlackHeight(t) + 1)
  }

  lemma DeleteOuter(c: Ctx, t: Tree)
    requires DeleteInv(c, t)
    ensures CtxOk(c, BlackHeight(t) + 1)
    ensures !c.Top? ==> CtxOk(c.up, if c.red then BlackHeight(t) + 1 else BlackHeight(t) + 2)
  {
  }

  /** A black node that is short has a sibling. */
  lemma DeleteHasSibling(c: Ctx, t: Tree)
    requires DeleteInv(c, t) && !c.Top?
    ensures Sibling(c).Node?
    ensures IsRed(Sibling(c)) ==> Sibling(c).l.Node? && Sibling(c).r.Node?
  {
  }

  /** Case 1, a red sibling: a rotation gives the node a black one. */
  lemma DeleteRotatesLeft(c: Ctx, t: Tree)
    requires DeleteInv(c, t) && !IsRed(t) && c.InL? && IsRed(c.r)
    ensures var r := RotateLeft(Node(t, c.n, true, c.mh, c.r.(red := false)));
      && r.l.l == t && !IsRed(r.l.r)
      && DeleteInv(InL(r.l.n, r.l.red, r.l.mh, r.l.r, InL(r.n, r.red, r.mh, r.r, c.up)), t)
  {
  }

  lemma DeleteRotatesRight(c: Ctx, t: Tree)
    requires DeleteInv(c, t) && !IsRed(t) && c.InR? && IsRed(c.l)
    ensures var r := RotateRight(Node(c.l.(red := false), c.n, true, c.mh, t));
      && r.r.r == t && !IsRed(r.r.l)
      && DeleteInv(InR(r.r.l, r.r.n, r.r.red, r.r.mh, InR(r.l, r.n, r.red, r.mh, c.up)), t)
  {
  }

  /** Case 2, a black sibling with black children: it turns red and the parent is short instead. */
  lemma DeleteRecolours(c: Ctx, t: Tree)
    requires DeleteInv(c, t) && !IsRed(t) && !c.Top?
    requires var w := Sibling(c); w.Node? && !w.red && !IsRed(w.l) && !IsRed(w.r)
    ensures var w := Sibling(c).(red := true);
      DeleteInv(c.up, if c.InL? then Node(t, c.n, c.red, c.mh, w) else Node(w, c.n, c.red, c.mh, t))
  {
    var w := Sibling(c);
    assert Sub(w.l) && Sub(w.r) && Sub(w.(red := true)) && BlackHeight(w.(red := true)) == BlackHeight(t);
    assert Sub(t);
  }

  /** Case 3, only the near nephew is red: a rotation makes the far one red. */
  lemma DeleteTurnsRight(c: Ctx, t: Tree)
    requires DeleteInv(c, t) && c.InL? && c.r.Node? && !c.r.red && IsRed(c.r.l) && !IsRed(c.r.r)
    ensures var w := RotateRight(c.r.(red := true, l := c.r.l.(red := false)));
      DeleteInv(c.(r := w), t) && !w.red && IsRed(w.r)
  {
    var w := c.r;
    assert Sub(w.l) && Sub(w.l.l) && Sub(w.l.r) && Sub(w.r);
    var g := w.(red := true, l := w.l.(red := false));
    assert Sub(RotateRight(g).r);
  }

  lemma DeleteTurnsLeft(c: Ctx, t: Tree)
    requires DeleteInv(c, t) && c.InR? && c.l.Node? && !c.l.red && IsRed(c.l.r) && !IsRed(c.l.l)
    ensures var w := RotateLeft(c.l.(red := true, r := c.l.r.(red := false)));
      DeleteInv(c.(l := w), t) && !w.red && IsRed(w.l)
  {
    var w := c.l;
    assert Sub(w.r) && Sub(w.r.l) && Sub(w.r.r) && Sub(w.l);
    var g := w.(red := true, r := w.r.(red := false));
    assert Sub(RotateLeft(g).l) && BlackHeight(RotateLeft(g).l) == BlackHeight(w.l);
  }

  /** Case 4, the far nephew is red: one rotation makes up for the missing black node. */
  lemma DeleteEndsLeft(c: Ctx, t: Tree)
    requires DeleteInv(c, t) && !IsRed(t) && c.InL? && c.r.Node? && !c.r.red && IsRed(c.r.r)
    ensures var w := c.r.(red := c.red, r := c.r.r.(red := false));
      RedBlack(Plug(c.up, RotateLeft(Node(t, c.n, false, c.mh, w))))
  {
    var w := c.r.(red := c.red, r := c.r.r.(red := false));
    assert Sub(c.r) && Sub(c.r.l) && Sub(c.r.r) && Sub(w.r) && Sub(t);
    var r := RotateLeft(Node(t, c.n, false, c.mh, w));
    assert Sub(r.l) && BlackHeight(r.l) == BlackHeight(t) + 1;
    PlugRedBlack(c.up, r);
  }

  lemma DeleteEndsRight(c: Ctx, t: Tree)
    requires DeleteInv(c, t) && !IsRed(t) && c.InR? && c.l.Node? && !c.l.red && IsRed(c.l.l)
    ensures var w := c.l.(red := c.red, l := c.l.l.(red := false));
      RedBlack(Plug(c.up, RotateRight(Node(w, c.n, false, c.mh, t))))
  {
    var w := c.l.(red := c.red, l := c.l.l.(red := false));
    assert Sub(c.l) && Sub(c.l.l) && Sub(c.l.r) && Sub(w.l) && Sub(t);
    var r := RotateRight(Node(w, c.n, false, c.mh, t));
    assert Sub(r.r) && BlackHeight(r.r) == BlackHeight(t) + 1;
    PlugRedBlack(c.up, r);
  }

  lemma DeleteDone(c: Ctx, t: Tree)
    requires DeleteInv(c, t) && (IsRed(t) || c.Top?)
    ensures RedBlack(Plug(c, Blacken(t)))
  {
    PlugRedBlack(c, Blacken(t));
  }
}
