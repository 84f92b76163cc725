/**
 * The value a linked interval tree stands for, and a tree with one subtree cut out (a context), with everything
 * about them that does not depend on the heap: order, colours, black heights and the `maxHigh` augmentation.
 */
module RedBlackTree {
  import opened IntervalNodes

  type Ref = IntervalTreeNode

  /** `red` and `mh` stand for the fields of the node `n`. */
  datatype Tree = Leaf | Node(l: Tree, n: Ref, red: bool, mh: SimTime, r: Tree)

  /** The way from a hole up to the top of the tree, innermost step first. */
  datatype Ctx =
    | Top
    | InL(n: Ref, red: bool, mh: SimTime, r: Tree, up: Ctx)
    | InR(l: Tree, n: Ref, red: bool, mh: SimTime, up: Ctx)

  // ----- putting a subtree back into its context -----

  /** Closes the innermost step of a context around a subtree. */
  function Fill(c: Ctx, t: Tree): (r: Tree)
    requires !c.Top?
    ensures r.Node?
  {
    if c.InL? then Node(t, c.n, c.red, c.mh, c.r) else Node(c.l, c.n, c.red, c.mh, t)
  }

  function Plug(c: Ctx, t: Tree): Tree
    decreases c
  {
    if c.Top? then t else Plug(c.up, Fill(c, t))
  }

  lemma PlugUp(c: Ctx, t: Tree)
    requires !c.Top?
    ensures Plug(c, t) == Plug(c.up, Fill(c, t))
  {
  }

  function Append(inner: Ctx, outer: Ctx): Ctx {
    match inner
    case Top => outer
    case InL(n, red, mh, r, up) => InL(n, red, mh, r, Append(up, outer))
    case InR(l, n, red, mh, up) => InR(l, n, red, mh, Append(up, outer))
  }

  lemma {:induction false} PlugAppend(inner: Ctx, outer: Ctx, t: Tree)
    ensures Plug(Append(inner, outer), t) == Plug(outer, Plug(inner, t))
    decreases inner
  {
    if !inner.Top? { PlugAppend(inner.up, outer, Fill(inner, t)); }
  }

  lemma {:induction false} AppendTop(c: Ctx)
    ensures Append(c, Top) == c
  {
    if !c.Top? { AppendTop(c.up); }
  }

  function Outermost(c: Ctx): Ref
    requires !c.Top?
  {
    if c.up.Top? then c.n else Outermost(c.up)
  }

  function Depth(c: Ctx): nat {
    if c.Top? then 0 else Depth(c.up) + 1
  }

  // ----- the nodes of a tree -----

  function Nodes(t: Tree): set<Ref> {
    if t.Leaf? then {} else Nodes(t.l) + {t.n} + Nodes(t.r)
  }

  function CtxNodes(c: Ctx): set<Ref> {
    match c
    case Top => {}
    case InL(n, _, _, r, up) => {n} + Nodes(r) + CtxNodes(up)
    case InR(l, n, _, _, up) => {n} + Nodes(l) + CtxNodes(up)
  }

  /** No node occurs twice. */
  predicate Distinct(t: Tree) {
    t.Node? ==>
      && t.n !in Nodes(t.l) && t.n !in Nodes(t.r) && Nodes(t.l) !! Nodes(t.r)
      && Distinct(t.l) && Distinct(t.r)
  }

  function Sibling(c: Ctx): Tree
    requires !c.Top?
  {
    if c.InL? then c.r else c.l
  }

  predicate CtxDistinct(c: Ctx) {
    !c.Top? ==>
      && c.n !in Nodes(Sibling(c)) && c.n !in CtxNodes(c.up) && Nodes(Sibling(c)) !! CtxNodes(c.up)
      && Distinct(Sibling(c)) && CtxDistinct(c.up)
  }

  predicate Apart(c: Ctx, t: Tree) {
    Distinct(t) && CtxDistinct(c) && Nodes(t) !! CtxNodes(c)
  }

  lemma {:induction false} PlugNodes(c: Ctx, t: Tree)
    ensures Nodes(Plug(c, t)) == Nodes(t) + CtxNodes(c)
    decreases c
  {
    if !c.Top? { PlugNodes(c.up, Fill(c, t)); }
  }

  lemma {:induction false} PlugDistinct(c: Ctx, t: Tree)
    ensures Distinct(Plug(c, t)) <==> Apart(c, t)
    decreases c
  {
    if !c.Top? { PlugDistinct(c.up, Fill(c, t)); }
  }

  // ----- in-order sequence -----

  function Inorder(t: Tree): seq<Ref> {
    if t.Leaf? then [] else Inorder(t.l) + [t.n] + Inorder(t.r)
  }

  /** The nodes before the hole, in order. */
  function Before(c: Ctx): seq<Ref> {
    match c
    case Top => []
    case InL(_, _, _, _, up) => Before(up)
    case InR(l, n, _, _, up) => Before(up) + Inorder(l) + [n]
  }

  /** The nodes after the hole, in order. */
  function After(c: Ctx): seq<Ref> {
    match c
    case Top => []
    case InL(n, _, _, r, up) => [n] + Inorder(r) + After(up)
    case InR(_, _, _, _, up) => After(up)
  }

  lemma Regroup<T>(a: seq<T>, b: seq<T>, n: T, r: seq<T>, d: seq<T>)
    ensures a + (b + [n] + r) + d == a + b + ([n] + r + d)
    ensures a + (b + [n] + r) + d == (a + b + [n]) + r + d
  {
  }

  lemma {:induction false} PlugInorder(c: Ctx, t: Tree)
    ensures Inorder(Plug(c, t)) == Before(c) + Inorder(t) + After(c)
    decreases c
  {
    match c
    case Top =>
    case InL(n, _, _, r, up) =>
      PlugInorder(up, Fill(c, t));
      Regroup(Before(up), Inorder(t), n, Inorder(r), After(up));
    case InR(l, n, _, _, up) =>
      PlugInorder(up, Fill(c, t));
      Regroup(Before(up), Inorder(l), n, Inorder(t), After(up));
  }

  lemma {:induction false} InorderNodes(t: Tree)
    ensures Nodes(t) == set n | n in Inorder(t)
  {
    if t.Node? {
      InorderNodes(t.l);
      InorderNodes(t.r);
    }
  }

  predicate SortedKeys(s: seq<Ref>) {
    forall i, j :: 0 <= i < j < |s| ==> s[i].key <= s[j].key
  }

  /** Every turn of the path down to the hole was the right one for key k; equal keys go right. */
  predicate KeyPath(c: Ctx, k: SimTime) {
    !c.Top? ==> (if c.InL? then c.n.key > k else c.n.key <= k) && KeyPath(c.up, k)
  }

  lemma SortedParts(a: seq<Ref>, m: seq<Ref>, b: seq<Ref>)
    requires SortedKeys(a + m + b)
    ensures SortedKeys(a + b)
    ensures forall x, y :: x in a && y in m ==> x.key <= y.key
    ensures forall x, y :: x in m && y in b ==> x.key <= y.key
    ensures SortedKeys(m)
  {
    var s := a + m + b;
    forall i, j | 0 <= i < j < |a + b| ensures (a + b)[i].key <= (a + b)[j].key {
      assert (a + b)[i] == s[if i < |a| then i else i + |m|] && (a + b)[j] == s[if j < |a| then j else j + |m|];
    }
    forall i, j | 0 <= i < |a| && 0 <= j < |m| ensures a[i].key <= m[j].key {
      assert s[i] == a[i] && s[|a| + j] == m[j];
    }
    forall i, j | 0 <= i < |m| && 0 <= j < |b| ensures m[i].key <= b[j].key {
      assert s[|a| + i] == m[i] && s[|a| + |m| + j] == b[j];
    }
    forall i, j | 0 <= i < j < |m| ensures m[i].key <= m[j].key {
      assert s[|a| + i] == m[i] && s[|a| + j] == m[j];
    }
  }

  lemma {:induction false} KeyPathSplits(c: Ctx, k: SimTime)
    requires SortedKeys(Before(c) + After(c)) && KeyPath(c, k)
    ensures forall n :: n in Before(c) ==> n.key <= k
    ensures forall n :: n in After(c) ==> n.key > k
    decreases c
  {
    match c
    case Top =>
    case InL(n, _, _, r, up) =>
      var m := [n] + Inorder(r);
      assert Before(c) + After(c) == Before(up) + m + After(up);
      SortedParts(Before(up), m, After(up));
      KeyPathSplits(up, k);
      forall x | x in m ensures x.key > k {
        var i :| 0 <= i < |m| && m[i] == x;
        assert m[0].key <= m[i].key;
      }
    case InR(l, n, _, _, up) =>
      var m := Inorder(l) + [n];
      assert Before(c) == Before(up) + m;
      SortedParts(Before(up), m, After(up));
      KeyPathSplits(up, k);
      forall x | x in m ensures x.key <= k {
        var i :| 0 <= i < |m| && m[i] == x;
        assert m[i].key <= m[|m| - 1].key;
      }
  }

  /** Putting k at the end of its path keeps the keys in order. */
  lemma KeyPathSorted(c: Ctx, z: Ref)
    requires SortedKeys(Before(c) + After(c)) && KeyPath(c, z.key)
    ensures SortedKeys(Before(c) + [z] + After(c))
  {
    hide SortedKeys, KeyPath, Before, After;
    KeyPathSplits(c, z.key);
    Between(Before(c), z, After(c));
  }

  lemma Between(b: seq<Ref>, z: Ref, a: seq<Ref>)
    requires SortedKeys(b + a)
    requires forall i :: 0 <= i < |b| ==> b[i].key <= z.key
    requires forall i :: 0 <= i < |a| ==> z.key < a[i].key
    ensures SortedKeys(b + [z] + a)
  {
    var s, t := b + a, b + [z] + a;
    forall i, j | 0 <= i < j < |t| ensures t[i].key <= t[j].key {
      if i != |b| && j != |b| {
        assert t[i] == s[if i < |b| then i else i - 1] && t[j] == s[if j < |b| then j else j - 1];
      }
    }
  }

  // ----- the augmentation -----

  /** `max_high` as read through a link; `nil` answers the least time. */
  function Mh(t: Tree): SimTime { if t.Leaf? then NIL_TIME else t.mh }

  /** Every node's `maxHigh` is the greatest `high` below it. */
  predicate MhOk(t: Tree) {
    t.Node? ==> t.mh == Max(t.n.high, Max(Mh(t.l), Mh(t.r))) && MhOk(t.l) && MhOk(t.r)
  }

  /** The same for a context around a subtree of greatest `high` m. */
  predicate CtxMhOk(c: Ctx, m: SimTime) {
    !c.Top? ==> c.mh == Max(c.n.high, Max(m, Mh(Sibling(c)))) && MhOk(Sibling(c)) && CtxMhOk(c.up, c.mh)
  }

  /** Only the siblings along the path are known to be right: what holds before `fixupMaxHigh`. */
  predicate SiblingsMhOk(c: Ctx) {
    !c.Top? ==> MhOk(Sibling(c)) && SiblingsMhOk(c.up)
  }

  /** The path after `fixupMaxHigh` has walked it. */
  function FixMax(c: Ctx, m: SimTime): Ctx {
    match c
    case Top => Top
    case InL(n, red, _, r, up) =>
      var m' := Max(n.high, Max(m, Mh(r)));
      InL(n, red, m', r, FixMax(up, m'))
    case InR(l, n, red, _, up) =>
      var m' := Max(n.high, Max(m, Mh(l)));
      InR(l, n, red, m', FixMax(up, m'))
  }

  lemma FixMaxSame(c: Ctx, m: SimTime)
    ensures c.Top? <==> FixMax(c, m).Top?
    ensures !c.Top? ==> FixMax(c, m).n == c.n
  {
  }

  lemma {:induction false} FixMaxOk(c: Ctx, m: SimTime)
    requires SiblingsMhOk(c)
    ensures CtxMhOk(FixMax(c, m), m)
    decreases c
  {
    if !c.Top? { FixMaxOk(c.up, Max(c.n.high, Max(m, Mh(Sibling(c))))); }
  }

  /** `fixupMaxHigh` changes nothing but the `maxHigh` fields along the path. */
  lemma {:induction false} FixMaxKeeps(c: Ctx, m: SimTime, h: nat)
    ensures Before(FixMax(c, m)) == Before(c) && After(FixMax(c, m)) == After(c)
    ensures CtxNodes(FixMax(c, m)) == CtxNodes(c)
    ensures CtxOk(FixMax(c, m), h) <==> CtxOk(c, h)
    ensures CtxRed(FixMax(c, m)) == CtxRed(c) && Depth(FixMax(c, m)) == Depth(c)
    decreases c
  {
    if !c.Top? {
      var m' := Max(c.n.high, Max(m, Mh(Sibling(c))));
      FixMaxKeeps(c.up, m', if c.red then h else h + 1);
    }
  }

  /** A context cut out of a tree whose augmentation is right. */
  lemma {:induction false} CtxMhOkSiblings(c: Ctx, m: SimTime)
    requires CtxMhOk(c, m)
    ensures SiblingsMhOk(c)
    decreases c
  {
    if !c.Top? { CtxMhOkSiblings(c.up, c.mh); }
  }

  lemma {:induction false} PlugMhOk(c: Ctx, t: Tree)
    ensures MhOk(Plug(c, t)) <==> MhOk(t) && CtxMhOk(c, Mh(t))
    decreases c
  {
    if !c.Top? { PlugMhOk(c.up, Fill(c, t)); }
  }

  // ----- colours and black heights -----

  predicate IsRed(t: Tree) { t.Node? && t.red }

  predicate NoRedRed(t: Tree) {
    t.Node? ==> (t.red ==> !IsRed(t.l) && !IsRed(t.r)) && NoRedRed(t.l) && NoRedRed(t.r)
  }

  /** The number of black nodes on the leftmost path. */
  function BlackHeight(t: Tree): nat {
    if t.Leaf? then 0 else BlackHeight(t.l) + (if t.red then 0 else 1)
  }

  predicate Balanced(t: Tree) {
    t.Node? ==> BlackHeight(t.l) == BlackHeight(t.r) && Balanced(t.l) && Balanced(t.r)
  }

  /** The red-black invariant of a whole tree: black root, no red-red edge, equal black heights. */
  predicate RedBlack(t: Tree) {
    !IsRed(t) && NoRedRed(t) && Balanced(t)
  }

  /** A subtree that may sit below a black parent. */
  predicate Sub(t: Tree) { NoRedRed(t) && Balanced(t) }

  predicate CtxRed(c: Ctx) { !c.Top? && c.red }

  /** A context whose steps are coloured correctly for a hole of black height h. A red step is never outermost. */
  predicate CtxOk(c: Ctx, h: nat) {
    !c.Top? ==>
      && Sub(Sibling(c)) && BlackHeight(Sibling(c)) == h
      && (c.red ==> !IsRed(Sibling(c)) && !c.up.Top? && !c.up.red)
      && CtxOk(c.up, if c.red then h else h + 1)
  }

  function Painted(t: Tree, red: bool): Tree
    requires t.Node?
  {
    Node(t.l, t.n, red, t.mh, t.r)
  }

  function Blacken(t: Tree): Tree {
    if t.Leaf? then t else Painted(t, false)
  }

  lemma {:induction false} PlugRedBlack(c: Ctx, t: Tree)
    requires Sub(t) && CtxOk(c, BlackHeight(t)) && (IsRed(t) ==> !CtxRed(c))
    ensures RedBlack(Blacken(Plug(c, t)))
    ensures !c.Top? ==> RedBlack(Plug(c, t))
    decreases c
  {
    if !c.Top? { PlugRedBlack(c.up, Fill(c, t)); }
  }

  /** Cutting a red-black tree at any place. */
  lemma {:induction false} UnplugRedBlack(c: Ctx, t: Tree)
    requires Sub(Plug(c, t)) && (c.Top? || !IsRed(Plug(c, t)))
    ensures Sub(t) && CtxOk(c, BlackHeight(t)) && (IsRed(t) ==> !CtxRed(c))
    decreases c
  {
    if !c.Top? {
      UnplugRedBlack(c.up, Fill(c, t));
    }
  }

  // ----- rotations -----

  function RotateLeft(t: Tree): (r: Tree)
    requires t.Node? && t.r.Node?
  {
    var m := Max(Mh(t.l), Max(Mh(t.r.l), t.n.high));
    Node(Node(t.l, t.n, t.red, m, t.r.l), t.r.n, t.r.red, Max(m, Max(Mh(t.r.r), t.r.n.high)), t.r.r)
  }

  function RotateRight(t: Tree): (r: Tree)
    requires t.Node? && t.l.Node?
  {
    var m := Max(Mh(t.l.r), Max(Mh(t.r), t.n.high));
    Node(t.l.l, t.l.n, t.l.red, Max(Mh(t.l.l), Max(m, t.l.n.high)), Node(t.l.r, t.n, t.red, m, t.r))
  }

  lemma RegroupRotation<T>(a: seq<T>, x: T, b: seq<T>, y: T, d: seq<T>)
    ensures a + [x] + (b + [y] + d) == (a + [x] + b) + [y] + d
  {
  }

  /** A left rotation moves no node in the order and leaves the augmentation right. */
  lemma {:induction false} RotateLeftKeeps(t: Tree)
    requires t.Node? && t.r.Node?
    ensures Inorder(RotateLeft(t)) == Inorder(t)
    ensures MhOk(t) ==> MhOk(RotateLeft(t)) && Mh(RotateLeft(t)) == Mh(t)
  {
    RegroupRotation(Inorder(t.l), t.n, Inorder(t.r.l), t.r.n, Inorder(t.r.r));
    assert MhOk(t) ==> MhOk(t.r) && MhOk(RotateLeft(t).l);
  }

  lemma {:induction false} RotateRightKeeps(t: Tree)
    requires t.Node? && t.l.Node?
    ensures Inorder(RotateRight(t)) == Inorder(t)
    ensures MhOk(t) ==> MhOk(RotateRight(t)) && Mh(RotateRight(t)) == Mh(t)
  {
    RegroupRotation(Inorder(t.l.l), t.l.n, Inorder(t.l.r), t.n, Inorder(t.r));
    assert MhOk(t) ==> MhOk(t.l) && MhOk(RotateRight(t).r);
  }

  lemma {:induction false} RotateLeftDistinct(t: Tree)
    requires t.Node? && t.r.Node?
    ensures Nodes(RotateLeft(t)) == Nodes(t)
    ensures Distinct(t) ==> Distinct(RotateLeft(t))
  {
    var b := t.r;
    assert Nodes(b) == Nodes(b.l) + {b.n} + Nodes(b.r);
    assert Nodes(t) == Nodes(t.l) + {t.n} + Nodes(b);
    assert Nodes(RotateLeft(t).l) == Nodes(t.l) + {t.n} + Nodes(b.l);
    assert Distinct(t) ==> Distinct(b) && Distinct(RotateLeft(t).l);
  }

  lemma {:induction false} RotateRightDistinct(t: Tree)
    requires t.Node? && t.l.Node?
    ensures Nodes(RotateRight(t)) == Nodes(t)
    ensures Distinct(t) ==> Distinct(RotateRight(t))
  {
    var b := t.l;
    assert Nodes(b) == Nodes(b.l) + {b.n} + Nodes(b.r);
    assert Nodes(t) == Nodes(b) + {t.n} + Nodes(t.r);
    assert Nodes(RotateRight(t).r) == Nodes(b.r) + {t.n} + Nodes(t.r);
    assert Distinct(t) ==> Distinct(b) && Distinct(RotateRight(t).r);
  }
}
