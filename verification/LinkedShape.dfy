/** How a snapshot of linked nodes stands for a tree, or for a context with something in its hole. */
module LinkedShape {
  import opened IntervalNodes
  import opened RedBlackTree

  /** The mutable fields of a node. */
  datatype Rec = Rec(red: bool, mh: SimTime, left: Ref, right: Ref, parent: Ref)

  /** The fields of all allocated nodes at one moment. */
  type Store = map<Ref, Rec>

  predicate Has(st: Store, n: Ref, r: Rec) { n in st && st[n] == r }

  predicate Agree(st: Store, st': Store, s: set<Ref>) {
    forall n :: n in s && n in st ==> n in st' && st'[n] == st[n]
  }

  /** The two sentinels of a tree. */
  datatype Ends = Ends(nil: Ref, root: Ref) {

    function Ptr(t: Tree): Ref { if t.Leaf? then nil else t.n }

    function Par(c: Ctx): Ref { if c.Top? then root else c.n }

    /** The store holds t, and its top node hangs below p. */
    predicate Shape(st: Store, t: Tree, p: Ref) {
      t.Node? ==>
        Has(st, t.n, Rec(t.red, t.mh, Ptr(t.l), Ptr(t.r), p)) && Shape(st, t.l, t.n) && Shape(st, t.r, t.n)
    }

    /** The innermost node of c is as c says, with x in the hole. */
    predicate Slot(st: Store, c: Ctx, x: Ref) {
      match c
      case Top => Has(st, root, Rec(false, MAX_TIME, x, nil, nil))
      case InL(n, red, mh, r, up) => Has(st, n, Rec(red, mh, x, Ptr(r), Par(up)))
      case InR(l, n, red, mh, up) => Has(st, n, Rec(red, mh, Ptr(l), x, Par(up)))
    }

    /** The store holds c, with x in its hole. */
    predicate CShape(st: Store, c: Ctx, x: Ref)
      decreases c
    {
      Slot(st, c, x) && (!c.Top? ==> Shape(st, Sibling(c), c.n) && CShape(st, c.up, c.n))
    }

    /** `nil` is as the constructor made it, but for its parent. */
    predicate NilOk(st: Store) {
      root != nil && nil in st && st[nil] == Rec(false, NIL_TIME, nil, nil, st[nil].parent)
    }

    /** The store holds `Plug(c, t)`, seen from the top of t. */
    predicate Focus(st: Store, c: Ctx, t: Tree) {
      && NilOk(st)
      && Apart(c, t) && {root, nil} !! Nodes(t) && {root, nil} !! CtxNodes(c)
      && Shape(st, t, Par(c)) && CShape(st, c, Ptr(t))
    }

    // ----- what is not written stays -----

    lemma {:induction false} ShapeFrame(st: Store, st': Store, t: Tree, p: Ref)
      requires Shape(st, t, p) && Agree(st, st', Nodes(t))
      ensures Shape(st', t, p)
      decreases t
    {
      if t.Node? {
        ShapeFrame(st, st', t.l, t.n);
        ShapeFrame(st, st', t.r, t.n);
      }
    }

    /** Hanging a tree below another parent touches its top node only. */
    lemma {:induction false} ShapeReparent(st: Store, st': Store, t: Tree, p: Ref, p': Ref)
      requires Shape(st, t, p) && Distinct(t)
      requires t.Node? ==> Has(st', t.n, Rec(t.red, t.mh, Ptr(t.l), Ptr(t.r), p'))
      requires Agree(st, st', Nodes(t) - {Ptr(t)})
      ensures Shape(st', t, p')
    {
      if t.Node? {
        assert Nodes(t.l) <= Nodes(t) - {t.n} && Nodes(t.r) <= Nodes(t) - {t.n};
        ShapeFrame(st, st', t.l, t.n);
        ShapeFrame(st, st', t.r, t.n);
      }
    }

    lemma {:induction false} CtxFrame(st: Store, st': Store, c: Ctx, x: Ref)
      requires CShape(st, c, x) && Agree(st, st', CtxNodes(c) + {root})
      ensures CShape(st', c, x)
      decreases c
    {
      if !c.Top? {
        ShapeFrame(st, st', Sibling(c), c.n);
        CtxFrame(st, st', c.up, c.n);
      }
    }

    /** Hanging x' into the hole of c touches the innermost node of c only. */
    lemma {:induction false} CtxRefill(st: Store, st': Store, c: Ctx, x: Ref, x': Ref)
      requires CShape(st, c, x) && CtxDistinct(c) && root !in CtxNodes(c)
      requires Slot(st', c, x') && Agree(st, st', CtxNodes(c) + {root} - {Par(c)})
      ensures CShape(st', c, x')
    {
      if !c.Top? {
        ShapeFrame(st, st', Sibling(c), c.n);
        CtxFrame(st, st', c.up, c.n);
      }
    }

    lemma FocusFrame(st: Store, st': Store, c: Ctx, t: Tree)
      requires Focus(st, c, t) && Agree(st, st', Nodes(t) + CtxNodes(c) + {root, nil})
      ensures Focus(st', c, t)
    {
      ShapeFrame(st, st', t, Par(c));
      CtxFrame(st, st', c, Ptr(t));
    }

    /** Hanging a single node into an empty hole. */
    lemma Hung(st: Store, st': Store, c: Ctx, z: Ref, red: bool, mh: SimTime)
      requires Focus(st, c, Leaf) && z !in CtxNodes(c) + {root, nil}
      requires Has(st', z, Rec(red, mh, nil, nil, Par(c)))
      requires Slot(st', c, z) && Agree(st, st', st.Keys - {z, Par(c)})
      ensures Focus(st', c, Node(Leaf, z, red, mh, Leaf))
    {
      CtxRefill(st, st', c, nil, z);
    }

    /** The only child u of t's top node is hung into t's place. With u empty, `nil` gets a parent. */
    lemma Spliced(st: Store, st': Store, c: Ctx, t: Tree, u: Tree)
      requires Focus(st, c, t) && t.Node? && ((t.l.Leaf? && u == t.r) || (t.r.Leaf? && u == t.l))
      requires Ptr(u) in st && Has(st', Ptr(u), st[Ptr(u)].(parent := Par(c)))
      requires Slot(st', c, Ptr(u)) && Agree(st, st', st.Keys - {Ptr(u), Par(c)})
      ensures Focus(st', c, u)
    {
      assert Shape(st, u, t.n) && Distinct(u) && Nodes(u) <= Nodes(t);
      assert u.Node? ==> u.n in Nodes(u);
      ReadParent(st, c, t);
      ShapeReparent(st, st', u, t.n, Par(c));
      CtxRefill(st, st', c, t.n, Ptr(u));
    }

    /** The node y takes the place of t's top node. */
    lemma Replaced(st: Store, st': Store, c: Ctx, t: Tree, y: Ref, red: bool)
      requires Focus(st, c, t) && t.Node? && t.l.Node?
      requires y !in Nodes(t) + CtxNodes(c) + {root, nil}
      requires Has(st', y, Rec(red, NIL_TIME, Ptr(t.l), Ptr(t.r), Par(c)))
      requires t.l.n in st && Has(st', t.l.n, st[t.l.n].(parent := y))
      requires Ptr(t.r) in st && Has(st', Ptr(t.r), st[Ptr(t.r)].(parent := y))
      requires Slot(st', c, y) && Agree(st, st', st.Keys - {y, t.l.n, Ptr(t.r), Par(c)})
      ensures Focus(st', c, Node(t.l, y, red, NIL_TIME, t.r))
    {
      var l, r := t.l, t.r;
      assert Shape(st, l, t.n) && Shape(st, r, t.n);
      ReadParent(st, c, t);
      assert r.Node? ==> r.n in Nodes(r);
      assert l.n in Nodes(l);
      assert Shape(st', l, y) by { ShapeReparent(st, st', l, t.n, y); }
      assert Shape(st', r, y) by { ShapeReparent(st, st', r, t.n, y); }
      assert CShape(st', c, y) by { CtxRefill(st, st', c, t.n, y); }
    }

    lemma ParAppend(inner: Ctx, outer: Ctx, u: Tree)
      ensures Par(Append(inner, outer)) == if inner.Top? then Par(outer) else inner.n
      ensures Plug(inner, u).Leaf? <==> inner.Top? && u.Leaf?
    {
      if !inner.Top? { PlugIsNode(inner, u); }
    }

    lemma {:induction false} PlugIsNode(c: Ctx, u: Tree)
      requires !c.Top?
      ensures Plug(c, u).Node?
      decreases c
    {
      if !c.up.Top? { PlugIsNode(c.up, Fill(c, u)); }
    }

    /** Once spliced out, a node is outside the tree. */
    lemma PromoteFresh(st: Store, m: Ctx, d: Ctx, t: Tree)
      requires Focus(st, Append(m, d), t) && t.Node? && d.InR?
      ensures t.n in st && t.n !in Nodes(Node(d.l, d.n, d.red, d.mh, Plug(m, t.r))) + CtxNodes(d.up) + {root, nil}
    {
      var c := Append(m, d);
      PlugAppend(m, d, t.r);
      PlugNodes(c, t.r);
      PlugNodes(d.up, Fill(d, Plug(m, t.r)));
      assert t.n in Nodes(t) && t.n !in Nodes(t.r);
    }

    /** A node found inside the right subtree is allocated. */
    lemma ReadMin(st: Store, c: Ctx, t: Tree, m: Ctx, u: Tree)
      requires Focus(st, c, t) && t.Node? && Plug(m, u) == t.r && u.Node?
      ensures u.n in st && st[u.n].red == u.red
    {
      var d := InR(t.l, t.n, t.red, t.mh, c);
      FocusDown(st, d, t.r);
      FocusPlug(st, m, d, u);
      ReadNode(st, Append(m, d), u);
    }

    // ----- moving the focus -----

    lemma {:induction false} FocusUp(st: Store, c: Ctx, t: Tree)
      requires Focus(st, c, t) && !c.Top?
      ensures Focus(st, c.up, Fill(c, t))
    {
    }

    lemma {:induction false} FocusDown(st: Store, c: Ctx, t: Tree)
      requires !c.Top? && Focus(st, c.up, Fill(c, t))
      ensures Focus(st, c, t)
    {
    }

    lemma {:induction false} FocusPlug(st: Store, c: Ctx, outer: Ctx, t: Tree)
      ensures Focus(st, Append(c, outer), t) <==> Focus(st, outer, Plug(c, t))
      decreases c
    {
      if !c.Top? {
        var whole := Append(c, outer);
        assert whole.up == Append(c.up, outer) && Fill(whole, t) == Fill(c, t);
        if Focus(st, whole, t) { FocusUp(st, whole, t); }
        FocusPlug(st, c.up, outer, Fill(c, t));
        if Focus(st, whole.up, Fill(whole, t)) { FocusDown(st, whole, t); }
      }
    }

    lemma FocusWhole(st: Store, c: Ctx, t: Tree)
      requires Focus(st, c, t)
      ensures Focus(st, Top, Plug(c, t))
    {
      AppendTop(c);
      FocusPlug(st, c, Top, t);
    }

    lemma FocusFromTop(st: Store, c: Ctx, t: Tree)
      requires Focus(st, Top, Plug(c, t))
      ensures Focus(st, c, t)
    {
      AppendTop(c);
      FocusPlug(st, c, Top, t);
    }

    // ----- reading -----

    /** What a link answers, `nil` included. */
    lemma ReadLink(st: Store, t: Tree, p: Ref)
      requires NilOk(st) && Shape(st, t, p)
      ensures Ptr(t) in st && st[Ptr(t)].mh == Mh(t) && st[Ptr(t)].red == IsRed(t)
      ensures t.Node? ==> t.n in Nodes(t)
    {
    }

    /** All fields of the node in focus, and what its links answer. */
    lemma ReadNode(st: Store, c: Ctx, t: Tree)
      requires Focus(st, c, t) && t.Node?
      ensures Has(st, t.n, Rec(t.red, t.mh, Ptr(t.l), Ptr(t.r), Par(c)))
      ensures {Ptr(t.l), Ptr(t.r)} <= st.Keys
      ensures st[Ptr(t.l)].mh == Mh(t.l) && st[Ptr(t.r)].mh == Mh(t.r)
      ensures st[Ptr(t.l)].red == IsRed(t.l) && st[Ptr(t.r)].red == IsRed(t.r)
      ensures t.n !in {root, nil} && root != nil
    {
      ReadLink(st, t.l, t.n);
      ReadLink(st, t.r, t.n);
    }

    /** Whether the hole is a left link can be read off the parent, and so can the parent's colour. */
    lemma ReadParent(st: Store, c: Ctx, t: Tree)
      requires Focus(st, c, t)
      ensures Par(c) in st && st[Par(c)].red == CtxRed(c)
      ensures t.Node? ==> t.n in st && st[t.n].parent == Par(c)
      ensures t.Node? ==> (st[Par(c)].left == t.n <==> !c.InR?) && (st[Par(c)].right == t.n <==> c.InR?)
    {
      if !c.Top? && Sibling(c).Node? { assert Sibling(c).n in Nodes(Sibling(c)); }
    }

    /** The outermost node of a context hangs below `root`, and is black if the colours are right. */
    lemma {:induction false} ReadOutermost(st: Store, c: Ctx, x: Ref, h: nat)
      requires CShape(st, c, x) && !c.Top? && CtxOk(c, h)
      ensures root in st && st[root].left == Outermost(c)
      ensures Outermost(c) in st && !st[Outermost(c)].red && Outermost(c) in CtxNodes(c)
      decreases c
    {
      if !c.up.Top? { ReadOutermost(st, c.up, c.n, if c.red then h else h + 1); }
    }

    /** The parent of the tree in focus, the other child w and what w's links answer. */
    lemma ReadSibling(st: Store, c: Ctx, t: Tree)
      requires Focus(st, c, t) && !c.Top?
      ensures Slot(st, c, Ptr(t)) && c.n in CtxNodes(c) && c.n !in {root, nil}
      ensures var w := Sibling(c);
        && Ptr(w) in st && st[Ptr(w)].red == IsRed(w)
        && (w.Node? ==> w.n != Ptr(t))
        && (w.Node? ==> st[w.n].left == Ptr(w.l) && st[w.n].right == Ptr(w.r) && {Ptr(w.l), Ptr(w.r)} <= st.Keys)
        && (w.Node? ==> st[Ptr(w.l)].red == IsRed(w.l) && st[Ptr(w.r)].red == IsRed(w.r))
    {
      var w := Sibling(c);
      ReadLink(st, w, c.n);
      if w.Node? {
        assert w.n in Nodes(w) && w.n in CtxNodes(c);
        assert t.Node? ==> t.n in Nodes(t);
        ReadLink(st, w.l, w.n);
        ReadLink(st, w.r, w.n);
      }
    }

    lemma ReadChild(st: Store, c: Ctx, t: Tree)
      requires Focus(st, c, t) && t.Node?
      ensures t.l.Node? ==> t.l.n in st && st[t.l.n].red == t.l.red
      ensures t.r.Node? ==> t.r.n in st && st[t.r.n].red == t.r.red
    {
      ReadNode(st, c, t);
    }

    lemma FocusOutermost(st: Store, c: Ctx, t: Tree, h: nat)
      requires Focus(st, c, t) && !c.Top? && CtxOk(c, h)
      ensures root in st && st[root].left == Outermost(c)
      ensures Outermost(c) in st && !st[Outermost(c)].red && Outermost(c) != Ptr(t)
    {
      ReadOutermost(st, c, Ptr(t), h);
      assert t.Node? ==> t.n in Nodes(t);
    }

    lemma ParentNotNil(st: Store, c: Ctx, t: Tree)
      requires Focus(st, c, t)
      ensures Par(c) != nil
    {
    }

    lemma ChildNil(st: Store, c: Ctx, t: Tree)
      requires Focus(st, c, t) && t.Node?
      ensures Ptr(t.l) == nil <==> t.l.Leaf?
      ensures Ptr(t.r) == nil <==> t.r.Leaf?
    {
      assert t.l.Node? ==> t.l.n in Nodes(t.l);
      assert t.r.Node? ==> t.r.n in Nodes(t.r);
    }

    /** Around a node with at most one child u, nothing coincides. */
    lemma SpliceDistinct(st: Store, c: Ctx, t: Tree, u: Tree)
      requires Focus(st, c, t) && t.Node? && ((t.l.Leaf? && u == t.r) || (t.r.Leaf? && u == t.l))
      ensures Ptr(u) != t.n && Ptr(u) != Par(c) && Par(c) != t.n && Par(c) != nil
      ensures Slot(st, c, t.n)
    {
      assert Nodes(u) <= Nodes(t);
      assert u.Node? ==> u.n in Nodes(u);
    }

    /** Around a node with a left child, with y outside the tree, nothing coincides. */
    lemma SupplantDistinct(st: Store, c: Ctx, t: Tree, y: Ref)
      requires Focus(st, c, t) && t.Node? && t.l.Node? && y !in Nodes(t) + CtxNodes(c) + {root, nil}
      ensures {t.l.n, Ptr(t.r), t.n, y} !! {Par(c)} && t.l.n != Ptr(t.r) && {t.l.n, Ptr(t.r)} !! {t.n, y}
      ensures Par(c) != nil && t.n != y && t.l.n != nil && Slot(st, c, t.n)
      ensures Ptr(t.r) == nil <==> t.r.Leaf?
    {
      assert t.l.n in Nodes(t.l) && Nodes(t.l) <= Nodes(t) && Nodes(t.r) <= Nodes(t);
      assert t.r.Node? ==> t.r.n in Nodes(t.r);
    }

    lemma ReadNil(st: Store, c: Ctx, t: Tree)
      requires Focus(st, c, t)
      ensures nil in st
    {
    }

    lemma FocusApart(st: Store, c: Ctx, t: Tree)
      requires Focus(st, c, t)
      ensures Distinct(t)
    {
    }

    lemma FocusDistinct(st: Store, t: Tree)
      requires Focus(st, Top, t)
      ensures Distinct(t) && {root, nil} !! Nodes(t)
    {
    }

    lemma NilOutside(st: Store, c: Ctx, t: Tree)
      requires Focus(st, c, t)
      ensures nil !in Nodes(t) && (t.Node? ==> nil !in Nodes(t.l) && nil !in Nodes(t.r))
    {
    }

    lemma ReadTop(st: Store, t: Tree)
      requires Focus(st, Top, t)
      ensures root in st && nil in st && st[root].left == Ptr(t) && st[root].parent == nil
    {
    }

    lemma ParentIsRoot(st: Store, c: Ctx, t: Tree)
      requires Focus(st, c, t)
      ensures Par(c) == root <==> c.Top?
    {
    }

    lemma PtrNil(st: Store, c: Ctx, t: Tree)
      requires Focus(st, c, t)
      ensures Ptr(t) == nil <==> t.Leaf?
    {
    }

    /** The links a repair follows: parent, grandparent and uncle. */
    lemma ReadGrand(st: Store, c: Ctx, t: Tree)
      requires Focus(st, c, t) && t.Node? && !c.Top? && !c.up.Top?
      ensures {t.n, c.n, c.up.n} <= st.Keys
      ensures st[t.n].parent == c.n && st[c.n].parent == c.up.n
      ensures Ptr(Sibling(c.up)) in st && st[Ptr(Sibling(c.up))].red == IsRed(Sibling(c.up))
      ensures c.up.InL? ==> st[c.up.n].left == c.n && st[c.up.n].right == Ptr(c.up.r)
      ensures c.up.InR? ==> st[c.up.n].left == Ptr(c.up.l) != c.n && st[c.up.n].right == c.n
    {
      ReadParent(st, c, t);
      FocusUp(st, c, t);
      ReadParent(st, c.up, Fill(c, t));
      ReadLink(st, Sibling(c.up), c.up.n);
    }

    // ----- writing a colour or a maxHigh -----

    lemma {:induction false} Touched(st: Store, st': Store, c: Ctx, t: Tree, red: bool, mh: SimTime)
      requires Focus(st, c, t) && t.Node?
      requires Has(st', t.n, Rec(red, mh, Ptr(t.l), Ptr(t.r), Par(c))) && Agree(st, st', st.Keys - {t.n})
      ensures Focus(st', c, t.(red := red, mh := mh))
    {
      ShapeFrame(st, st', t.l, t.n);
      ShapeFrame(st, st', t.r, t.n);
      CtxFrame(st, st', c, t.n);
    }

    // ----- rotations -----

    /** y is x's right child, b is y's left child and p is x's parent, all distinct where a rotation writes. */
    predicate LeftRotatable(st: Store, x: Ref, y: Ref, b: Ref, p: Ref) {
      && {x, y, b, p} <= st.Keys && {st[x].left, st[y].right} <= st.Keys
      && st[x].right == y && st[y].left == b && st[x].parent == p
      && x != y && {st[x].left, b, st[y].right} !! {x, y} && nil !in {x, y} && p !in {x, y, nil}
        && (b != nil ==> b != p)
    }

    /** What a left rotation writes: y takes x's place, and b moves over to x. */
    predicate LeftRotated(st: Store, st': Store, x: Ref, y: Ref, b: Ref, p: Ref)
      requires LeftRotatable(st, x, y, b, p)
    {
      var m := Max(st[st[x].left].mh, Max(st[b].mh, x.high));
      && Has(st', x, st[x].(right := b, parent := y, mh := m))
      && Has(st', y, st[y].(left := x, parent := p, mh := Max(m, Max(st[st[y].right].mh, y.high))))
      && (b != nil ==> Has(st', b, st[b].(parent := x)))
      && Has(st', p, if st[p].left == x then st[p].(left := y) else st[p].(right := y))
      && Agree(st, st', st.Keys - {x, y, p} - (if b == nil then {} else {b}))
    }

    lemma FocusLeftRotatable(st: Store, c: Ctx, t: Tree)
      requires Focus(st, c, t) && t.Node? && t.r.Node?
      ensures LeftRotatable(st, t.n, t.r.n, Ptr(t.r.l), Par(c))
    {
      var a, b, d := t.l, t.r.l, t.r.r;
      assert Shape(st, a, t.n) && Shape(st, t.r, t.n);
      ReadParent(st, c, t);
      ReadLink(st, a, t.n); ReadLink(st, b, t.r.n); ReadLink(st, d, t.r.n);
      assert Distinct(t.r);
    }

    lemma {:induction false} LeftRotatedShape(st: Store, st': Store, c: Ctx, t: Tree)
      requires Focus(st, c, t) && t.Node? && t.r.Node?
      requires LeftRotatable(st, t.n, t.r.n, Ptr(t.r.l), Par(c))
      requires LeftRotated(st, st', t.n, t.r.n, Ptr(t.r.l), Par(c))
      ensures Focus(st', c, RotateLeft(t))
    {
      var a, b, d := t.l, t.r.l, t.r.r;
      assert Shape(st, a, t.n) && Shape(st, t.r, t.n);
      ReadParent(st, c, t);
      ReadLink(st, a, t.n); ReadLink(st, b, t.r.n); ReadLink(st, d, t.r.n);
      RotateLeftDistinct(t);
      assert Distinct(t.r);
      assert Nodes(t.r) == Nodes(b) + {t.r.n} + Nodes(d);
      assert Shape(st', a, t.n) by { ShapeFrame(st, st', a, t.n); }
      assert Shape(st', b, t.n) by { ShapeReparent(st, st', b, t.r.n, t.n); }
      assert Shape(st', d, t.r.n) by { ShapeFrame(st, st', d, t.r.n); }
      assert CShape(st', c, t.r.n) by { CtxRefill(st, st', c, t.n, t.r.n); }
      assert Shape(st', RotateLeft(t).l, t.r.n);
    }


    /** y is x's left child, b is y's right child and p is x's parent, all distinct where a rotation writes. */
    predicate RightRotatable(st: Store, x: Ref, y: Ref, b: Ref, p: Ref) {
      && {x, y, b, p} <= st.Keys && {st[x].right, st[y].left} <= st.Keys
      && st[x].left == y && st[y].right == b && st[x].parent == p
      && x != y && {st[x].right, b, st[y].left} !! {x, y} && nil !in {x, y} && p !in {x, y, nil}
        && (b != nil ==> b != p)
    }

    /** What a right rotation writes: y takes x's place, and b moves over to x. */
    predicate RightRotated(st: Store, st': Store, x: Ref, y: Ref, b: Ref, p: Ref)
      requires RightRotatable(st, x, y, b, p)
    {
      var m := Max(st[b].mh, Max(st[st[x].right].mh, x.high));
      && Has(st', x, st[x].(left := b, parent := y, mh := m))
      && Has(st', y, st[y].(right := x, parent := p, mh := Max(st[st[y].left].mh, Max(m, y.high))))
      && (b != nil ==> Has(st', b, st[b].(parent := x)))
      && Has(st', p, if st[p].left == x then st[p].(left := y) else st[p].(right := y))
      && Agree(st, st', st.Keys - {x, y, p} - (if b == nil then {} else {b}))
    }

    lemma FocusRightRotatable(st: Store, c: Ctx, t: Tree)
      requires Focus(st, c, t) && t.Node? && t.l.Node?
      ensures RightRotatable(st, t.n, t.l.n, Ptr(t.l.r), Par(c))
    {
      var a, b, d := t.r, t.l.r, t.l.l;
      assert Shape(st, a, t.n) && Shape(st, t.l, t.n);
      ReadParent(st, c, t);
      ReadLink(st, a, t.n); ReadLink(st, b, t.l.n); ReadLink(st, d, t.l.n);
      assert Distinct(t.l);
    }

    lemma {:induction false} RightRotatedShape(st: Store, st': Store, c: Ctx, t: Tree)
      requires Focus(st, c, t) && t.Node? && t.l.Node?
      requires RightRotatable(st, t.n, t.l.n, Ptr(t.l.r), Par(c))
      requires RightRotated(st, st', t.n, t.l.n, Ptr(t.l.r), Par(c))
      ensures Focus(st', c, RotateRight(t))
    {
      var a, b, d := t.r, t.l.r, t.l.l;
      assert Shape(st, a, t.n) && Shape(st, t.l, t.n);
      ReadParent(st, c, t);
      ReadLink(st, a, t.n); ReadLink(st, b, t.l.n); ReadLink(st, d, t.l.n);
      RotateRightDistinct(t);
      assert Distinct(t.l);
      assert Nodes(t.l) == Nodes(d) + {t.l.n} + Nodes(b);
      assert Shape(st', a, t.n) by { ShapeFrame(st, st', a, t.n); }
      assert Shape(st', b, t.n) by { ShapeReparent(st, st', b, t.l.n, t.n); }
      assert Shape(st', d, t.l.n) by { ShapeFrame(st, st', d, t.l.n); }
      assert CShape(st', c, t.l.n) by { CtxRefill(st, st', c, t.n, t.l.n); }
      assert Shape(st', RotateRight(t).r, t.l.n);
    }
  }
}
