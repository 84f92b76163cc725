/** The linked interval tree (IntervalTree.cc): rotations, insertion, deletion. */
module IntervalTrees {
  import opened Options
  import opened IntervalNodes
  import opened RedBlackTree
  import opened LinkedShape
  import opened RebalanceSteps
  import opened TreeDeletion
  import opened IntervalQuery

  class IntervalTree {
    const nil: Ref
    const root: Ref

    // The stack of the query; its length is the allocated size.
    var recursionNodeStack: seq<RecursionNode>
    var recursionNodeStackTop: nat
    var currentParent: nat

    /** Every node of this tree, the sentinels included. */
    ghost var Repr: set<Ref>

    /** The tree that hangs below `root`. */
    ghost var tree: Tree

    ghost predicate Valid()
      reads this, Repr
    {
      && E().Focus(Snap(Repr), Top, tree)
      && Repr == Nodes(tree) + {nil, root}
      && ValidTree(tree)
      && root.storedInterval == null && nil.storedInterval == null
      && StackIdle()
    }

    predicate StackIdle()
      reads this
    {
      recursionNodeStackTop == 1 <= |recursionNodeStack|
    }

    /** The nodes in order of their keys. */
    ghost function Contents(): seq<Ref>
      reads this
    {
      Inorder(tree)
    }

    ghost function E(): Ends { Ends(nil, root) }

    /** The fields of a set of nodes. */
    static ghost function Snap(s: set<Ref>): (st: Store)
      reads s
      ensures st.Keys == s
    {
      map n | n in s :: Rec(n.red, n.maxHigh, n.left, n.right, n.parent)
    }

    constructor ()
      ensures Valid() && fresh(Repr) && Contents() == []
    {
      var sentinel := new IntervalTreeNode.Nil();
      nil := sentinel;
      root := new IntervalTreeNode.Root(sentinel);
      recursionNodeStack := seq(128, _ => RecursionNode(null, 0, false));
      recursionNodeStackTop, currentParent := 1, 0;
      new;
      Repr, tree := {nil, root}, Leaf;
    }

    ghost predicate Fields(n: Ref, r: Rec)
      reads n
    {
      n.red == r.red && n.maxHigh == r.mh && n.left == r.left && n.right == r.right && n.parent == r.parent
    }

    ghost function Of(n: Ref): Rec
      reads n
    {
      Rec(n.red, n.maxHigh, n.left, n.right, n.parent)
    }

    /** w may be written; `y`, `b` and `p` name the other nodes the rotation rewires. */
    method LeftRotate(x: Ref, ghost y: Ref, ghost b: Ref, ghost p: Ref, ghost w: set<Ref>)
      requires x.right == y && y.left == b && x.parent == p
      requires x != y && {x.left, b, y.right} !! {x, y} && p !in {x, y, nil} && (b != nil ==> b != p)
      requires {x, y, p} <= w && (b != nil ==> b in w)
      modifies w
      ensures var m := Max(old(x.left.maxHigh), Max(old(b.maxHigh), x.high));
        && Fields(x, old(Of(x)).(mh := m, right := b, parent := y))
        && Fields(y, old(Of(y)).(mh := Max(m, Max(old(y.right.maxHigh), y.high)), left := x, parent := p))
      ensures b != nil ==> Fields(b, old(Of(b)).(parent := x))
      ensures Fields(p, if old(p.left) == x then old(Of(p)).(left := y) else old(Of(p)).(right := y))
      ensures forall n :: n in w && n !in {x, y, p} && (n != b || b == nil) ==> unchanged(n)
    {
      var y := x.right;
      x.right := y.left;
      if y.left != nil {
        y.left.parent := x;
      }
      y.parent := x.parent;
      if x == x.parent.left {
        x.parent.left := y;
      } else {
        x.parent.right := y;
      }
      y.left := x;
      x.parent := y;
      x.maxHigh := Max(x.left.maxHigh, Max(x.right.maxHigh, x.high));
      y.maxHigh := Max(x.maxHigh, Max(y.right.maxHigh, y.high));
    }

    /** w may be written; `y`, `b` and `p` name the other nodes the rotation rewires. */
    method RightRotate(x: Ref, ghost y: Ref, ghost b: Ref, ghost p: Ref, ghost w: set<Ref>)
      requires x.left == y && y.right == b && x.parent == p
      requires x != y && {x.right, b, y.left} !! {x, y} && p !in {x, y, nil} && (b != nil ==> b != p)
      requires {x, y, p} <= w && (b != nil ==> b in w)
      modifies w
      ensures var m := Max(old(b.maxHigh), Max(old(x.right.maxHigh), x.high));
        && Fields(x, old(Of(x)).(mh := m, left := b, parent := y))
        && Fields(y, old(Of(y)).(mh := Max(old(y.left.maxHigh), Max(m, y.high)), right := x, parent := p))
      ensures b != nil ==> Fields(b, old(Of(b)).(parent := x))
      ensures Fields(p, if old(p.left) == x then old(Of(p)).(left := y) else old(Of(p)).(right := y))
      ensures forall n :: n in w && n !in {x, y, p} && (n != b || b == nil) ==> unchanged(n)
    {
      var y := x.left;
      x.left := y.right;
      if nil != y.right {
        y.right.parent := x;
      }
      y.parent := x.parent;
      if x == x.parent.left {
        x.parent.left := y;
      } else {
        x.parent.right := y;
      }
      y.right := x;
      x.parent := y;
      x.maxHigh := Max(x.left.maxHigh, Max(x.right.maxHigh, x.high));
      y.maxHigh := Max(y.left.maxHigh, Max(x.maxHigh, y.high));
    }

    /** The rotation, said of the fields of all nodes. */
    method LeftRotateFields(x: Ref, ghost y: Ref, ghost b: Ref, ghost p: Ref)
      requires E().LeftRotatable(Snap(Repr), x, y, b, p) && nil in Repr
      modifies Repr
      ensures E().LeftRotated(old(Snap(Repr)), Snap(Repr), x, y, b, p) && nil.parent == old(nil.parent)
    {
      LeftRotate(x, y, b, p, Repr);
    }

    method LeftRotateFocus(x: Ref, ghost c: Ctx, ghost t: Tree)
      requires E().Focus(Snap(Repr), c, t) && t.Node? && t.n == x && t.r.Node?
      modifies Repr
      ensures E().Focus(Snap(Repr), c, RotateLeft(t)) && nil.parent == old(nil.parent)
      ensures SameContent(t, RotateLeft(t))
    {
      hide Ends.Focus, Ends.LeftRotated, Ends.LeftRotatable, SameContent;
      RotateLeftSame(t);
      ghost var st, e := Snap(Repr), E();
      ghost var y, b, p := t.r.n, e.Ptr(t.r.l), e.Par(c);
      e.FocusLeftRotatable(st, c, t);
      e.ReadNil(st, c, t);
      LeftRotateFields(x, y, b, p);
      e.LeftRotatedShape(st, Snap(Repr), c, t);
    }

    /** The rotation, said of the fields of all nodes. */
    method RightRotateFields(x: Ref, ghost y: Ref, ghost b: Ref, ghost p: Ref)
      requires E().RightRotatable(Snap(Repr), x, y, b, p) && nil in Repr
      modifies Repr
      ensures E().RightRotated(old(Snap(Repr)), Snap(Repr), x, y, b, p) && nil.parent == old(nil.parent)
    {
      RightRotate(x, y, b, p, Repr);
    }

    method RightRotateFocus(x: Ref, ghost c: Ctx, ghost t: Tree)
      requires E().Focus(Snap(Repr), c, t) && t.Node? && t.n == x && t.l.Node?
      modifies Repr
      ensures E().Focus(Snap(Repr), c, RotateRight(t)) && nil.parent == old(nil.parent)
      ensures SameContent(t, RotateRight(t))
    {
      hide Ends.Focus, Ends.RightRotated, Ends.RightRotatable, SameContent;
      RotateRightSame(t);
      ghost var st, e := Snap(Repr), E();
      ghost var y, b, p := t.l.n, e.Ptr(t.l.r), e.Par(c);
      e.FocusRightRotatable(st, c, t);
      e.ReadNil(st, c, t);
      RightRotateFields(x, y, b, p);
      e.RightRotatedShape(st, Snap(Repr), c, t);
    }

    // ----- writing colours: d leads from the top of the tree in focus to the node -----

    method Paint(n: Ref, red: bool, ghost c: Ctx, ghost d: Ctx, ghost t: Tree)
      requires E().Focus(Snap(Repr), c, Plug(d, t)) && t.Node? && t.n == n
      modifies Repr
      ensures E().Focus(Snap(Repr), c, Plug(d, Painted(t, red))) && nil.parent == old(nil.parent)
      ensures SameContent(Plug(d, t), Plug(d, Painted(t, red)))
    {
      SameContentPaint(d, t, red);
      ghost var st, e, cc := Snap(Repr), E(), Append(d, c);
      e.FocusPlug(st, d, c, t);
      n.red := red;
      e.Touched(st, Snap(Repr), cc, t, red, t.mh);
      e.FocusPlug(Snap(Repr), d, c, Painted(t, red));
    }

    method PaintTop(n: Ref, red: bool, ghost c: Ctx, ghost g: Tree)
      requires E().Focus(Snap(Repr), c, g) && g.Node? && g.n == n
      modifies Repr
      ensures E().Focus(Snap(Repr), c, Painted(g, red)) && nil.parent == old(nil.parent)
      ensures SameContent(g, Painted(g, red))
    {
      PlugAt(g, g);
      PlugAt(g, Painted(g, red));
      Paint(n, red, c, Top, g);
    }

    method PaintLeft(n: Ref, red: bool, ghost c: Ctx, ghost g: Tree)
      requires E().Focus(Snap(Repr), c, g) && g.Node? && g.l.Node? && g.l.n == n
      modifies Repr
      ensures E().Focus(Snap(Repr), c, SetL(g, Painted(g.l, red))) && nil.parent == old(nil.parent)
      ensures SameContent(g, SetL(g, Painted(g.l, red)))
    {
      PlugAt(g, g.l);
      PlugAt(g, Painted(g.l, red));
      Paint(n, red, c, AtLeft(g), g.l);
    }

    method PaintRight(n: Ref, red: bool, ghost c: Ctx, ghost g: Tree)
      requires E().Focus(Snap(Repr), c, g) && g.Node? && g.r.Node? && g.r.n == n
      modifies Repr
      ensures E().Focus(Snap(Repr), c, SetR(g, Painted(g.r, red))) && nil.parent == old(nil.parent)
      ensures SameContent(g, SetR(g, Painted(g.r, red)))
    {
      PlugAt(g, g.r);
      PlugAt(g, Painted(g.r, red));
      Paint(n, red, c, AtRight(g), g.r);
    }

    // ----- insertion -----

    /** The empty place where key k belongs: after all nodes of the same key. */
    method FindPlace(k: SimTime, ghost t0: Tree) returns (y: Ref, ghost c: Ctx)
      requires E().Focus(Snap(Repr), Top, t0)
      ensures E().Focus(Snap(Repr), c, Leaf) && y == E().Par(c)
      ensures Plug(c, Leaf) == t0 && KeyPath(c, k)
    {
      hide Ends.Focus, Nodes;
      ghost var e, st, t := E(), Snap(Repr), t0;
      e.ReadTop(st, t);
      var x := root.left;
      y, c := root, Top;
      while x != nil
        invariant e.Focus(st, c, t) && x == e.Ptr(t) && y == e.Par(c)
        invariant Plug(c, t) == t0 && KeyPath(c, k)
        decreases t
      {
        e.ReadNode(st, c, t);
        y := x;
        if x.key > k {
          x := x.left;
          c, t := InL(t.n, t.red, t.mh, t.r, c), t.l;
        } else {
          x := x.right;
          c, t := InR(t.l, t.n, t.red, t.mh, c), t.r;
        }
        e.FocusDown(st, c, t);
      }
      e.PtrNil(st, c, t);
    }

    /** Inserts z as into a plain binary tree. */
    method RecursiveInsert(z: Ref, ghost t0: Tree) returns (ghost c: Ctx)
      requires E().Focus(Snap(Repr), Top, t0) && z in Repr && z !in Nodes(t0) + {nil, root}
      modifies Repr
      ensures E().Focus(Snap(Repr), c, Node(Leaf, z, old(z.red), old(z.maxHigh), Leaf))
      ensures Plug(c, Leaf) == t0 && KeyPath(c, z.key)
    {
      hide Ends.Focus;
      ghost var e, st0 := E(), Snap(Repr);
      z.left, z.right := nil, nil;
      e.FocusFrame(st0, Snap(Repr), Top, t0);
      var y;
      y, c := FindPlace(z.key, t0);
      PlugNodes(c, Leaf);
      Hang(z, y, c);
    }

    method Hang(z: Ref, y: Ref, ghost c: Ctx)
      requires E().Focus(Snap(Repr), c, Leaf) && z in Repr && z !in CtxNodes(c) + {nil, root}
      requires y == E().Par(c) && KeyPath(c, z.key) && z.left == z.right == nil
      modifies Repr
      ensures E().Focus(Snap(Repr), c, Node(Leaf, z, old(z.red), old(z.maxHigh), Leaf))
    {
      ghost var e, st := E(), Snap(Repr);
      e.ReadParent(st, c, Leaf);
      assert y == root <==> c.Top?;
      z.parent := y;
      if y == root || y.key > z.key {
        y.left := z;
      } else {
        y.right := z;
      }
      e.Hung(st, Snap(Repr), c, z, old(z.red), old(z.maxHigh));
    }

    method FixupMaxHigh(x0: Ref, ghost c0: Ctx, ghost t0: Tree)
      requires E().Focus(Snap(Repr), c0, t0) && x0 == E().Par(c0)
      modifies Repr
      ensures E().Focus(Snap(Repr), FixMax(c0, Mh(t0)), t0) && nil.parent == old(nil.parent)
    {
      hide Ends.Focus, Ends.Shape;
      ghost var e, r := E(), FixMax(c0, Mh(t0));
      var x := x0;
      ghost var c, t, fixed := c0, t0, Plug(r, t0);
      e.ParentIsRoot(Snap(Repr), c, t);
      while x != root
        invariant e.Focus(Snap(Repr), c, t) && x == e.Par(c) && (x == root <==> c.Top?)
        invariant Plug(FixMax(c, Mh(t)), t) == fixed && nil.parent == old(nil.parent)
        decreases c
      {
        ghost var st, up, m := Snap(Repr), Fill(c, t), Max(c.n.high, Max(Mh(t), Mh(Sibling(c))));
        e.FocusUp(st, c, t);
        e.ReadNode(st, c.up, up);
        x.maxHigh := Max(x.high, Max(x.left.maxHigh, x.right.maxHigh));
        x := x.parent;
        e.Touched(st, Snap(Repr), c.up, up, up.red, m);
        c, t := c.up, Node(up.l, up.n, up.red, m, up.r);
        e.ParentIsRoot(Snap(Repr), c, t);
      }
      e.FocusPlug(Snap(Repr), r, Top, t0);
      AppendTop(r);
    }

    /** The repair looks at the red node x. */
    ghost predicate InsertAt(x: Ref, c: Ctx, t: Tree)
      reads this, Repr
    {
      E().Focus(Snap(Repr), c, t) && InsertInv(c, t) && t.Node? && t.red && x == t.n
    }

    /** A red uncle y: parent and uncle turn black, the grandparent red. */
    method RecolourLeft(x0: Ref, y: Ref, ghost c0: Ctx, ghost t0: Tree) returns (x: Ref, ghost c: Ctx, ghost t: Tree)
      requires InsertAt(x0, c0, t0) && CtxRed(c0) && c0.up.InL? && IsRed(c0.up.r) && y == c0.up.r.n
      modifies Repr
      ensures InsertAt(x, c, t) && SameContent(Plug(c0, t0), Plug(c, t))
      ensures Depth(c) < Depth(c0)
    {
      hide Ends.Focus, SameContent, Plug, InsertInv;
      ghost var e, p, u := E(), Fill(c0, t0), c0.up.r;
      ghost var g := Fill(c0.up, p);
      InsertRecolours(c0, t0, u);
      c, t := c0.up.up, Node(Painted(p, false), c0.up.n, true, c0.up.mh, Painted(u, false));
      ghost var g1, g2 := SetL(g, Painted(p, false)), SetL(SetR(g, Painted(u, false)), Painted(p, false));
      PlugUp(c0, t0);
      PlugUp(c0.up, p);
      e.ReadGrand(Snap(Repr), c0, t0);
      e.FocusUp(Snap(Repr), c0, t0);
      e.FocusUp(Snap(Repr), c0.up, p);
      x := x0.parent.parent;
      PaintLeft(x0.parent, false, c, g);
      PaintRight(y, false, c, g1);
      PaintTop(x, true, c, g2);
      SameContentTrans(g, g1, g2);
      SameContentTrans(g, g2, t);
      SameContentPlug(c, g, t);
    }

    method RecolourRight(x0: Ref, y: Ref, ghost c0: Ctx, ghost t0: Tree) returns (x: Ref, ghost c: Ctx, ghost t: Tree)
      requires InsertAt(x0, c0, t0) && CtxRed(c0) && c0.up.InR? && IsRed(c0.up.l) && y == c0.up.l.n
      modifies Repr
      ensures InsertAt(x, c, t) && SameContent(Plug(c0, t0), Plug(c, t))
      ensures Depth(c) < Depth(c0)
    {
      hide Ends.Focus, SameContent, Plug, InsertInv;
      ghost var e, p, u := E(), Fill(c0, t0), c0.up.l;
      ghost var g := Fill(c0.up, p);
      InsertRecolours(c0, t0, u);
      c, t := c0.up.up, Node(Painted(u, false), c0.up.n, true, c0.up.mh, Painted(p, false));
      ghost var g1, g2 := SetR(g, Painted(p, false)), SetR(SetL(g, Painted(u, false)), Painted(p, false));
      PlugUp(c0, t0);
      PlugUp(c0.up, p);
      e.ReadGrand(Snap(Repr), c0, t0);
      e.FocusUp(Snap(Repr), c0, t0);
      e.FocusUp(Snap(Repr), c0.up, p);
      x := x0.parent.parent;
      PaintRight(x0.parent, false, c, g);
      PaintLeft(y, false, c, g1);
      PaintTop(x, true, c, g2);
      SameContentTrans(g, g1, g2);
      SameContentTrans(g, g2, t);
      SameContentPlug(c, g, t);
    }

    /** The node is on the inner side of the grandparent: its parent is rotated, and takes its part. */
    method TurnLeft(x0: Ref, ghost c0: Ctx, ghost t0: Tree) returns (x: Ref, ghost c: Ctx, ghost t: Tree)
      requires InsertAt(x0, c0, t0) && CtxRed(c0) && c0.InR?
      modifies Repr
      ensures InsertAt(x, c, t) && SameContent(Plug(c0, t0), Plug(c, t))
      ensures c.InL? && c.red && c.up == c0.up
    {
      hide Ends.Focus, SameContent, Plug, InsertInv;
      ghost var e, p := E(), Fill(c0, t0);
      ghost var r := RotateLeft(p);
      InsertTurnsLeft(c0, t0);
      c, t := InL(r.n, r.red, r.mh, r.r, c0.up), r.l;
      assert Fill(c, t) == r;
      PlugUp(c0, t0);
      PlugUp(c, t);
      e.ReadParent(Snap(Repr), c0, t0);
      e.FocusUp(Snap(Repr), c0, t0);
      x := x0.parent;
      LeftRotateFocus(x, c0.up, p);
      SameContentPlug(c0.up, p, r);
      e.FocusDown(Snap(Repr), c, t);
    }

    method TurnRight(x0: Ref, ghost c0: Ctx, ghost t0: Tree) returns (x: Ref, ghost c: Ctx, ghost t: Tree)
      requires InsertAt(x0, c0, t0) && CtxRed(c0) && c0.InL?
      modifies Repr
      ensures InsertAt(x, c, t) && SameContent(Plug(c0, t0), Plug(c, t))
      ensures c.InR? && c.red && c.up == c0.up
    {
      hide Ends.Focus, SameContent, Plug, InsertInv;
      ghost var e, p := E(), Fill(c0, t0);
      ghost var r := RotateRight(p);
      InsertTurnsRight(c0, t0);
      c, t := InR(r.l, r.n, r.red, r.mh, c0.up), r.r;
      assert Fill(c, t) == r;
      PlugUp(c0, t0);
      PlugUp(c, t);
      e.ReadParent(Snap(Repr), c0, t0);
      e.FocusUp(Snap(Repr), c0, t0);
      x := x0.parent;
      RightRotateFocus(x, c0.up, p);
      SameContentPlug(c0.up, p, r);
      e.FocusDown(Snap(Repr), c, t);
    }

    /** The node is on the outer side: parent black, grandparent red, and a rotation of the latter. */
    method RaiseLeft(x: Ref, ghost c0: Ctx, ghost t: Tree) returns (ghost c: Ctx)
      requires InsertAt(x, c0, t) && CtxRed(c0) && c0.InL? && c0.up.InL? && !IsRed(c0.up.r)
      modifies Repr
      ensures InsertAt(x, c, t) && SameContent(Plug(c0, t), Plug(c, t))
      ensures !CtxRed(c)
    {
      hide Ends.Focus, SameContent, Plug, InsertInv;
      ghost var e, p, o := E(), Fill(c0, t), c0.up.up;
      ghost var g := Fill(c0.up, p);
      ghost var g1 := SetL(g, Painted(p, false));
      ghost var g2 := Painted(g1, true);
      ghost var r := RotateRight(g2);
      InsertRotatesRight(c0, t);
      assert r.l == t;
      c := InL(r.n, r.red, r.mh, r.r, o);
      assert Fill(c, t) == r;
      PlugUp(c0, t);
      PlugUp(c0.up, p);
      PlugUp(c, t);
      e.ReadGrand(Snap(Repr), c0, t);
      e.FocusUp(Snap(Repr), c0, t);
      e.FocusUp(Snap(Repr), c0.up, p);
      var gp := x.parent.parent;
      PaintLeft(x.parent, false, o, g);
      PaintTop(gp, true, o, g1);
      RightRotateFocus(gp, o, g2);
      SameContentTrans(g, g1, g2);
      SameContentTrans(g, g2, r);
      SameContentPlug(o, g, r);
      e.FocusDown(Snap(Repr), c, t);
    }

    method RaiseRight(x: Ref, ghost c0: Ctx, ghost t: Tree) returns (ghost c: Ctx)
      requires InsertAt(x, c0, t) && CtxRed(c0) && c0.InR? && c0.up.InR? && !IsRed(c0.up.l)
      modifies Repr
      ensures InsertAt(x, c, t) && SameContent(Plug(c0, t), Plug(c, t))
      ensures !CtxRed(c)
    {
      hide Ends.Focus, SameContent, Plug, InsertInv;
      ghost var e, p, o := E(), Fill(c0, t), c0.up.up;
      ghost var g := Fill(c0.up, p);
      ghost var g1 := SetR(g, Painted(p, false));
      ghost var g2 := Painted(g1, true);
      ghost var r := RotateLeft(g2);
      InsertRotatesLeft(c0, t);
      assert r.r == t;
      c := InR(r.l, r.n, r.red, r.mh, o);
      assert Fill(c, t) == r;
      PlugUp(c0, t);
      PlugUp(c0.up, p);
      PlugUp(c, t);
      e.ReadGrand(Snap(Repr), c0, t);
      e.FocusUp(Snap(Repr), c0, t);
      e.FocusUp(Snap(Repr), c0.up, p);
      var gp := x.parent.parent;
      PaintRight(x.parent, false, o, g);
      PaintTop(gp, true, o, g1);
      LeftRotateFocus(gp, o, g2);
      SameContentTrans(g, g1, g2);
      SameContentTrans(g, g2, r);
      SameContentPlug(o, g, r);
      e.FocusDown(Snap(Repr), c, t);
    }

    /** One round of the repair loop, the parent being a left child. */
    method InsertRoundLeft(x0: Ref, ghost c0: Ctx, ghost t0: Tree) returns (x: Ref, ghost c: Ctx, ghost t: Tree)
      requires InsertAt(x0, c0, t0) && CtxRed(c0) && c0.up.InL?
      modifies Repr
      ensures InsertAt(x, c, t) && SameContent(Plug(c0, t0), Plug(c, t))
      ensures CtxRed(c) ==> Depth(c) < Depth(c0)
    {
      hide Ends.Focus, SameContent, Plug, InsertInv;
      E().ReadGrand(Snap(Repr), c0, t0);
      E().ReadParent(Snap(Repr), c0, t0);
      x, c, t := x0, c0, t0;
      var y := x.parent.parent.right;
      if y.red {
        x, c, t := RecolourLeft(x, y, c, t);
      } else {
        if x == x.parent.right {
          x, c, t := TurnLeft(x, c, t);
        }
        ghost var c1 := c;
        c := RaiseLeft(x, c, t);
        SameContentTrans(Plug(c0, t0), Plug(c1, t), Plug(c, t));
      }
    }

    /** One round of the repair loop, the parent being a right child. */
    method InsertRoundRight(x0: Ref, ghost c0: Ctx, ghost t0: Tree) returns (x: Ref, ghost c: Ctx, ghost t: Tree)
      requires InsertAt(x0, c0, t0) && CtxRed(c0) && c0.up.InR?
      modifies Repr
      ensures InsertAt(x, c, t) && SameContent(Plug(c0, t0), Plug(c, t))
      ensures CtxRed(c) ==> Depth(c) < Depth(c0)
    {
      hide Ends.Focus, SameContent, Plug, InsertInv;
      E().ReadGrand(Snap(Repr), c0, t0);
      E().ReadParent(Snap(Repr), c0, t0);
      x, c, t := x0, c0, t0;
      var y := x.parent.parent.left;
      if y.red {
        x, c, t := RecolourRight(x, y, c, t);
      } else {
        if x == x.parent.left {
          x, c, t := TurnRight(x, c, t);
        }
        ghost var c1 := c;
        c := RaiseRight(x, c, t);
        SameContentTrans(Plug(c0, t0), Plug(c1, t), Plug(c, t));
      }
    }

    method InsertRound(x0: Ref, ghost c0: Ctx, ghost t0: Tree) returns (x: Ref, ghost c: Ctx, ghost t: Tree)
      requires InsertAt(x0, c0, t0) && CtxRed(c0)
      modifies Repr
      ensures InsertAt(x, c, t) && SameContent(Plug(c0, t0), Plug(c, t))
      ensures CtxRed(c) ==> Depth(c) < Depth(c0)
    {
      hide Ends.Focus, SameContent, Plug, InsertInv;
      OuterRed(c0, t0);
      E().ReadGrand(Snap(Repr), c0, t0);
      if x0.parent == x0.parent.parent.left {
        x, c, t := InsertRoundLeft(x0, c0, t0);
      } else {
        x, c, t := InsertRoundRight(x0, c0, t0);
      }
    }

    /** The repair loop, and the black root. */
    method InsertFixup(x0: Ref, ghost c0: Ctx, ghost t0: Tree) returns (ghost r: Tree)
      requires InsertAt(x0, c0, t0)
      modifies Repr
      ensures E().Focus(Snap(Repr), Top, r) && RedBlack(r) && SameContent(Plug(c0, t0), r)
    {
      hide Ends.Focus, SameContent, Plug, InsertInv, RedBlack;
      var x := x0;
      ghost var c, t, whole := c0, t0, Plug(c0, t0);
      E().ReadParent(Snap(Repr), c, t);
      SameContentRefl(whole);
      while x.parent.red
        invariant InsertAt(x, c, t) && SameContent(whole, Plug(c, t))
        invariant x.parent in Repr && x.parent.red == CtxRed(c)
        decreases if CtxRed(c) then Depth(c) + 1 else 0
      {
        ghost var c1, t1 := c, t;
        x, c, t := InsertRound(x, c, t);
        SameContentTrans(whole, Plug(c1, t1), Plug(c, t));
        E().ReadParent(Snap(Repr), c, t);
      }
      InsertDone(c, t);
      r := BlackenRoot(c, t);
      SameContentTrans(whole, Plug(c, t), r);
    }

    method BlackenRoot(ghost c: Ctx, ghost t: Tree) returns (ghost r: Tree)
      requires E().Focus(Snap(Repr), c, t) && Plug(c, t).Node?
      modifies Repr
      ensures r == Painted(Plug(c, t), false) && E().Focus(Snap(Repr), Top, r) && SameContent(Plug(c, t), r)
    {
      ghost var whole := Plug(c, t);
      r := Painted(whole, false);
      AppendTop(c);
      E().FocusPlug(Snap(Repr), c, Top, t);
      assert Plug(Top, whole) == whole;
      E().ReadTop(Snap(Repr), whole);
      PaintTop(root.left, false, Top, whole);
    }

    method InsertNode(x: Ref, ghost t0: Tree) returns (ghost r: Tree, ghost k: nat)
      requires E().Focus(Snap(Repr), Top, t0) && ValidTree(t0)
      requires x in Repr && x !in Nodes(t0) + {nil, root} && Stores(x) && !x.red && x.maxHigh == x.high
      modifies Repr
      ensures E().Focus(Snap(Repr), Top, r) && ValidTree(r) && Nodes(r) == Nodes(t0) + {x}
      ensures InsertedAt(Inorder(t0), x, k, Inorder(r))
    {
      hide Ends.Focus, SameContent, Plug, InsertInv, ValidTree, InsertedAt;
      ghost var c0 := RecursiveInsert(x, t0);
      InsertStarts(c0, x);
      ghost var c, t := FixMax(c0, x.high), Node(Leaf, x, false, x.high, Leaf);
      E().ReadParent(Snap(Repr), c0, t);
      FixupMaxHigh(x.parent, c0, t);
      PaintTop(x, true, c, t);
      t := Painted(t, true);
      r := InsertFixup(x, c, t);
      InsertEnds(c0, x, r);
      k := |Before(c0)|;
    }

    /** A new node joins the allocated ones. */
    ghost method Adopt(x: Ref)
      requires E().Focus(Snap(Repr), Top, tree) && x !in Repr
      modifies this`Repr
      ensures Repr == old(Repr) + {x} && E().Focus(Snap(Repr), Top, tree)
    {
      ghost var st0 := Snap(Repr);
      Repr := Repr + {x};
      E().FocusFrame(st0, Snap(Repr), Top, tree);
    }

    /** The tree r, whose nodes are all there are, becomes the current one. */
    ghost method Install(r: Tree)
      requires E().Focus(Snap(Repr), Top, r) && ValidTree(r) && Repr == Nodes(r) + {nil, root}
      requires root.storedInterval == null && nil.storedInterval == null && StackIdle()
      modifies this`tree
      ensures Valid() && tree == r
    {
      hide Ends.Focus, ValidTree, Nodes;
      tree := r;
    }

    method Insert(interval: Interval) returns (newNode: Ref, ghost k: nat)
      requires Valid()
      modifies this, Repr
      ensures Valid() && fresh(newNode) && Repr == old(Repr) + {newNode}
      ensures newNode.storedInterval == interval
      ensures InsertedAt(old(Contents()), newNode, k, Contents())
    {
      hide Ends.Focus, ValidTree, InsertedAt, Inorder, Nodes;
      newNode := new IntervalTreeNode.Stored(interval, nil);
      ghost var t0, r := tree, tree;
      Adopt(newNode);
      assert newNode !in Nodes(t0);
      r, k := InsertNode(newNode, t0);
      Install(r);
    }

    // ----- deletion: the repair loop -----

    /** The repair looks at x, whose subtree t is one black node short. x may be `nil`. */
    ghost predicate DeleteAt(x: Ref, c: Ctx, t: Tree)
      reads this, Repr
    {
      && E().Focus(Snap(Repr), c, t) && DeleteInv(c, t)
      && x in Repr && x == E().Ptr(t) && x.parent == E().Par(c)
    }

    /** Case 1, a red sibling: it turns black, the parent red, and a rotation brings a black sibling. */
    method RedSiblingLeft(x: Ref, ghost c0: Ctx, ghost t: Tree) returns (ghost c: Ctx)
      requires DeleteAt(x, c0, t) && !IsRed(t) && c0.InL? && IsRed(c0.r)
      modifies Repr
      ensures DeleteAt(x, c, t) && SameContent(Plug(c0, t), Plug(c, t))
      ensures c.InL? && c.n == c0.n && c.red && !IsRed(c.r) && !c.up.Top? && c.up.up == c0.up
    {
      hide Ends.Focus, SameContent, Plug, DeleteInv;
      ghost var e, o, g := E(), c0.up, Fill(c0, t);
      ghost var g1 := SetR(g, Painted(c0.r, false));
      ghost var g2 := Painted(g1, true);
      ghost var r := RotateLeft(g2);
      DeleteRotatesLeft(c0, t);
      c := InL(r.l.n, r.l.red, r.l.mh, r.l.r, InL(r.n, r.red, r.mh, r.r, o));
      assert Fill(c, t) == r.l;
      assert Fill(c.up, r.l) == r;
      PlugUp(c0, t);
      PlugUp(c, t);
      PlugUp(c.up, r.l);
      e.ReadSibling(Snap(Repr), c0, t);
      e.FocusUp(Snap(Repr), c0, t);
      var p := x.parent;
      var w := p.right;
      PaintRight(w, false, o, g);
      PaintTop(p, true, o, g1);
      LeftRotateFocus(p, o, g2);
      SameContentTrans(g, g1, g2);
      SameContentTrans(g, g2, r);
      SameContentPlug(o, g, r);
      e.FocusDown(Snap(Repr), c.up, r.l);
      e.FocusDown(Snap(Repr), c, t);
      e.ReadParent(Snap(Repr), c, t);
    }

    method RedSiblingRight(x: Ref, ghost c0: Ctx, ghost t: Tree) returns (ghost c: Ctx)
      requires DeleteAt(x, c0, t) && !IsRed(t) && c0.InR? && IsRed(c0.l)
      modifies Repr
      ensures DeleteAt(x, c, t) && SameContent(Plug(c0, t), Plug(c, t))
      ensures c.InR? && c.n == c0.n && c.red && !IsRed(c.l) && !c.up.Top? && c.up.up == c0.up
    {
      hide Ends.Focus, SameContent, Plug, DeleteInv;
      ghost var e, o, g := E(), c0.up, Fill(c0, t);
      ghost var g1 := SetL(g, Painted(c0.l, false));
      ghost var g2 := Painted(g1, true);
      ghost var r := RotateRight(g2);
      DeleteRotatesRight(c0, t);
      c := InR(r.r.l, r.r.n, r.r.red, r.r.mh, InR(r.l, r.n, r.red, r.mh, o));
      assert Fill(c, t) == r.r;
      assert Fill(c.up, r.r) == r;
      PlugUp(c0, t);
      PlugUp(c, t);
      PlugUp(c.up, r.r);
      e.ReadSibling(Snap(Repr), c0, t);
      e.FocusUp(Snap(Repr), c0, t);
      var p := x.parent;
      var w := p.left;
      PaintLeft(w, false, o, g);
      PaintTop(p, true, o, g1);
      RightRotateFocus(p, o, g2);
      SameContentTrans(g, g1, g2);
      SameContentTrans(g, g2, r);
      SameContentPlug(o, g, r);
      e.FocusDown(Snap(Repr), c.up, r.r);
      e.FocusDown(Snap(Repr), c, t);
      e.ReadParent(Snap(Repr), c, t);
    }

    /** Case 2, a black sibling without red children: it turns red, and the parent is looked at next. */
    method BlackNephewsLeft(x0: Ref, ghost c0: Ctx, ghost t0: Tree) returns (x: Ref, ghost t: Tree)
      requires DeleteAt(x0, c0, t0) && !IsRed(t0) && c0.InL?
      requires c0.r.Node? && !c0.r.red && !IsRed(c0.r.l) && !IsRed(c0.r.r)
      modifies Repr
      ensures DeleteAt(x, c0.up, t) && SameContent(Plug(c0, t0), Plug(c0.up, t))
      ensures IsRed(t) == c0.red && x == c0.n
    {
      hide Ends.Focus, SameContent, Plug, DeleteInv;
      ghost var e, o, g := E(), c0.up, Fill(c0, t0);
      t := SetR(g, Painted(c0.r, true));
      DeleteRecolours(c0, t0);
      PlugUp(c0, t0);
      e.ReadSibling(Snap(Repr), c0, t0);
      e.FocusUp(Snap(Repr), c0, t0);
      var w := x0.parent.right;
      x := x0.parent;
      PaintRight(w, true, o, g);
      SameContentPlug(o, g, t);
      e.ReadParent(Snap(Repr), o, t);
    }

    method BlackNephewsRight(x0: Ref, ghost c0: Ctx, ghost t0: Tree) returns (x: Ref, ghost t: Tree)
      requires DeleteAt(x0, c0, t0) && !IsRed(t0) && c0.InR?
      requires c0.l.Node? && !c0.l.red && !IsRed(c0.l.l) && !IsRed(c0.l.r)
      modifies Repr
      ensures DeleteAt(x, c0.up, t) && SameContent(Plug(c0, t0), Plug(c0.up, t))
      ensures IsRed(t) == c0.red && x == c0.n
    {
      hide Ends.Focus, SameContent, Plug, DeleteInv;
      ghost var e, o, g := E(), c0.up, Fill(c0, t0);
      t := SetL(g, Painted(c0.l, true));
      DeleteRecolours(c0, t0);
      PlugUp(c0, t0);
      e.ReadSibling(Snap(Repr), c0, t0);
      e.FocusUp(Snap(Repr), c0, t0);
      var w := x0.parent.left;
      x := x0.parent;
      PaintLeft(w, true, o, g);
      SameContentPlug(o, g, t);
      e.ReadParent(Snap(Repr), o, t);
    }

    /** Case 3, only the near nephew is red: rotating the sibling makes the far one red. */
    method NearNephewLeft(x: Ref, ghost c0: Ctx, ghost t: Tree) returns (ghost c: Ctx)
      requires DeleteAt(x, c0, t) && !IsRed(t) && c0.InL?
      requires c0.r.Node? && !c0.r.red && IsRed(c0.r.l) && !IsRed(c0.r.r)
      modifies Repr
      ensures DeleteAt(x, c, t) && SameContent(Plug(c0, t), Plug(c, t))
      ensures c.InL? && c.n == c0.n && c.up == c0.up && c.r.Node? && !c.r.red && IsRed(c.r.r)
    {
      hide Ends.Focus, SameContent, Plug, DeleteInv;
      ghost var e, o, g, u := E(), c0.up, Fill(c0, t), c0.r;
      ghost var u1 := SetL(u, Painted(u.l, false));
      ghost var u2 := Painted(u1, true);
      ghost var u3 := RotateRight(u2);
      ghost var cw := InR(t, c0.n, c0.red, c0.mh, o);
      DeleteTurnsRight(c0, t);
      c := InL(c0.n, c0.red, c0.mh, u3, o);
      assert Fill(cw, u) == g && Fill(cw, u3) == Fill(c, t) == SetR(g, u3);
      PlugUp(c0, t);
      PlugUp(c, t);
      e.ReadSibling(Snap(Repr), c0, t);
      e.FocusUp(Snap(Repr), c0, t);
      e.FocusDown(Snap(Repr), cw, u);
      var w := x.parent.right;
      PaintLeft(w.left, false, cw, u);
      PaintTop(w, true, cw, u1);
      RightRotateFocus(w, cw, u2);
      SameContentTrans(u, u1, u2);
      SameContentTrans(u, u2, u3);
      SameContentSet(g, u, u3);
      SameContentPlug(o, g, SetR(g, u3));
      e.FocusUp(Snap(Repr), cw, u3);
      e.FocusDown(Snap(Repr), c, t);
      e.ReadParent(Snap(Repr), c, t);
    }

    method NearNephewRight(x: Ref, ghost c0: Ctx, ghost t: Tree) returns (ghost c: Ctx)
      requires DeleteAt(x, c0, t) && !IsRed(t) && c0.InR?
      requires c0.l.Node? && !c0.l.red && IsRed(c0.l.r) && !IsRed(c0.l.l)
      modifies Repr
      ensures DeleteAt(x, c, t) && SameContent(Plug(c0, t), Plug(c, t))
      ensures c.InR? && c.n == c0.n && c.up == c0.up && c.l.Node? && !c.l.red && IsRed(c.l.l)
    {
      hide Ends.Focus, SameContent, Plug, DeleteInv;
      ghost var e, o, g, u := E(), c0.up, Fill(c0, t), c0.l;
      ghost var u1 := SetR(u, Painted(u.r, false));
      ghost var u2 := Painted(u1, true);
      ghost var u3 := RotateLeft(u2);
      ghost var cw := InL(c0.n, c0.red, c0.mh, t, o);
      DeleteTurnsLeft(c0, t);
      c := InR(u3, c0.n, c0.red, c0.mh, o);
      assert Fill(cw, u) == g && Fill(cw, u3) == Fill(c, t) == SetL(g, u3);
      PlugUp(c0, t);
      PlugUp(c, t);
      e.ReadSibling(Snap(Repr), c0, t);
      e.FocusUp(Snap(Repr), c0, t);
      e.FocusDown(Snap(Repr), cw, u);
      var w := x.parent.left;
      PaintRight(w.right, false, cw, u);
      PaintTop(w, true, cw, u1);
      LeftRotateFocus(w, cw, u2);
      SameContentTrans(u, u1, u2);
      SameContentTrans(u, u2, u3);
      SameContentSet(g, u, u3);
      SameContentPlug(o, g, SetL(g, u3));
      e.FocusUp(Snap(Repr), cw, u3);
      e.FocusDown(Snap(Repr), c, t);
      e.ReadParent(Snap(Repr), c, t);
    }

    /** Case 4, the far nephew is red: a rotation of the parent ends the repair. */
    method FarNephewLeft(x: Ref, ghost c0: Ctx, ghost t: Tree) returns (ghost r: Tree)
      requires DeleteAt(x, c0, t) && !IsRed(t) && c0.InL?
      requires c0.r.Node? && !c0.r.red && IsRed(c0.r.r)
      modifies Repr
      ensures E().Focus(Snap(Repr), c0.up, r) && RedBlack(Plug(c0.up, r)) && SameContent(Plug(c0, t), Plug(c0.up, r))
      ensures c0.n in Repr && !c0.n.red
    {
      hide Ends.Focus, SameContent, Plug, DeleteInv;
      ghost var e, o, g, u := E(), c0.up, Fill(c0, t), c0.r;
      ghost var u1 := Painted(u, c0.red);
      ghost var u2 := SetR(u1, Painted(u.r, false));
      ghost var g1 := SetR(g, u1);
      ghost var g2 := Painted(g1, false);
      ghost var g3 := SetR(g2, u2);
      ghost var cw := InR(t, c0.n, false, c0.mh, o);
      r := RotateLeft(g3);
      DeleteEndsLeft(c0, t);
      assert Fill(cw, u1) == g2 == SetR(g2, u1) && Fill(cw, u2) == g3;
      PlugUp(c0, t);
      assert r.l.n == c0.n && !r.l.red;
      e.ReadSibling(Snap(Repr), c0, t);
      e.FocusUp(Snap(Repr), c0, t);
      var p := x.parent;
      var w := p.right;
      var nephew := w.right;
      PaintRight(w, p.red, o, g);
      PaintTop(p, false, o, g1);
      e.FocusDown(Snap(Repr), cw, u1);
      PaintRight(nephew, false, cw, u1);
      e.FocusUp(Snap(Repr), cw, u2);
      LeftRotateFocus(p, o, g3);
      SameContentSet(g2, u1, u2);
      SameContentTrans(g, g1, g2);
      SameContentTrans(g, g2, g3);
      SameContentTrans(g, g3, r);
      SameContentPlug(o, g, r);
      e.ReadChild(Snap(Repr), o, r);
    }

    method FarNephewRight(x: Ref, ghost c0: Ctx, ghost t: Tree) returns (ghost r: Tree)
      requires DeleteAt(x, c0, t) && !IsRed(t) && c0.InR?
      requires c0.l.Node? && !c0.l.red && IsRed(c0.l.l)
      modifies Repr
      ensures E().Focus(Snap(Repr), c0.up, r) && RedBlack(Plug(c0.up, r)) && SameContent(Plug(c0, t), Plug(c0.up, r))
      ensures c0.n in Repr && !c0.n.red
    {
      hide Ends.Focus, SameContent, Plug, DeleteInv;
      ghost var e, o, g, u := E(), c0.up, Fill(c0, t), c0.l;
      ghost var u1 := Painted(u, c0.red);
      ghost var u2 := SetL(u1, Painted(u.l, false));
      ghost var g1 := SetL(g, u1);
      ghost var g2 := Painted(g1, false);
      ghost var g3 := SetL(g2, u2);
      ghost var cw := InL(c0.n, false, c0.mh, t, o);
      r := RotateRight(g3);
      DeleteEndsRight(c0, t);
      assert Fill(cw, u1) == g2 == SetL(g2, u1) && Fill(cw, u2) == g3;
      PlugUp(c0, t);
      assert r.r.n == c0.n && !r.r.red;
      e.ReadSibling(Snap(Repr), c0, t);
      e.FocusUp(Snap(Repr), c0, t);
      var p := x.parent;
      var w := p.left;
      var nephew := w.left;
      PaintLeft(w, p.red, o, g);
      PaintTop(p, false, o, g1);
      e.FocusDown(Snap(Repr), cw, u1);
      PaintLeft(nephew, false, cw, u1);
      e.FocusUp(Snap(Repr), cw, u2);
      RightRotateFocus(p, o, g3);
      SameContentSet(g2, u1, u2);
      SameContentTrans(g, g1, g2);
      SameContentTrans(g, g2, g3);
      SameContentTrans(g, g3, r);
      SameContentPlug(o, g, r);
      e.ReadChild(Snap(Repr), o, r);
    }

    /** `root.left` as it was before the repair: still the topmost node, or by now the parent of the node looked at. */
    ghost predicate OldRoot(rl: Ref, c: Ctx)
      requires !c.Top?
    {
      rl == c.n || (!c.up.Top? && rl == Outermost(c.up))
    }

    /** Either the repair goes on at x, or it is over and x is the old root, black. */
    ghost predicate DeleteGoesOn(done: bool, x: Ref, rl: Ref, c: Ctx, t: Tree)
      reads this, Repr
    {
      if done
      then E().Focus(Snap(Repr), c, t) && RedBlack(Plug(c, t)) && x == rl && rl in Repr && !rl.red
      else DeleteAt(x, c, t) && (!IsRed(t) ==> rl == if c.Top? then x else Outermost(c))
    }

    /** Cases 3 and 4. */
    method RedNephewLeft(x: Ref, rl: Ref, ghost c0: Ctx, ghost t0: Tree) returns (ghost t: Tree)
      requires DeleteAt(x, c0, t0) && !IsRed(t0) && c0.InL? && OldRoot(rl, c0)
      requires c0.r.Node? && !c0.r.red && (IsRed(c0.r.l) || IsRed(c0.r.r))
      modifies Repr
      ensures DeleteGoesOn(true, rl, rl, c0.up, t) && SameContent(Plug(c0, t0), Plug(c0.up, t))
    {
      hide Ends.Focus, SameContent, Plug, DeleteInv, RedBlack;
      ghost var c, o := c0, c0.up;
      E().ReadSibling(Snap(Repr), c0, t0);
      DeleteOuter(c0, t0);
      if !x.parent.right.right.red {
        c := NearNephewLeft(x, c0, t0);
      }
      t := FarNephewLeft(x, c, t0);
      if c != c0 { SameContentTrans(Plug(c0, t0), Plug(c, t0), Plug(o, t)); }
      if rl != c0.n {
        E().FocusOutermost(Snap(Repr), o, t, if c0.red then BlackHeight(t0) + 1 else BlackHeight(t0) + 2);
      }
    }

    method RedNephewRight(x: Ref, rl: Ref, ghost c0: Ctx, ghost t0: Tree) returns (ghost t: Tree)
      requires DeleteAt(x, c0, t0) && !IsRed(t0) && c0.InR? && OldRoot(rl, c0)
      requires c0.l.Node? && !c0.l.red && (IsRed(c0.l.l) || IsRed(c0.l.r))
      modifies Repr
      ensures DeleteGoesOn(true, rl, rl, c0.up, t) && SameContent(Plug(c0, t0), Plug(c0.up, t))
    {
      hide Ends.Focus, SameContent, Plug, DeleteInv, RedBlack;
      ghost var c, o := c0, c0.up;
      E().ReadSibling(Snap(Repr), c0, t0);
      DeleteOuter(c0, t0);
      if !x.parent.left.left.red {
        c := NearNephewRight(x, c0, t0);
      }
      t := FarNephewRight(x, c, t0);
      if c != c0 { SameContentTrans(Plug(c0, t0), Plug(c, t0), Plug(o, t)); }
      if rl != c0.n {
        E().FocusOutermost(Snap(Repr), o, t, if c0.red then BlackHeight(t0) + 1 else BlackHeight(t0) + 2);
      }
    }

    /** One round of the repair loop, x being a left child. */
    method DeleteRoundLeft(x0: Ref, rl: Ref, ghost c0: Ctx, ghost t0: Tree)
      returns (x: Ref, ghost c: Ctx, ghost t: Tree, ghost done: bool)
      requires DeleteAt(x0, c0, t0) && !IsRed(t0) && c0.InL? && rl == Outermost(c0)
      modifies Repr
      ensures DeleteGoesOn(done, x, rl, c, t) && SameContent(Plug(c0, t0), Plug(c, t))
      ensures !done && !IsRed(t) ==> Depth(c) < Depth(c0)
    {
      hide Ends.Focus, SameContent, Plug, DeleteInv, RedBlack;
      DeleteHasSibling(c0, t0);
      E().ReadSibling(Snap(Repr), c0, t0);
      SameContentRefl(Plug(c0, t0));
      x, c, t := x0, c0, t0;
      if x.parent.right.red {
        c := RedSiblingLeft(x, c, t);
        DeleteHasSibling(c, t);
        E().ReadSibling(Snap(Repr), c, t);
      }
      var w := x.parent.right;
      ghost var c1 := c;
      if !w.right.red && !w.left.red {
        x, t := BlackNephewsLeft(x, c, t);
        c, done := c.up, false;
      } else {
        t := RedNephewLeft(x, rl, c, t);
        c, x, done := c.up, rl, true;
      }
      SameContentTrans(Plug(c0, t0), Plug(c1, t0), Plug(c, t));
    }

    /** One round of the repair loop, x being a right child. */
    method DeleteRoundRight(x0: Ref, rl: Ref, ghost c0: Ctx, ghost t0: Tree)
      returns (x: Ref, ghost c: Ctx, ghost t: Tree, ghost done: bool)
      requires DeleteAt(x0, c0, t0) && !IsRed(t0) && c0.InR? && rl == Outermost(c0)
      modifies Repr
      ensures DeleteGoesOn(done, x, rl, c, t) && SameContent(Plug(c0, t0), Plug(c, t))
      ensures !done && !IsRed(t) ==> Depth(c) < Depth(c0)
    {
      hide Ends.Focus, SameContent, Plug, DeleteInv, RedBlack;
      DeleteHasSibling(c0, t0);
      E().ReadSibling(Snap(Repr), c0, t0);
      SameContentRefl(Plug(c0, t0));
      x, c, t := x0, c0, t0;
      if x.parent.left.red {
        c := RedSiblingRight(x, c, t);
        DeleteHasSibling(c, t);
        E().ReadSibling(Snap(Repr), c, t);
      }
      var w := x.parent.left;
      ghost var c1 := c;
      if !w.right.red && !w.left.red {
        x, t := BlackNephewsRight(x, c, t);
        c, done := c.up, false;
      } else {
        t := RedNephewRight(x, rl, c, t);
        c, x, done := c.up, rl, true;
      }
      SameContentTrans(Plug(c0, t0), Plug(c1, t0), Plug(c, t));
    }

    lemma LoopGoesOn(x: Ref, rl: Ref, c: Ctx, t: Tree, done: bool)
      requires DeleteGoesOn(done, x, rl, c, t) && !x.red && rl != x
      ensures !done && !IsRed(t) && !c.Top? && rl == Outermost(c)
      ensures x.parent in Repr && (x.parent.left == x <==> c.InL?)
    {
      var st := Snap(Repr);
      E().ReadParent(st, c, t);
      E().ReadSibling(st, c, t);
      DeleteHasSibling(c, t);
    }

    /** The last write, `x.red := false`, makes up for the missing black node or changes nothing. */
    method DeleteFinish(x: Ref, ghost rl: Ref, ghost c: Ctx, ghost t: Tree, ghost done: bool) returns (ghost r: Tree)
      requires DeleteGoesOn(done, x, rl, c, t) && (x.red || rl == x)
      modifies Repr
      ensures E().Focus(Snap(Repr), Top, r) && RedBlack(r) && SameContent(Plug(c, t), r)
    {
      ghost var st := Snap(Repr);
      E().ReadParent(st, c, t);
      if !done {
        if !c.Top? { E().FocusOutermost(st, c, t, BlackHeight(t) + 1); }
        DeleteDone(c, t);
      }
      ghost var t' := if done then t else Blacken(t);
      assert IsRed(t) && !done ==> t' == Painted(t, false);
      assert (done || !IsRed(t)) ==> t' == t && !x.red;
      SameContentBlacken(c, t, t');
      hide Ends.Focus, SameContent, Plug, DeleteInv, RedBlack;
      if x.red {
        PaintTop(x, false, c, t);
      } else {
        x.red := false;
        assert Snap(Repr) == st;
      }
      r := Plug(c, t');
      AppendTop(c);
      E().FocusPlug(Snap(Repr), c, Top, t');
    }

    /** Repairs a tree that is one black node short at x. */
    method DeleteFixup(x0: Ref, ghost c0: Ctx, ghost t0: Tree) returns (ghost r: Tree)
      requires DeleteAt(x0, c0, t0)
      modifies Repr
      ensures E().Focus(Snap(Repr), Top, r) && RedBlack(r) && SameContent(Plug(c0, t0), r)
    {
      hide Ends.Focus, SameContent, Plug, DeleteInv, RedBlack;
      var x := x0;
      ghost var c, t, done, whole := c0, t0, false, Plug(c0, t0);
      E().ReadParent(Snap(Repr), c, t);
      DeleteOuter(c, t);
      if c.Top? { E().ReadTop(Snap(Repr), t); } else { E().FocusOutermost(Snap(Repr), c, t, BlackHeight(t) + 1); }
      var rootLeftNode := root.left;
      SameContentRefl(whole);
      while !x.red && rootLeftNode != x
        invariant DeleteGoesOn(done, x, rootLeftNode, c, t) && SameContent(whole, Plug(c, t))
        decreases if done || IsRed(t) then 0 else Depth(c) + 1
      {
        ghost var c1, t1 := c, t;
        LoopGoesOn(x, rootLeftNode, c, t, done);
        if x == x.parent.left {
          x, c, t, done := DeleteRoundLeft(x, rootLeftNode, c, t);
        } else {
          x, c, t, done := DeleteRoundRight(x, rootLeftNode, c, t);
        }
        SameContentTrans(whole, Plug(c1, t1), Plug(c, t));
      }
      r := DeleteFinish(x, rootLeftNode, c, t, done);
      SameContentTrans(whole, Plug(c, t), r);
    }

    // ----- neighbours in key order -----

    method GetMinimum(x0: Ref, ghost c0: Ctx, ghost t0: Tree) returns (x: Ref)
      requires E().Focus(Snap(Repr), c0, t0) && t0.Node? && x0 == t0.n
      ensures x == MinTree(t0).n
    {
      hide Ends.Focus;
      ghost var e, st, c, t := E(), Snap(Repr), c0, t0;
      x := x0;
      e.ReadNode(st, c, t);
      while x.left != nil
        invariant e.Focus(st, c, t) && t.Node? && x == t.n && MinTree(t) == MinTree(t0)
        invariant x in Repr && x.left == e.Ptr(t.l) && x.left in Repr
        decreases t
      {
        x := x.left;
        c, t := InL(t.n, t.red, t.mh, t.r, c), t.l;
        e.FocusDown(st, c, t);
        e.ReadNode(st, c, t);
      }
      if t.l.Node? {
        c, t := InL(t.n, t.red, t.mh, t.r, c), t.l;
        e.FocusDown(st, c, t);
        e.ReadNode(st, c, t);
      }
    }

    method GetMaximum(x0: Ref, ghost c0: Ctx, ghost t0: Tree) returns (x: Ref)
      requires E().Focus(Snap(Repr), c0, t0) && t0.Node? && x0 == t0.n
      ensures x == MaxNode(t0)
    {
      hide Ends.Focus;
      ghost var e, st, c, t := E(), Snap(Repr), c0, t0;
      x := x0;
      e.ReadNode(st, c, t);
      while x.right != nil
        invariant e.Focus(st, c, t) && t.Node? && x == t.n && MaxNode(t) == MaxNode(t0)
        invariant x in Repr && x.right == e.Ptr(t.r) && x.right in Repr
        decreases t
      {
        x := x.right;
        c, t := InR(t.l, t.n, t.red, t.mh, c), t.r;
        e.FocusDown(st, c, t);
        e.ReadNode(st, c, t);
      }
      if t.r.Node? {
        c, t := InR(t.l, t.n, t.red, t.mh, c), t.r;
        e.FocusDown(st, c, t);
        e.ReadNode(st, c, t);
      }
    }

    /** The next node in order; the `root` sentinel after the last one. */
    method GetSuccessor(x0: Ref, ghost c0: Ctx, ghost t0: Tree) returns (y: Ref)
      requires E().Focus(Snap(Repr), c0, t0) && t0.Node? && x0 == t0.n
      ensures y == match Successor(c0, t0) case Some(n) => n case None => root
    {
      hide Ends.Focus;
      ghost var e, st, c, t := E(), Snap(Repr), c0, t0;
      e.ReadNode(st, c, t);
      e.ChildNil(st, c, t);
      if nil != x0.right {
        ghost var d := InR(t.l, t.n, t.red, t.mh, c);
        e.FocusDown(st, d, t.r);
        y := GetMinimum(x0.right, d, t.r);
      } else {
        var x := x0;
        y := x.parent;
        e.ReadParent(st, c, t);
        e.ParentNotNil(st, c, t);
        while y != nil && x == y.right
          invariant e.Focus(st, c, t) && t.Node? && x == t.n && y == e.Par(c) && NextUp(c) == NextUp(c0)
          invariant y in Repr && y != nil && (y.right == x <==> c.InR?)
          decreases c
        {
          e.FocusUp(st, c, t);
          c, t := c.up, Fill(c, t);
          e.ReadNode(st, c, t);
          e.ReadParent(st, c, t);
          e.ParentNotNil(st, c, t);
          x := y;
          y := y.parent;
        }
      }
    }

    /** The previous node in order; the `nil` sentinel before the first one. */
    method GetPredecessor(x0: Ref, ghost c0: Ctx, ghost t0: Tree) returns (y: Ref)
      requires E().Focus(Snap(Repr), c0, t0) && t0.Node? && x0 == t0.n
      ensures y == match Predecessor(c0, t0) case Some(n) => n case None => nil
    {
      hide Ends.Focus;
      ghost var e, st, c, t := E(), Snap(Repr), c0, t0;
      e.ReadNode(st, c, t);
      e.ChildNil(st, c, t);
      if nil != x0.left {
        ghost var d := InL(t.n, t.red, t.mh, t.r, c);
        e.FocusDown(st, d, t.l);
        y := GetMaximum(x0.left, d, t.l);
      } else {
        var x := x0;
        y := x.parent;
        ghost var top := false;
        e.ReadParent(st, c, t);
        e.ParentNotNil(st, c, t);
        while y != nil && x == y.left
          invariant top ==> y == nil && PreviousUp(c0).None?
          invariant !top ==>
                      e.Focus(st, c, t) && t.Node? && x == t.n && y == e.Par(c) && PreviousUp(c) == PreviousUp(c0)
          invariant !top ==> y in Repr && y != nil && (y.left == x <==> !c.InR?)
          decreases !top, c
        {
          x := y;
          y := y.parent;
          if c.Top? {
            e.ReadTop(st, t);
            top := true;
          } else {
            e.FocusUp(st, c, t);
            c, t := c.up, Fill(c, t);
            e.ReadNode(st, c, t);
            e.ReadParent(st, c, t);
            e.ParentNotNil(st, c, t);
          }
        }
      }
    }

    // ----- deletion -----

    /** Hangs the only child x of y into y's place; an empty child leaves its parent in `nil`. */
    method Splice(y: Ref, ghost c: Ctx, ghost t: Tree) returns (x: Ref)
      requires E().Focus(Snap(Repr), c, t) && t.Node? && y == t.n && (t.l.Leaf? || t.r.Leaf?)
      modifies Repr
      ensures var u := OnlyChild(t);
        E().Focus(Snap(Repr), c, u) && x == E().Ptr(u) && x in Repr && x.parent == E().Par(c)
      ensures y.red == old(y.red)
    {
      hide Ends.Focus;
      ghost var e, st, u := E(), Snap(Repr), OnlyChild(t);
      e.ReadNode(st, c, t);
      e.ReadParent(st, c, t);
      e.ParentIsRoot(st, c, t);
      e.ChildNil(st, c, t);
      e.SpliceDistinct(st, c, t, u);
      x := if y.left == nil then y.right else y.left;
      x.parent := y.parent;
      if root == x.parent {
        root.left := x;
      } else if y == y.parent.left {
        y.parent.left := x;
      } else {
        y.parent.right := x;
      }
      e.Spliced(st, Snap(Repr), c, t, u);
    }

    /** The node z has at most one child. */
    method DeleteSimple(z: Ref, ghost c: Ctx, ghost t: Tree) returns (ghost k: nat, ghost r: Tree)
      requires E().Focus(Snap(Repr), c, t) && t.Node? && z == t.n && (t.l.Leaf? || t.r.Leaf?)
      requires ValidTree(Plug(c, t))
      modifies Repr
      ensures E().Focus(Snap(Repr), Top, r) && Deleted(Plug(c, t), z, k, r)
    {
      hide Ends.Focus, SameContent, Plug, DeleteInv, RedBlack, ValidTree, Deleted, FixMax, Inorder, Before;
      ghost var e, u := E(), OnlyChild(t);
      ghost var c' := FixMax(c, Mh(u));
      k := |Before(c)| + |Inorder(t.l)|;
      SpliceColours(c, t, Mh(u));
      e.ReadNode(Snap(Repr), c, t);
      var x := Splice(z, c, t);
      var black := !z.red;
      FixupMaxHigh(x.parent, c, u);
      e.ReadParent(Snap(Repr), c', u);
      FixMaxSame(c, Mh(u));
      r := DeleteRepair(x, black, c', u);
      SpliceEnds(c, t, r);
    }

    /** The repair, needed only if the node taken out was black. */
    method DeleteRepair(x: Ref, black: bool, ghost c: Ctx, ghost u: Tree) returns (ghost r: Tree)
      requires if black then DeleteAt(x, c, u) else E().Focus(Snap(Repr), c, u) && RedBlack(Plug(c, u))
      modifies Repr
      ensures E().Focus(Snap(Repr), Top, r) && RedBlack(r) && SameContent(Plug(c, u), r)
    {
      hide Ends.Focus, Plug, DeleteInv, RedBlack;
      if black {
        r := DeleteFixup(x, c, u);
      } else {
        r := Plug(c, u);
        E().FocusWhole(Snap(Repr), c, u);
      }
    }

    /** Puts y in the place of z; w may be written, and l, r and p name the neighbours of z. */
    method TakePlace(y: Ref, z: Ref, ghost l: Ref, ghost r: Ref, ghost p: Ref, ghost w: set<Ref>)
      requires z.left == l && z.right == r && z.parent == p
      requires {y, z, l, r, p} <= w && {y, z, l, r} !! {p} && l != r && {l, r} !! {y, z} && y != z
      modifies w
      ensures Fields(y, Rec(old(y.red), NIL_TIME, l, r, p))
      ensures Fields(l, old(Of(l)).(parent := y)) && Fields(r, old(Of(r)).(parent := y))
      ensures Fields(p, if old(p.left) == z then old(Of(p)).(left := y) else old(Of(p)).(right := y))
      ensures forall n :: n in w && n !in {y, l, r, p} ==> unchanged(n)
    {
      y.maxHigh := NIL_TIME;
      y.left := z.left;
      y.right := z.right;
      y.parent := z.parent;
      z.left.parent := y;
      z.right.parent := y;
      if z == z.parent.left {
        z.parent.left := y;
      } else {
        z.parent.right := y;
      }
    }

    /** An empty right subtree leaves y as the parent of `nil`. */
    method Supplant(y: Ref, z: Ref, ghost c: Ctx, ghost t: Tree)
      requires E().Focus(Snap(Repr), c, t) && t.Node? && z == t.n && t.l.Node?
      requires y in Repr && y !in Nodes(t) + CtxNodes(c) + {root, nil}
      modifies Repr
      ensures E().Focus(Snap(Repr), c, Node(t.l, y, old(y.red), NIL_TIME, t.r))
      ensures nil.parent == if t.r.Leaf? then y else old(nil.parent)
      ensures z.red == t.red
    {
      hide Ends.Focus, Nodes, CtxNodes, Ends.Shape;
      ghost var e, st := E(), Snap(Repr);
      e.ReadNode(st, c, t);
      e.ReadParent(st, c, t);
      e.SupplantDistinct(st, c, t, y);
      TakePlace(y, z, t.l.n, e.Ptr(t.r), e.Par(c), Repr);
      e.Replaced(st, Snap(Repr), c, t, y, old(y.red));
    }

    /** The colour of the node that was put into z's place. */
    method PaintPromoted(y: Ref, red: bool, ghost c: Ctx, ghost t: Tree, ghost red0: bool, ghost u: Tree)
      requires t.Node? && t.r.Node? && y == MinTree(t.r).n
      requires E().Focus(Snap(Repr), FixMax(Promoted(c, t, red0), Mh(u)), u)
      modifies Repr
      ensures E().Focus(Snap(Repr), FixMax(Promoted(c, t, red), Mh(u)), u) && nil.parent == old(nil.parent)
    {
      hide Ends.Focus, FixMax, Append, Plug, MinCtx;
      ghost var e, m, v := E(), MinCtx(t.r), Mh(u);
      ghost var d, w := FixMax(m, v), EndMax(m, v);
      ghost var v' := Max(y.high, Max(w, Mh(t.l)));
      ghost var up := FixMax(c, v');
      PromotedFixed(c, t, red0, v);
      PromotedFixed(c, t, red, v);
      ghost var o, o' := InR(t.l, y, red0, v', up), InR(t.l, y, red, v', up);
      ghost var inner := Plug(d, u);
      e.FocusPlug(Snap(Repr), d, o, u);
      e.FocusUp(Snap(Repr), o, inner);
      PaintTop(y, red, up, Fill(o, inner));
      e.FocusDown(Snap(Repr), o', inner);
      e.FocusPlug(Snap(Repr), d, o', u);
    }

    /** Splices out the successor y of z and puts it in z's place. */
    method Promote(z: Ref, y: Ref, ghost c: Ctx, ghost t: Tree) returns (x: Ref)
      requires E().Focus(Snap(Repr), c, t) && t.Node? && z == t.n && t.l.Node? && t.r.Node?
      requires y == MinTree(t.r).n && y in Repr
      modifies Repr
      ensures E().Focus(Snap(Repr), Promoted(c, t, old(y.red)), MinTree(t.r).r)
      ensures x == E().Ptr(MinTree(t.r).r) && x in Repr && x.parent == E().Par(Promoted(c, t, old(y.red)))
      ensures y.red == old(y.red) && z.red == t.red
    {
      hide Ends.Focus, Plug, MinTree, MinCtx, Append, Nodes, CtxNodes, OnlyChild;
      ghost var e, m, yt := E(), MinCtx(t.r), MinTree(t.r);
      ghost var u, d := yt.r, InR(t.l, z, t.red, t.mh, c);
      ghost var o, r' := InR(t.l, y, y.red, NIL_TIME, c), Plug(m, u);
      ghost var t' := Node(t.l, z, t.red, t.mh, r');
      PlugMin(t.r);
      MinOnlyChild(t.r);
      e.FocusDown(Snap(Repr), d, t.r);
      e.FocusPlug(Snap(Repr), m, d, yt);
      e.PromoteFresh(Snap(Repr), m, d, yt);
      e.ParAppend(m, d, u);
      e.ParAppend(m, o, u);
      x := Splice(y, Append(m, d), yt);
      e.FocusPlug(Snap(Repr), m, d, u);
      e.FocusUp(Snap(Repr), d, r');
      Supplant(y, z, c, t');
      e.ReadNode(Snap(Repr), c, Node(t.l, y, o.red, NIL_TIME, r'));
      e.FocusDown(Snap(Repr), o, r');
      e.FocusPlug(Snap(Repr), m, o, u);
      e.ReadParent(Snap(Repr), Append(m, o), u);
    }

    /** The node z has two children; y is its successor. */
    method DeleteInner(z: Ref, y: Ref, ghost c: Ctx, ghost t: Tree) returns (ghost k: nat, ghost r: Tree)
      requires E().Focus(Snap(Repr), c, t) && t.Node? && z == t.n && t.l.Node? && t.r.Node?
      requires ValidTree(Plug(c, t)) && y == MinTree(t.r).n
      modifies Repr
      ensures E().Focus(Snap(Repr), Top, r) && Deleted(Plug(c, t), z, k, r)
    {
      hide Ends.Focus, SameContent, Plug, DeleteInv, RedBlack, ValidTree, Deleted, FixMax, Inorder, Before, Promoted,
        MinTree;
      ghost var u := MinTree(t.r).r;
      k := |Before(c)| + |Inorder(t.l)|;
      ghost var red0, c' := y.red, FixMax(Promoted(c, t, t.red), Mh(u));
      PlugMin(t.r);
      E().ReadMin(Snap(Repr), c, t, MinCtx(t.r), MinTree(t.r));
      var x := Promote(z, y, c, t);
      var black, zRed := !y.red, z.red;
      FixupMaxHigh(x.parent, Promoted(c, t, red0), u);
      PaintPromoted(y, zRed, c, t, red0, u);
      E().ReadParent(Snap(Repr), c', u);
      PromotedPar(c, t, red0, t.red, Mh(u));
      PromoteColours(c, t, Mh(u));
      r := DeleteRepair(x, black, c', u);
      PromoteEnds(c, t, r);
    }

    /** Takes z out of the tree t0. */
    method DeleteFrom(z: Ref, ghost t0: Tree) returns (ghost k: nat, ghost r: Tree)
      requires E().Focus(Snap(Repr), Top, t0) && ValidTree(t0) && z in Nodes(t0)
      modifies Repr
      ensures E().Focus(Snap(Repr), Top, r) && Deleted(t0, z, k, r)
    {
      hide Ends.Focus, Nodes, Plug, ValidTree, Deleted, Successor;
      ghost var c, t := FindNode(t0, z);
      E().FocusFromTop(Snap(Repr), c, t);
      E().ReadNode(Snap(Repr), c, t);
      E().ChildNil(Snap(Repr), c, t);
      var y := z;
      if !(z.left == nil || z.right == nil) {
        y := GetSuccessor(z, c, t);
        E().FocusApart(Snap(Repr), c, t);
        SuccessorInside(c, t);
      }
      if y != z {
        k, r := DeleteInner(z, y, c, t);
      } else {
        k, r := DeleteSimple(z, c, t);
      }
    }

    /** A node outside the tree leaves the allocated ones. */
    ghost method Release(z: Ref, t: Tree)
      requires E().Focus(Snap(Repr), Top, t) && z !in Nodes(t) + {root, nil}
      modifies this`Repr
      ensures Repr == old(Repr) - {z} && E().Focus(Snap(Repr), Top, t)
    {
      ghost var st0 := Snap(Repr);
      Repr := Repr - {z};
      E().FocusFrame(st0, Snap(Repr), Top, t);
    }

    /** Deletes a node and returns what it stored. */
    method DeleteNode(z: Ref) returns (nodeToDelete: Interval?, ghost k: nat)
      requires Valid() && z in Nodes(tree)
      modifies this, Repr
      ensures Valid() && Repr == old(Repr) - {z}
      ensures nodeToDelete == z.storedInterval
      ensures RemovedAt(old(Contents()), z, k, Contents())
    {
      hide Ends.Focus, Nodes, ValidTree, Deleted, RemovedAt, Inorder, StackIdle;
      nodeToDelete := z.storedInterval;
      ghost var t0, r := tree, tree;
      E().FocusDistinct(Snap(Repr), t0);
      k, r := DeleteFrom(z, t0);
      DeletedNodes(t0, z, k, r);
      Discard(z, r);
    }

    /** The tree r, which has every node but z, becomes the current one, and z is gone. */
    ghost method Discard(z: Ref, r: Tree)
      requires E().Focus(Snap(Repr), Top, r) && ValidTree(r) && z !in {root, nil}
      requires Repr - {z} == Nodes(r) + {nil, root} && z !in Nodes(r)
      requires root.storedInterval == null && nil.storedInterval == null && StackIdle()
      modifies this`Repr, this`tree
      ensures Valid() && tree == r && Repr == old(Repr) - {z}
    {
      hide Ends.Focus, Nodes, ValidTree;
      Release(z, r);
      Install(r);
    }

    method RecursiveSearch(node: Ref, ivl: Interval, ghost c: Ctx, ghost t: Tree) returns (r: Ref)
      requires node == E().Ptr(t) && (t.Node? ==> E().Focus(Snap(Repr), c, t))
      ensures r == match FindStored(t, ivl) case Some(n) => n case None => nil
      decreases t
    {
      hide Ends.Focus;
      if t.Node? {
        E().ReadNode(Snap(Repr), c, t);
        E().PtrNil(Snap(Repr), c, t);
      }
      if node != nil {
        if node.storedInterval == ivl {
          return node;
        }
        ghost var cl, cr := InL(t.n, t.red, t.mh, t.r, c), InR(t.l, t.n, t.red, t.mh, c);
        E().FocusDown(Snap(Repr), cl, t.l);
        E().FocusDown(Snap(Repr), cr, t.r);
        E().NilOutside(Snap(Repr), c, t);
        var left := RecursiveSearch(node.left, ivl, cl, t.l);
        if left != nil {
          return left;
        }
        var right := RecursiveSearch(node.right, ivl, cr, t.r);
        if right != nil {
          return right;
        }
      }
      return nil;
    }

    /**
     * Deletes one node that stores this interval, if there is one. A null pointer is what the root sentinel stores: the
     * code would delete that, and the model stops there.
     */
    method DeleteInterval(ivl: Interval?) returns (sentinel: bool, ghost found: Option<Ref>, ghost k: nat)
      requires Valid()
      modifies this, Repr
      ensures Valid() && (sentinel <==> ivl == null) && (sentinel ==> Contents() == old(Contents()))
      ensures found.Some? ==>
                found.value.storedInterval == ivl && RemovedAt(old(Contents()), found.value, k, Contents())
      ensures !sentinel && found.None? ==>
                Contents() == old(Contents()) && forall n :: n in Contents() ==> n.storedInterval != ivl
    {
      k, found := 0, None;
      sentinel := root.storedInterval == ivl;
      if sentinel { return; }
      var node := nil;
      E().ReadTop(Snap(Repr), tree);
      E().NilOutside(Snap(Repr), Top, tree);
      node := RecursiveSearch(root.left, ivl, Top, tree);
      if node == nil {
        node := RecursiveSearch(root.right, ivl, Top, Leaf);
      }
      found := FindStored(tree, ivl);
      if node != nil {
        var stored;
        stored, k := DeleteNode(node);
      } else {
        InorderNodes(tree);
      }
    }

    // ----- query -----

    /**
     * The stack holds one entry per tree in ts, above the unused entry 0; each
     * entry's parent is the entry below it, and its bit is the one in bits.
     */
    ghost predicate StackHolds(st: Store, cs: seq<Ctx>, ts: seq<Tree>, bits: seq<bool>)
      reads this
    {
      && |cs| == |ts| == |bits| && recursionNodeStackTop == |ts| + 1 <= |recursionNodeStack|
      && (forall t :: t in ts ==> t.Node?)
      && (forall i :: 0 <= i < |ts| ==> E().Focus(st, cs[i], ts[i]))
      && (forall i :: 0 <= i < |ts| ==> recursionNodeStack[i + 1] == RecursionNode(ts[i].n, i, bits[i]))
    }

    /** An overlapping node marks the entry on top. */
    method MarkParent(ghost st: Store, ghost cs: seq<Ctx>, ghost ts: seq<Tree>, ghost bits: seq<bool>)
      requires StackHolds(st, cs, ts, bits) && currentParent == recursionNodeStackTop - 1
      modifies this`recursionNodeStack
      ensures StackHolds(st, cs, ts, SetTop(bits, true))
    {
      hide Ends.Focus;
      recursionNodeStack := recursionNodeStack[currentParent :=
        RecursionNode(recursionNodeStack[currentParent].startNode,
          recursionNodeStack[currentParent].parentIndex, true)];
    }

    /** Remembers x before its left branch is searched. */
    method PushNode(x: Ref, ghost st: Store, ghost cs: seq<Ctx>, ghost ts: seq<Tree>, ghost bits: seq<bool>,
        ghost c: Ctx, ghost t: Tree)
      requires StackHolds(st, cs, ts, bits) && currentParent == recursionNodeStackTop - 1
      requires E().Focus(st, c, t) && t.Node? && x == t.n
      modifies this`recursionNodeStack, this`recursionNodeStackTop, this`currentParent
      ensures StackHolds(st, cs + [c], ts + [t], bits + [false]) && currentParent == recursionNodeStackTop - 1
    {
      hide Ends.Focus;
      if recursionNodeStackTop == |recursionNodeStack| {
        recursionNodeStack := recursionNodeStack + seq(|recursionNodeStack|, _ => RecursionNode(null, 0, false));
      }
      recursionNodeStack := recursionNodeStack[recursionNodeStackTop := RecursionNode(x, currentParent, false)];
      currentParent := recursionNodeStackTop;
      recursionNodeStackTop := recursionNodeStackTop + 1;
    }

    /** Takes one entry off; if its bit is set, the entry below is marked and its right branch comes next. */
    method PopOne(ghost st: Store, ghost cs0: seq<Ctx>, ghost ts0: seq<Tree>, ghost bits0: seq<bool>, low: SimTime,
        ghost high: SimTime)
      returns (x: Ref, ghost cs: seq<Ctx>, ghost ts: seq<Tree>, ghost bits: seq<bool>, ghost c: Ctx, ghost t: Tree)
      requires st == Snap(Repr) && StackHolds(st, cs0, ts0, bits0) && recursionNodeStackTop > 1
      modifies this`recursionNodeStack, this`recursionNodeStackTop, this`currentParent
      ensures StackHolds(st, cs, ts, bits) && x == E().Ptr(t) && recursionNodeStackTop < old(recursionNodeStackTop)
      ensures t.Node? ==> x != nil && E().Focus(st, c, t) && currentParent == recursionNodeStackTop - 1
      ensures Visit(t, low, high) + Rest(ts, bits, Visit(t, low, high) != [], low, high) ==
              Rest(ts0, bits0, false, low, high)
      ensures Weight(t) + Work(ts) <= Work(ts0)
    {
      hide Ends.Focus, Visit, Rest, Weight, Work;
      ghost var k := |ts0| - 1;
      ghost var top := ts0[k];
      cs, ts, bits, c, t, x := cs0[..k], ts0[..k], bits0[..k], Top, Leaf, nil;
      VisitLeaf(t, low, high);
      WeightLeaf();
      RestPops(ts0, bits0, low, high);
      WorkPop(ts0);
      recursionNodeStackTop := recursionNodeStackTop - 1;
      if recursionNodeStack[recursionNodeStackTop].tryRightBranch {
        E().ReadNode(st, cs0[k], top);
        E().ChildNil(st, cs0[k], top);
        x := recursionNodeStack[recursionNodeStackTop].startNode.right;
        currentParent := recursionNodeStack[recursionNodeStackTop].parentIndex;
        c, t := InR(top.l, top.n, top.red, top.mh, cs0[k]), top.r;
        E().FocusDown(st, c, t);
        MarkParent(st, cs, ts, bits);
        bits := SetTop(bits, true);
      }
    }

    /** Takes entries off until one has its bit set and a right branch to search. */
    method PopNodes(ghost st: Store, ghost cs0: seq<Ctx>, ghost ts0: seq<Tree>, ghost bits0: seq<bool>, low: SimTime,
        ghost high: SimTime)
      returns (x: Ref, run: bool, ghost cs: seq<Ctx>, ghost ts: seq<Tree>, ghost bits: seq<bool>, ghost c: Ctx,
        ghost t: Tree)
      requires st == Snap(Repr) && StackHolds(st, cs0, ts0, bits0)
      modifies this`recursionNodeStack, this`recursionNodeStackTop, this`currentParent
      ensures StackHolds(st, cs, ts, bits) && x == E().Ptr(t) && run == t.Node?
      ensures if run then E().Focus(st, c, t) && currentParent == recursionNodeStackTop - 1 else ts == []
      ensures Visit(t, low, high) + Rest(ts, bits, Visit(t, low, high) != [], low, high) ==
              Rest(ts0, bits0, false, low, high)
      ensures Weight(t) + Work(ts) <= Work(ts0)
    {
      hide Ends.Focus, Visit, Rest, Weight, Work;
      cs, ts, bits, c, t := cs0, ts0, bits0, Top, Leaf;
      x, run := nil, false;
      VisitLeaf(t, low, high);
      WeightLeaf();
      while !run && recursionNodeStackTop > 1
        invariant StackHolds(st, cs, ts, bits) && x == E().Ptr(t) && run == t.Node?
        invariant run ==> E().Focus(st, c, t) && currentParent == recursionNodeStackTop - 1
        invariant Visit(t, low, high) + Rest(ts, bits, Visit(t, low, high) != [], low, high) ==
                  Rest(ts0, bits0, false, low, high)
        invariant Weight(t) + Work(ts) <= Work(ts0)
        decreases recursionNodeStackTop
      {
        VisitLeaf(t, low, high);
        x, cs, ts, bits, c, t := PopOne(st, cs, ts, bits, low, high);
        run := x != nil;
      }
    }

    /** One node of the search: x is reported if it overlaps, and its left or its right branch comes next. */
    method VisitOne(x0: Ref, low: SimTime, high: SimTime, resultStack0: seq<Interval?>, ghost found0: seq<Ref>,
        ghost cs0: seq<Ctx>, ghost ts0: seq<Tree>, ghost bits0: seq<bool>, ghost c0: Ctx, ghost t0: Tree)
      returns (x: Ref, resultStack: seq<Interval?>, ghost found: seq<Ref>,
        ghost cs: seq<Ctx>, ghost ts: seq<Tree>, ghost bits: seq<bool>, ghost c: Ctx, ghost t: Tree)
      requires StackHolds(Snap(Repr), cs0, ts0, bits0) && currentParent == recursionNodeStackTop - 1
      requires E().Focus(Snap(Repr), c0, t0) && t0.Node? && x0 == t0.n && resultStack0 == StoredBy(found0)
      modifies this`recursionNodeStack, this`recursionNodeStackTop, this`currentParent
      ensures StackHolds(Snap(Repr), cs, ts, bits) && currentParent == recursionNodeStackTop - 1
      ensures x == E().Ptr(t) && E().Focus(Snap(Repr), c, t) && resultStack == StoredBy(found)
      ensures found + Visit(t, low, high) + Rest(ts, bits, Visit(t, low, high) != [], low, high)
        == found0 + Visit(t0, low, high) + Rest(ts0, bits0, Visit(t0, low, high) != [], low, high)
      ensures Weight(t) + Work(ts) < Weight(t0) + Work(ts0)
    {
      hide Ends.Focus, Visit, Rest, Weight, Work, SetTop, Hit, StoredBy;
      ghost var st := Snap(Repr);
      E().ReadNode(st, c0, t0);
      resultStack, found, bits := Report(x0, low, high, resultStack0, found0, st, cs0, ts0, bits0);
      WorkPush(ts0, t0);
      WeightNode(t0);
      if x0.left.maxHigh >= low {
        VisitPushes(t0, ts0, bits0, found0, low, high);
        PushNode(x0, st, cs0, ts0, bits, c0, t0);
        cs, ts, bits := cs0 + [c0], ts0 + [t0], bits + [false];
        x, c, t := x0.left, InL(t0.n, t0.red, t0.mh, t0.r, c0), t0.l;
      } else {
        VisitSkips(t0, ts0, bits0, found0, low, high);
        cs, ts := cs0, ts0;
        x, c, t := x0.right, InR(t0.l, t0.n, t0.red, t0.mh, c0), t0.r;
      }
      E().FocusDown(st, c, t);
    }

    /** A node that overlaps joins the result and marks the entry on top. */
    method Report(x: Ref, low: SimTime, high: SimTime, resultStack0: seq<Interval?>, ghost found0: seq<Ref>,
        ghost st: Store, ghost cs: seq<Ctx>, ghost ts: seq<Tree>, ghost bits0: seq<bool>)
      returns (resultStack: seq<Interval?>, ghost found: seq<Ref>, ghost bits: seq<bool>)
      requires StackHolds(st, cs, ts, bits0) && currentParent == recursionNodeStackTop - 1
               && resultStack0 == StoredBy(found0)
      modifies this`recursionNodeStack
      ensures found == found0 + (if Hit(x, low, high) then [x] else []) && bits == SetTop(bits0, Hit(x, low, high))
      ensures StackHolds(st, cs, ts, bits) && resultStack == StoredBy(found)
    {
      hide Ends.Focus, SetTop, StoredBy;
      resultStack, found, bits := resultStack0, found0, bits0;
      SetTopOff(bits);
      StoredByAppend(found, x);
      if Overlap(low, high, x.key, x.high) {
        resultStack := resultStack + [x.storedInterval];
        found := found + [x];
        MarkParent(st, cs, ts, bits);
        bits := SetTop(bits, true);
      }
    }

    /** The search between two rounds: what is found, what x still has to give and what waits on the stack. */
    ghost predicate SearchAt(x: Ref, run: bool, resultStack: seq<Interval?>, g: Search, low: SimTime, high: SimTime)
      reads this, Repr
    {
      && StackHolds(Snap(Repr), g.cs, g.ts, g.bits) && resultStack == StoredBy(g.found)
      && x == E().Ptr(g.t) && run == g.t.Node? && (!run ==> g.ts == [])
      && (run ==> E().Focus(Snap(Repr), g.c, g.t) && currentParent == recursionNodeStackTop - 1)
      && g.found + Visit(g.t, low, high) + Rest(g.ts, g.bits, Visit(g.t, low, high) != [], low, high)
        == Visit(tree, low, high)
    }

    /** One round of the search. */
    method QueryRound(x0: Ref, low: SimTime, high: SimTime, resultStack0: seq<Interval?>, ghost g0: Search)
      returns (x: Ref, run: bool, resultStack: seq<Interval?>, ghost g: Search)
      requires SearchAt(x0, true, resultStack0, g0, low, high)
      modifies this`recursionNodeStack, this`recursionNodeStackTop, this`currentParent
      ensures SearchAt(x, run, resultStack, g, low, high)
      ensures Weight(g.t) + Work(g.ts) < Weight(g0.t) + Work(g0.ts)
    {
      hide Ends.Focus, Visit, Rest, Weight, Work, StoredBy;
      ghost var cs, ts, bits, c, t, found;
      x, resultStack, found, cs, ts, bits, c, t :=
        VisitOne(x0, low, high, resultStack0, g0.found, g0.cs, g0.ts, g0.bits, g0.c, g0.t);
      E().PtrNil(Snap(Repr), c, t);
      run := x != nil;
      if !run {
        VisitLeaf(t, low, high);
        WeightLeaf();
        ghost var rest := Rest(ts, bits, false, low, high);
        x, run, cs, ts, bits, c, t := PopNodes(Snap(Repr), cs, ts, bits, low, high);
        assert found + [] + rest == found + rest;
        assert found + (Visit(t, low, high) + Rest(ts, bits, Visit(t, low, high) != [], low, high))
          == found + Visit(t, low, high) + Rest(ts, bits, Visit(t, low, high) != [], low, high);
      }
      g := Search(cs, ts, bits, c, t, found);
    }

    method StartQuery(low: SimTime, ghost high: SimTime)
        returns (x: Ref, run: bool, resultStack: seq<Interval?>, ghost g: Search)
      requires Valid()
      modifies this`currentParent
      ensures SearchAt(x, run, resultStack, g, low, high)
    {
      hide Ends.Focus, Visit, Rest, ValidTree, Nodes;
      x := root.left;
      run := x != nil;
      currentParent := 0;
      resultStack := [];
      g := Search([], [], [], Top, tree, []);
      E().ReadTop(Snap(Repr), tree);
      E().PtrNil(Snap(Repr), Top, tree);
      RestEmpty(Visit(tree, low, high) != [], low, high);
      StoredByEmpty();
    }

    lemma SearchEnds(x: Ref, resultStack: seq<Interval?>, g: Search, low: SimTime, high: SimTime)
      requires SearchAt(x, false, resultStack, g, low, high)
      ensures g.found == Visit(tree, low, high) && resultStack == StoredBy(g.found) && StackIdle()
    {
      hide Ends.Focus, StoredBy;
      VisitLeaf(g.t, low, high);
      RestEmpty(false, low, high);
      assert g.bits == [];
    }

    /** All stored intervals that overlap [low, high]. */
    method Query(low: SimTime, high: SimTime) returns (resultStack: seq<Interval?>, ghost found: seq<Ref>)
      requires Valid()
      modifies this`recursionNodeStack, this`recursionNodeStackTop, this`currentParent
      ensures Valid()
      ensures found == Visit(tree, low, high) && resultStack == StoredBy(found)
      ensures |resultStack| == |found| && forall i :: 0 <= i < |found| ==> resultStack[i] == found[i].storedInterval
      ensures forall n :: n in found ==>
                n in Contents() && if low <= n.key then n.key <= high else low <= n.high
      ensures Once(found)
      ensures low > NIL_TIME && Proper(Contents()) ==> forall n :: n in Contents() ==>
                (if low <= n.key then n.key <= high else low <= n.high) ==> n in found
      ensures multiset(found) <= multiset(Filter(Contents(), low, high))
      ensures low > NIL_TIME && Proper(Contents()) ==> multiset(found) == multiset(Filter(Contents(), low, high))
    {
      hide Ends.Focus, Visit, Rest, Weight, Work, ValidTree, Inorder, Filter, Proper, Nodes, SearchAt, StoredBy;
      ghost var g;
      var x, run;
      x, run, resultStack, g := StartQuery(low, high);
      while run
        invariant SearchAt(x, run, resultStack, g, low, high)
        decreases Weight(g.t) + Work(g.ts)
      {
        x, run, resultStack, g := QueryRound(x, low, high, resultStack, g);
      }
      SearchEnds(x, resultStack, g, low, high);
      found := g.found;
      StoredAt(found);
      VisitSound(tree, low, high);
      ValidParts(tree);
      E().FocusDistinct(Snap(Repr), tree);
      VisitOnce(tree, low, high);
      Reported(tree, low, high);
      if low > NIL_TIME && Proper(Contents()) { VisitComplete(tree, low, high); }
    }
  }

  /** The state of a query: the stack, the place of the current node and what was found. */
  datatype Search = Search(cs: seq<Ctx>, ts: seq<Tree>, bits: seq<bool>, c: Ctx, t: Tree, found: seq<Ref>)
}
