/**
 rbtree.c on the heap: nodes with child and parent pointers, rewritten in place.
 Proofs work on snapshots of the nodes' fields; a ghost context and subtree describe the
 whole tree as seen from the node at work.
 */
module RbHeap {
  import opened RbTree
  import opened RbMemory

  class RbRoot {
    ghost var tree: Tree<Node>
    var node: Node?

    constructor ()
      ensures Valid() && tree == Leaf
    {
      node, tree := null, Leaf;
    }

    /** What the fields next to the focus hold. */
    lemma FrameFields(c: Ctx<Node>, t: Tree<Node>, s: set<Node>)
      requires At(node, Mem(s), c, t) && Nodes(t) + CtxNodes(c) <= s
      ensures t.Branch? ==>
                && t.node.left == Ref(t.left) && t.node.right == Ref(t.right)
                && t.node.parent == ParentRef(c) && t.node.red == t.red
      ensures !c.Top? ==>
                && c.node.left == (if c.InLeft? then Ref(t) else Ref(c.left))
                && c.node.right == (if c.InLeft? then Ref(c.right) else Ref(t))
                && c.node.parent == ParentRef(c.up) && c.node.red == c.red
                && (Sibling(c).Branch? ==> Sibling(c).node.red == Sibling(c).red && Sibling(c).node != Ref(t))
    {
      var m := Mem(s);
      assert t.Branch? ==> m[t.node] == Cell(t.node.left, t.node.right, t.node.parent, t.node.red);
      if !c.Top? {
        var n := c.node;
        assert m[n] == Cell(n.left, n.right, n.parent, n.red);
        if Sibling(c).Branch? {
          var k := Sibling(c).node;
          assert k in CtxNodes(c);
          assert m[k] == Cell(k.left, k.right, k.parent, k.red);
        }
      }
    }

    /** Make the parent of `child`, or the root pointer, point to `hole` instead. */
    method SetHole(parent: Node?, child: Node, hole: Node?, ghost c: Ctx<Node>, ghost s: set<Node>)
      requires parent == ParentRef(c)
      requires parent != null ==> parent in s && (parent.left == child <==> c.InLeft?)
      modifies this`node, (if parent == null then {} else {parent})
      ensures Mem(s) == HolePatched(old(Mem(s)), c, hole)
      ensures node == if c.Top? then hole else old(node)
    {
      if parent != null {
        if parent.left == child {
          parent.SetLeft(hole, s);
        } else {
          parent.SetRight(hole, s);
        }
      } else {
        node := hole;
      }
    }

    /** The last writes of a rotation: `top` hangs where `x` did, and `x` below it. */
    method PutAbove(parent: Node?, x: Node, top: Node, ghost c: Ctx<Node>, ghost s: set<Node>)
      requires x in s && top in s && x != top && parent == ParentRef(c)
      requires parent != null ==> parent in s && parent !in {x, top} && (parent.left == x <==> c.InLeft?)
      modifies this`node, s
      ensures Mem(s) == Reparented(HolePatched(Reparented(old(Mem(s)), top, parent), c, top), x, top)
      ensures node == if c.Top? then top else old(node)
    {
      top.SetParent(parent, s);
      SetHole(parent, x, top, c, s);
      x.SetParent(top, s);
    }

    /** __rb_rotate_left, pointer by pointer. */
    method RotateLeftPointers(x: Node, right: Node, ghost c: Ctx<Node>, ghost s: set<Node>)
      requires x in s && right in s && x.right == right && x != right
      requires right.left != null ==> right.left in s && right.left !in {x, right}
      requires x.parent == ParentRef(c)
      requires x.parent != null ==> x.parent in s && x.parent !in {x, right, right.left}
      requires x.parent != null ==> (x.parent.left == x <==> c.InLeft?)
      modifies this`node, s
      ensures Mem(s) == RotationMem(old(Mem(s)), c, x, right, old(right.left), true)
      ensures node == if c.Top? then right else old(node)
    {
      var parent := x.parent;
      var between := right.left;
      x.SetRight(between, s);
      ReparentIf(between, x, s);
      right.SetLeft(x, s);
      PutAbove(parent, x, right, c, s);
    }

    method RotateLeft(x: Node, ghost c: Ctx<Node>, ghost t: Tree<Node>, ghost s: set<Node>)
      requires Nodes(t) + CtxNodes(c) <= s
      requires At(node, Mem(s), c, t) && t.Branch? && t.node == x && t.right.Branch?
      modifies this`node, s
      ensures At(node, Mem(s), c, RotatedLeft(t))
    {
      ghost var m := Mem(s);
      ghost var root := node;
      RotationParties(node, m, c, t, t.right.node, t.right.left);
      RotateLeftPointers(x, x.right, c, s);
      RotateLeftAt(root, node, m, Mem(s), c, t);
    }

    /** __rb_rotate_right, pointer by pointer. */
    method RotateRightPointers(x: Node, left: Node, ghost c: Ctx<Node>, ghost s: set<Node>)
      requires x in s && left in s && x.left == left && x != left
      requires left.right != null ==> left.right in s && left.right !in {x, left}
      requires x.parent == ParentRef(c)
      requires x.parent != null ==> x.parent in s && x.parent !in {x, left, left.right}
      requires x.parent != null ==> (x.parent.left == x <==> c.InLeft?)
      modifies this`node, s
      ensures Mem(s) == RotationMem(old(Mem(s)), c, x, left, old(left.right), false)
      ensures node == if c.Top? then left else old(node)
    {
      var parent := x.parent;
      var between := left.right;
      x.SetLeft(between, s);
      ReparentIf(between, x, s);
      left.SetRight(x, s);
      PutAbove(parent, x, left, c, s);
    }

    method RotateRight(x: Node, ghost c: Ctx<Node>, ghost t: Tree<Node>, ghost s: set<Node>)
      requires Nodes(t) + CtxNodes(c) <= s
      requires At(node, Mem(s), c, t) && t.Branch? && t.node == x && t.left.Branch?
      modifies this`node, s
      ensures At(node, Mem(s), c, RotatedRight(t))
    {
      ghost var m := Mem(s);
      ghost var root := node;
      RotationParties(node, m, c, t, t.left.node, t.left.right);
      RotateRightPointers(x, x.left, c, s);
      RotateRightAt(root, node, m, Mem(s), c, t);
    }

    /** rb_set_red and rb_set_black. */
    method Paint(x: Node, red: bool, ghost c: Ctx<Node>, ghost t: Tree<Node>, ghost s: set<Node>)
      requires Nodes(t) <= s
      requires At(node, Mem(s), c, t) && t.Branch? && t.node == x
      modifies s
      ensures At(node, Mem(s), c, Painted(t, red))
    {
      ghost var m := Mem(s);
      x.SetRed(red, s);
      PaintedAt(node, m, Mem(s), c, t, red);
    }

    /** Paint a child of the node in focus. */
    method PaintChild(x: Node, red: bool, ghost right: bool, ghost c: Ctx<Node>, ghost t: Tree<Node>,
            ghost s: set<Node>)
      requires Nodes(t) + CtxNodes(c) <= s
      requires At(node, Mem(s), c, t) && t.Branch?
      requires if right then t.right.Branch? && t.right.node == x else t.left.Branch? && t.left.node == x
      modifies s
      ensures At(node, Mem(s), c, if right then t.(right := Painted(t.right, red)) else t.(left := Painted(t.left, red)))
    {
      ghost var c' := if right then InRight(c, t.left, t.node, t.red) else InLeft(c, t.node, t.red, t.right);
      ghost var child := if right then t.right else t.left;
      if right {
        FocusRight(node, Mem(s), c, t);
      } else {
        FocusLeft(node, Mem(s), c, t);
      }
      Paint(x, red, c', child, s);
      FocusUp(node, Mem(s), c', Painted(child, red));
    }

    /** Uncle and parent turn black, the grandparent red. */
    method FlipColours(parent: Node, uncle: Node, gparent: Node, ghost c: Ctx<Node>, ghost t: Tree<Node>,
            ghost s: set<Node>)
      requires Nodes(t) + CtxNodes(c) <= s
      requires At(node, Mem(s), c, t) && t.Branch? && t.left.Branch? && t.right.Branch? && t.node == gparent
      requires (t.left.node == parent && t.right.node == uncle) || (t.left.node == uncle && t.right.node == parent)
      modifies this`node, s
      ensures At(node, Mem(s), c, Branch(Blacken(t.left), gparent, true, Blacken(t.right)))
    {
      ghost var l, r := t.left, t.right;
      ghost var uncleRight := r.node == uncle;
      PaintChild(uncle, false, uncleRight, c, t, s);
      ghost var t1 := if uncleRight then t.(right := Blacken(r)) else t.(left := Blacken(l));
      PaintChild(parent, false, !uncleRight, c, t1, s);
      Paint(gparent, true, c, Branch(Blacken(l), gparent, t.red, Blacken(r)), s);
    }

    // ----- rb_link_node and rb_insert_color -----

    /** Loop body of rb_insert_color, parent being the left child of the grandparent. */
    method InsertTurnLeft(x: Node, parent0: Node, gparent: Node, ghost c: Ctx<Node>, ghost t: Tree<Node>,
            ghost s: set<Node>)
      returns (x': Node, ghost c': Ctx<Node>, ghost t': Tree<Node>)
      requires Nodes(t) + CtxNodes(c) <= s
      requires At(node, Mem(s), c, t) && t.Branch? && t.node == x && NeedsInsertFix(c, t)
      requires RedAbove(c) && c.up.InLeft? && c.node == parent0 && c.up.node == gparent
      modifies this`node, s
      ensures Nodes(t') + CtxNodes(c') <= s
      ensures At(node, Mem(s), c', t') && t'.Branch? && t'.node == x' && NeedsInsertFix(c', t')
      ensures InsertFix(c', t') == InsertFix(c, t) && Depth(c') < Depth(c)
    {
      ghost var up, u, gr := c.up.up, c.up.right, c.up.red;
      ghost var p := Below(c, t);
      var parent := parent0;
      x' := x;
      FocusUp(node, Mem(s), c, t);
      FrameFields(c.up, p, s);
      var uncle := gparent.right;
      if uncle != null && uncle.red {
        FocusUp(node, Mem(s), c.up, p);
        FlipColours(parent, uncle, gparent, up, Branch(p, gparent, gr, u), s);
        x', c', t' := gparent, up, Branch(Blacken(p), gparent, true, Blacken(u));
        FlipKeepsShape(c, t);
        return;
      }
      ghost var q := p;
      if parent.right == x {
        RotateLeft(parent, c.up, p, s);
        q := RotatedLeft(p);
        parent, x' := x, parent;
      }
      FocusUp(node, Mem(s), c.up, q);
      ghost var g := Branch(q, gparent, gr, u);
      PaintChild(parent, false, false, up, g, s);
      Paint(gparent, true, up, Branch(Blacken(q), gparent, gr, u), s);
      RotateRight(gparent, up, Branch(Blacken(q), gparent, true, u), s);
      ghost var top := Branch(q.left, q.node, false, Branch(q.right, gparent, true, u));
      FocusLeft(node, Mem(s), up, top);
      c', t' := InLeft(up, q.node, false, top.right), q.left;
    }

    /** The mirror image: parent is the right child of the grandparent. */
    method InsertTurnRight(x: Node, parent0: Node, gparent: Node, ghost c: Ctx<Node>, ghost t: Tree<Node>,
            ghost s: set<Node>)
      returns (x': Node, ghost c': Ctx<Node>, ghost t': Tree<Node>)
      requires Nodes(t) + CtxNodes(c) <= s
      requires At(node, Mem(s), c, t) && t.Branch? && t.node == x && NeedsInsertFix(c, t)
      requires RedAbove(c) && c.up.InRight? && c.node == parent0 && c.up.node == gparent
      modifies this`node, s
      ensures Nodes(t') + CtxNodes(c') <= s
      ensures At(node, Mem(s), c', t') && t'.Branch? && t'.node == x' && NeedsInsertFix(c', t')
      ensures InsertFix(c', t') == InsertFix(c, t) && Depth(c') < Depth(c)
    {
      ghost var up, u, gr := c.up.up, c.up.left, c.up.red;
      ghost var p := Below(c, t);
      var parent := parent0;
      x' := x;
      FocusUp(node, Mem(s), c, t);
      FrameFields(c.up, p, s);
      var uncle := gparent.left;
      if uncle != null && uncle.red {
        FocusUp(node, Mem(s), c.up, p);
        FlipColours(parent, uncle, gparent, up, Branch(u, gparent, gr, p), s);
        x', c', t' := gparent, up, Branch(Blacken(u), gparent, true, Blacken(p));
        FlipKeepsShape(c, t);
        return;
      }
      ghost var q := p;
      if parent.left == x {
        RotateRight(parent, c.up, p, s);
        q := RotatedRight(p);
        parent, x' := x, parent;
      }
      FocusUp(node, Mem(s), c.up, q);
      PaintChild(parent, false, true, up, Branch(u, gparent, gr, q), s);
      Paint(gparent, true, up, Branch(u, gparent, gr, Blacken(q)), s);
      RotateLeft(gparent, up, Branch(u, gparent, true, Blacken(q)), s);
      ghost var top := Branch(Branch(u, gparent, true, q.left), q.node, false, q.right);
      FocusRight(node, Mem(s), up, top);
      c', t' := InRight(up, top.left, q.node, false), q.right;
    }

    /** rb_insert_color on a tree whose only possible fault is a red parent above the red node `x`. */
    method InsertColor(x: Node, ghost c0: Ctx<Node>, ghost t0: Tree<Node>, ghost s: set<Node>)
      requires Nodes(t0) + CtxNodes(c0) <= s
      requires At(node, Mem(s), c0, t0) && t0.Branch? && t0.node == x && NeedsInsertFix(c0, t0)
      modifies this`node, s
      ensures At(node, Mem(s), Top, Blacken(InsertFix(c0, t0)))
    {
      var x := x;
      ghost var c, t := c0, t0;
      FrameFields(c, t, s);
      while x.parent != null && x.parent.red
        invariant Nodes(t) + CtxNodes(c) <= s
        invariant At(node, Mem(s), c, t) && t.Branch? && t.node == x && NeedsInsertFix(c, t)
        invariant x.parent == ParentRef(c) && (!c.Top? ==> c.node.red == c.red)
        invariant InsertFix(c, t) == InsertFix(c0, t0)
        decreases Depth(c)
      {
        var parent := x.parent;
        FrameFields(c, t, s);
        FocusUp(node, Mem(s), c, t);
        FrameFields(c.up, Below(c, t), s);
        var gparent := parent.parent;
        if parent == gparent.left {
          x, c, t := InsertTurnLeft(x, parent, gparent, c, t, s);
        } else {
          x, c, t := InsertTurnRight(x, parent, gparent, c, t, s);
        }
        FrameFields(c, t, s);
      }
      AtPlug(node, Mem(s), c, t);
      PlugBranch(c, t);
      Paint(node, false, Top, Plug(c, t), s);
    }

    /** rb_link_node: hang the new node, red, in the hole that the caller's descent ended at. */
    method LinkNode(x: Node, parent: Node?, left: bool, ghost c: Ctx<Node>, ghost s: set<Node>)
      requires CtxNodes(c) + {x} <= s && x !in CtxNodes(c)
      requires At(node, Mem(s), c, Leaf)
      requires parent == ParentRef(c) && (!c.Top? ==> (left <==> c.InLeft?))
      modifies this`node, s
      ensures At(node, Mem(s), c, Branch(Leaf, x, true, Leaf))
    {
      ghost var m := Mem(s);
      x.Blank(parent, s);
      if parent == null {
        node := x;
      } else if left {
        parent.SetLeft(x, s);
      } else {
        parent.SetRight(x, s);
      }
      FrameHole(m, Mem(s), c, null, x);
    }

    // ----- rb_erase -----

    /** Fields of one child of the node in focus, and of its children. */
    lemma SiblingFields(c: Ctx<Node>, t: Tree<Node>, right: bool, s: set<Node>)
      requires At(node, Mem(s), c, t) && Nodes(t) + CtxNodes(c) <= s && t.Branch?
      requires (if right then t.right else t.left).Branch?
      ensures var k := if right then t.right else t.left;
              && k.node.left == Ref(k.left) && k.node.right == Ref(k.right) && k.node.red == k.red
              && (k.left.Branch? ==> k.left.node.red == k.left.red)
              && (k.right.Branch? ==> k.right.node.red == k.right.red)
    {
      if right {
        FocusRight(node, Mem(s), c, t);
        ChildFields(InRight(c, t.left, t.node, t.red), t.right, s);
      } else {
        FocusLeft(node, Mem(s), c, t);
        ChildFields(InLeft(c, t.node, t.red, t.right), t.left, s);
      }
    }

    /** Colours of the children of the node in focus. */
    lemma ChildFields(c: Ctx<Node>, t: Tree<Node>, s: set<Node>)
      requires At(node, Mem(s), c, t) && Nodes(t) + CtxNodes(c) <= s && t.Branch?
      ensures t.node.left == Ref(t.left) && t.node.right == Ref(t.right) && t.node.red == t.red
      ensures t.left.Branch? ==> t.left.node.red == t.left.red
      ensures t.right.Branch? ==> t.right.node.red == t.right.red
    {
      NodeFields(t, ParentRef(c), s);
      NodeFields(t.left, t.node, s);
      NodeFields(t.right, t.node, s);
    }

    /** Move the sibling's red left child above it; that child is the new sibling. */
    method StraightenLeft(parent: Node, sibling: Node, ghost u: Ctx<Node>, ghost t: Tree<Node>, ghost r: bool,
            ghost sib: Tree<Node>, ghost s: set<Node>)
      returns (other: Node, ghost s2: Tree<Node>)
      requires Nodes(Branch(t, parent, r, sib)) + CtxNodes(u) <= s && At(node, Mem(s), u, Branch(t, parent, r, sib))
      requires sib.Branch? && sib.node == sibling && IsRed(sib.left)
      modifies this`node, s
      ensures s2 == RotatedRight(sib.(red := true, left := Blacken(sib.left))) && s2.node == other
      ensures Nodes(Branch(t, parent, r, s2)) + CtxNodes(u) <= s && At(node, Mem(s), u, Branch(t, parent, r, s2))
    {
      ghost var w := InRight(u, t, parent, r);
      FocusRight(node, Mem(s), u, Branch(t, parent, r, sib));
      ChildFields(w, sib, s);
      PaintChild(sibling.left, false, false, w, sib, s);
      ghost var sib1 := sib.(left := Blacken(sib.left));
      Paint(sibling, true, w, sib1, s);
      RotateRight(sibling, w, Painted(sib1, true), s);
      s2 := RotatedRight(Painted(sib1, true));
      FocusUp(node, Mem(s), w, s2);
      NodeFields(Branch(t, parent, r, s2), ParentRef(u), s);
      other := parent.right;
    }

    /** The sibling gives up its black: the deficit moves to the parent. */
    method YieldLeft(parent: Node, other: Node, ghost u: Ctx<Node>, ghost t: Tree<Node>, ghost r: bool,
            ghost sib: Tree<Node>, ghost s: set<Node>)
      requires Nodes(Branch(t, parent, r, sib)) + CtxNodes(u) <= s && At(node, Mem(s), u, Branch(t, parent, r, sib))
      requires sib.Branch? && sib.node == other
      modifies this`node, s
      ensures At(node, Mem(s), u, Branch(t, parent, r, Redden(sib)))
    {
      PaintChild(other, true, true, u, Branch(t, parent, r, sib), s);
    }

    /** __rb_erase_color below a black sibling; the one-short subtree is the left child. */
    method SettleLeft(parent: Node, sibling: Node, ghost u: Ctx<Node>, ghost t: Tree<Node>, ghost r: bool,
            ghost sib: Tree<Node>, ghost s: set<Node>)
      returns (settled: bool)
      requires Nodes(Branch(t, parent, r, sib)) + CtxNodes(u) <= s && At(node, Mem(s), u, Branch(t, parent, r, sib))
      requires sib.Branch? && !sib.red && sib.node == sibling
      modifies this`node, s
      ensures At(node, Mem(s), u, TurnLeft(t, parent, r, sib).tree)
      ensures settled == TurnLeft(t, parent, r, sib).Settled?
    {
      hide Linked, LinkedCtx, Distinct, DistinctCtx, RootRef;
      var other := sibling;
      SiblingFields(u, Branch(t, parent, r, sib), true, s);
      if (other.left == null || !other.left.red) && (other.right == null || !other.right.red) {
        YieldLeft(parent, other, u, t, r, sib, s);
        return false;
      }
      ghost var s2 := sib;
      if other.right == null || !other.right.red {
        other, s2 := StraightenLeft(parent, other, u, t, r, sib, s);
      }
      FinishSettleLeft(parent, other, u, t, r, s2, s);
      return true;
    }

    method FinishSettleLeft(parent: Node, other: Node, ghost u: Ctx<Node>, ghost t: Tree<Node>, ghost r: bool,
            ghost sib: Tree<Node>, ghost s: set<Node>)
      requires var p := Branch(t, parent, r, sib); Nodes(p) + CtxNodes(u) <= s && At(node, Mem(s), u, p)
      requires sib.Branch? && IsRed(sib.right) && sib.node == other
      modifies this`node, s
      ensures At(node, Mem(s), u, Branch(Branch(t, parent, false, sib.left), other, r, Blacken(sib.right)))
    {
      FrameFields(u, Branch(t, parent, r, sib), s);
      PaintChild(other, parent.red, true, u, Branch(t, parent, r, sib), s);
      ghost var s1 := Painted(sib, r);
      Paint(parent, false, u, Branch(t, parent, r, s1), s);
      ghost var p2 := Branch(t, parent, false, s1);
      ghost var w := InRight(u, t, parent, false);
      FocusRight(node, Mem(s), u, p2);
      FrameFields(w, s1, s);
      PaintChild(other.right, false, true, w, s1, s);
      ghost var s3 := s1.(right := Blacken(s1.right));
      FocusUp(node, Mem(s), w, s3);
      RotateLeft(parent, u, Branch(t, parent, false, s3), s);
    }

    /** A red sibling goes above the parent, which turns red and gets a black sibling. */
    method LowerLeft(parent: Node, sibling: Node, ghost up: Ctx<Node>, ghost t: Tree<Node>, ghost r: bool,
            ghost sib: Tree<Node>, ghost s: set<Node>)
      returns (other: Node, ghost c': Ctx<Node>)
      requires Nodes(Branch(t, parent, r, sib)) + CtxNodes(up) <= s && At(node, Mem(s), up, Branch(t, parent, r, sib))
      requires sib.Branch? && sib.node == sibling && sib.left.Branch?
      modifies this`node, s
      ensures c' == InLeft(up, sib.node, false, sib.right) && other == sib.left.node
      ensures var q := Branch(t, parent, true, sib.left); Nodes(q) + CtxNodes(c') <= s && At(node, Mem(s), c', q)
    {
      PaintChild(sibling, false, true, up, Branch(t, parent, r, sib), s);
      ghost var black := Blacken(sib);
      Paint(parent, true, up, Branch(t, parent, r, black), s);
      RotateLeft(parent, up, Branch(t, parent, true, black), s);
      ghost var q := Branch(t, parent, true, sib.left);
      FocusLeft(node, Mem(s), up, Branch(q, sib.node, false, sib.right));
      c' := InLeft(up, sib.node, false, sib.right);
      NodeFields(q, ParentRef(c'), s);
      other := parent.right;
    }

    /** Loop body of __rb_erase_color for a left child. */
    method EraseTurnLeft(parent: Node, ghost c: Ctx<Node>, ghost t: Tree<Node>, ghost s: set<Node>)
      returns (settled: bool, ghost c': Ctx<Node>, ghost t': Tree<Node>)
      requires Nodes(t) + CtxNodes(c) <= s && At(node, Mem(s), c, t)
      requires c.InLeft? && c.node == parent && !IsRed(t) && NearlySound(t) && Fits(c, Height(t) + 1)
      modifies this`node, s
      ensures Nodes(t') + CtxNodes(c') <= s && At(node, Mem(s), c', t')
      ensures t'.Branch? && (!settled ==> t'.node == parent)
      ensures settled ==> EraseFix(c, t) == Blacken(Plug(c', t'))
      ensures !settled ==>
                && EraseFix(c', t') == EraseFix(c, t) && NearlySound(t') && Fits(c', Height(t') + 1)
                && (IsRed(t') || Depth(c') < Depth(c))
    {
      hide Linked, LinkedCtx, Distinct, DistinctCtx, Balanced, NoRedRed, EraseFix, RootRef, TurnLeft, TurnRight;
      c' := c.up;
      ghost var up, sib, r := c.up, Sibling(c), c.red;
      FocusUp(node, Mem(s), c, t);
      NodeFields(Branch(t, parent, r, sib), ParentRef(up), s);
      SiblingFields(up, Branch(t, parent, r, sib), true, s);
      var other := parent.right;
      EraseStepLeft(c, t);
      if other.red {
        other, c' := LowerLeft(parent, other, up, t, r, sib, s);
        r, sib := true, sib.left;
      }
      settled := SettleLeft(parent, other, c', t, r, sib, s);
      t' := TurnLeft(t, parent, r, sib).tree;
      TurnLeftNodes(t, parent, r, sib);
    }

    /** Move the sibling's red right child above it; that child is the new sibling. */
    method StraightenRight(parent: Node, sibling: Node, ghost u: Ctx<Node>, ghost t: Tree<Node>, ghost r: bool,
            ghost sib: Tree<Node>, ghost s: set<Node>)
      returns (other: Node, ghost s2: Tree<Node>)
      requires Nodes(Branch(sib, parent, r, t)) + CtxNodes(u) <= s && At(node, Mem(s), u, Branch(sib, parent, r, t))
      requires sib.Branch? && sib.node == sibling && IsRed(sib.right)
      modifies this`node, s
      ensures s2 == RotatedLeft(sib.(red := true, right := Blacken(sib.right))) && s2.node == other
      ensures Nodes(Branch(s2, parent, r, t)) + CtxNodes(u) <= s && At(node, Mem(s), u, Branch(s2, parent, r, t))
    {
      ghost var w := InLeft(u, parent, r, t);
      FocusLeft(node, Mem(s), u, Branch(sib, parent, r, t));
      ChildFields(w, sib, s);
      PaintChild(sibling.right, false, true, w, sib, s);
      ghost var sib1 := sib.(right := Blacken(sib.right));
      Paint(sibling, true, w, sib1, s);
      RotateLeft(sibling, w, Painted(sib1, true), s);
      s2 := RotatedLeft(Painted(sib1, true));
      FocusUp(node, Mem(s), w, s2);
      NodeFields(Branch(s2, parent, r, t), ParentRef(u), s);
      other := parent.left;
    }

    /** The sibling gives up its black: the deficit moves to the parent. */
    method YieldRight(parent: Node, other: Node, ghost u: Ctx<Node>, ghost t: Tree<Node>, ghost r: bool,
            ghost sib: Tree<Node>, ghost s: set<Node>)
      requires Nodes(Branch(sib, parent, r, t)) + CtxNodes(u) <= s && At(node, Mem(s), u, Branch(sib, parent, r, t))
      requires sib.Branch? && sib.node == other
      modifies this`node, s
      ensures At(node, Mem(s), u, Branch(Redden(sib), parent, r, t))
    {
      PaintChild(other, true, false, u, Branch(sib, parent, r, t), s);
    }

    /** __rb_erase_color below a black sibling; the one-short subtree is the right child. */
    method SettleRight(parent: Node, sibling: Node, ghost u: Ctx<Node>, ghost t: Tree<Node>, ghost r: bool,
            ghost sib: Tree<Node>, ghost s: set<Node>)
      returns (settled: bool)
      requires Nodes(Branch(sib, parent, r, t)) + CtxNodes(u) <= s && At(node, Mem(s), u, Branch(sib, parent, r, t))
      requires sib.Branch? && !sib.red && sib.node == sibling
      modifies this`node, s
      ensures At(node, Mem(s), u, TurnRight(sib, parent, r, t).tree)
      ensures settled == TurnRight(sib, parent, r, t).Settled?
    {
      hide Linked, LinkedCtx, Distinct, DistinctCtx, RootRef;
      var other := sibling;
      SiblingFields(u, Branch(sib, parent, r, t), false, s);
      if (other.left == null || !other.left.red) && (other.right == null || !other.right.red) {
        YieldRight(parent, other, u, t, r, sib, s);
        return false;
      }
      ghost var s2 := sib;
      if other.left == null || !other.left.red {
        other, s2 := StraightenRight(parent, other, u, t, r, sib, s);
      }
      FinishSettleRight(parent, other, u, t, r, s2, s);
      return true;
    }

    method FinishSettleRight(parent: Node, other: Node, ghost u: Ctx<Node>, ghost t: Tree<Node>, ghost r: bool,
            ghost sib: Tree<Node>, ghost s: set<Node>)
      requires var p := Branch(sib, parent, r, t); Nodes(p) + CtxNodes(u) <= s && At(node, Mem(s), u, p)
      requires sib.Branch? && IsRed(sib.left) && sib.node == other
      modifies this`node, s
      ensures At(node, Mem(s), u, Branch(Blacken(sib.left), other, r, Branch(sib.right, parent, false, t)))
    {
      FrameFields(u, Branch(sib, parent, r, t), s);
      PaintChild(other, parent.red, false, u, Branch(sib, parent, r, t), s);
      ghost var s1 := Painted(sib, r);
      Paint(parent, false, u, Branch(s1, parent, r, t), s);
      ghost var p2 := Branch(s1, parent, false, t);
      ghost var w := InLeft(u, parent, false, t);
      FocusLeft(node, Mem(s), u, p2);
      FrameFields(w, s1, s);
      PaintChild(other.left, false, false, w, s1, s);
      ghost var s3 := s1.(left := Blacken(s1.left));
      FocusUp(node, Mem(s), w, s3);
      RotateRight(parent, u, Branch(s3, parent, false, t), s);
    }

    /** A red sibling goes above the parent, which turns red and gets a black sibling. */
    method LowerRight(parent: Node, sibling: Node, ghost up: Ctx<Node>, ghost t: Tree<Node>, ghost r: bool,
            ghost sib: Tree<Node>, ghost s: set<Node>)
      returns (other: Node, ghost c': Ctx<Node>)
      requires Nodes(Branch(sib, parent, r, t)) + CtxNodes(up) <= s && At(node, Mem(s), up, Branch(sib, parent, r, t))
      requires sib.Branch? && sib.node == sibling && sib.right.Branch?
      modifies this`node, s
      ensures c' == InRight(up, sib.left, sib.node, false) && other == sib.right.node
      ensures var q := Branch(sib.right, parent, true, t); Nodes(q) + CtxNodes(c') <= s && At(node, Mem(s), c', q)
    {
      PaintChild(sibling, false, false, up, Branch(sib, parent, r, t), s);
      ghost var black := Blacken(sib);
      Paint(parent, true, up, Branch(black, parent, r, t), s);
      RotateRight(parent, up, Branch(black, parent, true, t), s);
      ghost var q := Branch(sib.right, parent, true, t);
      FocusRight(node, Mem(s), up, Branch(sib.left, sib.node, false, q));
      c' := InRight(up, sib.left, sib.node, false);
      NodeFields(q, ParentRef(c'), s);
      other := parent.left;
    }

    /** Loop body of __rb_erase_color for a right child. */
    method EraseTurnRight(parent: Node, ghost c: Ctx<Node>, ghost t: Tree<Node>, ghost s: set<Node>)
      returns (settled: bool, ghost c': Ctx<Node>, ghost t': Tree<Node>)
      requires Nodes(t) + CtxNodes(c) <= s && At(node, Mem(s), c, t)
      requires c.InRight? && c.node == parent && !IsRed(t) && NearlySound(t) && Fits(c, Height(t) + 1)
      modifies this`node, s
      ensures Nodes(t') + CtxNodes(c') <= s && At(node, Mem(s), c', t')
      ensures t'.Branch? && (!settled ==> t'.node == parent)
      ensures settled ==> EraseFix(c, t) == Blacken(Plug(c', t'))
      ensures !settled ==>
                && EraseFix(c', t') == EraseFix(c, t) && NearlySound(t') && Fits(c', Height(t') + 1)
                && (IsRed(t') || Depth(c') < Depth(c))
    {
      hide Linked, LinkedCtx, Distinct, DistinctCtx, Balanced, NoRedRed, EraseFix, RootRef, TurnLeft, TurnRight;
      c' := c.up;
      ghost var up, sib, r := c.up, Sibling(c), c.red;
      FocusUp(node, Mem(s), c, t);
      NodeFields(Branch(sib, parent, r, t), ParentRef(up), s);
      SiblingFields(up, Branch(sib, parent, r, t), false, s);
      var other := parent.left;
      EraseStepRight(c, t);
      if other.red {
        other, c' := LowerRight(parent, other, up, t, r, sib, s);
        r, sib := true, sib.right;
      }
      settled := SettleRight(parent, other, c', t, r, sib, s);
      t' := TurnRight(sib, parent, r, t).tree;
      TurnRightNodes(sib, parent, r, t);
    }

    /** __rb_erase_color: `t0` at `child` is one black short. */
    method EraseColor(child: Node?, parent: Node?, ghost c0: Ctx<Node>, ghost t0: Tree<Node>, ghost s: set<Node>)
      requires Nodes(t0) + CtxNodes(c0) <= s && At(node, Mem(s), c0, t0)
      requires child == Ref(t0) && parent == ParentRef(c0)
      requires NearlySound(t0) && Fits(c0, Height(t0) + 1)
      modifies this`node, s
      ensures At(node, Mem(s), Top, EraseFix(c0, t0))
    {
      hide Linked, LinkedCtx, Distinct, DistinctCtx, Balanced, NoRedRed, EraseFix;
      var n, p := child, parent;
      ghost var c, t := c0, t0;
      NodeFields(t, ParentRef(c), s);
      while (n == null || !n.red) && n != node
        invariant Nodes(t) + CtxNodes(c) <= s && At(node, Mem(s), c, t)
        invariant n == Ref(t) && p == ParentRef(c) && (t.Branch? ==> n.red == t.red)
        invariant NearlySound(t) && Fits(c, Height(t) + 1)
        invariant EraseFix(c, t) == EraseFix(c0, t0)
        decreases if IsRed(t) then 0 else 1 + Depth(c)
      {
        FrameFields(c, t, s);
        EraseSiblingExists(c, t);
        var settled;
        if p.left == n {
          settled, c, t := EraseTurnLeft(p, c, t, s);
        } else {
          settled, c, t := EraseTurnRight(p, c, t, s);
        }
        if settled {
          AtPlug(node, Mem(s), c, t);
          PlugBranch(c, t);
          Paint(node, false, Top, Plug(c, t), s);
          return;
        }
        NodeFields(t, ParentRef(c), s);
        n := p;
        p := n.parent;
      }
      if !c.Top? {
        RootInCtx(c, Ref(t));
      }
      if n != null {
        Paint(n, false, c, t, s);
      }
      EraseFixStops(c, t);
      AtPlug(node, Mem(s), c, Blacken(t));
    }

    lemma EraseFixStops(c: Ctx<Node>, t: Tree<Node>)
      requires IsRed(t) || c.Top?
      ensures EraseFix(c, t) == Plug(c, Blacken(t))
    {
    }

    lemma EraseSiblingExists(c: Ctx<Node>, t: Tree<Node>)
      requires !c.Top? && Fits(c, Height(t) + 1)
      ensures Sibling(c).Branch?
    {
    }

    // ----- the interface -----

    ghost predicate Valid()
      reads this, Nodes(tree)
    {
      At(node, Mem(Nodes(tree)), Top, tree) && RedBlack(tree)
    }

    /** rb_link_node followed by rb_insert_color: `x` goes into the hole of `c`, and nothing else moves. */
    method Insert(x: Node, parent: Node?, left: bool, ghost c: Ctx<Node>)
      requires Valid() && x !in Nodes(tree) && Plug(c, Leaf) == tree
      requires parent == ParentRef(c) && (!c.Top? ==> (left <==> c.InLeft?))
      modifies this, Nodes(tree), x
      ensures Valid()
      ensures old(InOrder(tree)) == Before(c) + Behind(c)
      ensures InOrder(tree) == Before(c) + [x] + Behind(c)
      ensures Nodes(tree) == old(Nodes(tree)) + {x}
    {
      hide At, Mem, Plug, Nodes, CtxNodes, RootRef, Linked, LinkedCtx, Distinct, DistinctCtx, RedBlack, InsertFix,
           InOrder, Before, Behind;
      hide Height, Fits, Sound, NeedsInsertFix, Blacken;
      ghost var s := Nodes(tree) + {x};
      EmptyHole(c, x);
      AtPlug(node, Mem(Nodes(tree)), c, Leaf);
      MemAgree(Nodes(tree), s);
      AtAgree(node, Mem(Nodes(tree)), Mem(s), c, Leaf);
      InsertedTree(c, x);
      LinkNode(x, parent, left, c, s);
      InsertColor(x, c, Branch(Leaf, x, true, Leaf), s);
      tree := Blacken(InsertFix(c, Branch(Leaf, x, true, Leaf)));
    }

    /** rb_erase, node with at most one child: unlink it. */
    method Splice(x: Node, child: Node?, ghost c: Ctx<Node>, ghost t: Tree<Node>, ghost ct: Tree<Node>,
            ghost s: set<Node>)
      requires Nodes(t) + CtxNodes(c) <= s && At(node, Mem(s), c, t) && t.Branch? && t.node == x
      requires (t.left.Leaf? && ct == t.right) || (t.right.Leaf? && ct == t.left)
      requires child == Ref(ct)
      modifies this`node, s
      ensures At(node, Mem(s), c, ct) && Nodes(ct) <= Nodes(t) && x !in Nodes(ct) + CtxNodes(c)
    {
      ghost var m := Mem(s);
      ghost var root := node;
      FrameFields(c, t, s);
      RefsInMem(m, c, t, ct);
      var parent := x.parent;
      ReparentIf(child, parent, s);
      SetHole(parent, x, child, c, s);
      SplicedAt(root, node, m, Mem(s), c, t, ct);
    }

    lemma RefsInMem(m: map<Node, Cell>, c: Ctx<Node>, t: Tree<Node>, ct: Tree<Node>)
      requires At(node, m, c, t) && t.Branch? && (ct == t.left || ct == t.right)
      ensures t.node in m && (!c.Top? ==> c.node in m) && (ct.Branch? ==> ct.node in m)
      ensures !c.Top? && ct.Branch? ==> c.node != ct.node
    {
      assert Linked(m, ct, t.node);
      assert ct.Branch? ==> ct.node in Nodes(ct);
    }

    /** Leftmost node of the right subtree of `x`. */
    method Successor(x: Node, ghost c: Ctx<Node>, ghost z: Tree<Node>, ghost s: set<Node>)
      returns (y: Node, ghost i: Ctx<Node>, ghost t: Tree<Node>)
      requires Nodes(z) + CtxNodes(c) <= s && At(node, Mem(s), c, z) && z.Branch? && z.node == x && z.right.Branch?
      ensures LeftSpine(i) && Plug(i, t) == z.right && t.Branch? && t.left.Leaf? && t.node == y
      ensures InOrder(z.right) != [] && y == InOrder(z.right)[0]
      ensures var o := InRight(c, z.left, x, z.red);
              At(node, Mem(s), Compose(i, o), t) && Nodes(t) + CtxNodes(Compose(i, o)) == Nodes(z) + CtxNodes(c)
    {
      hide Linked, LinkedCtx, Distinct, DistinctCtx, RootRef;
      ghost var o := InRight(c, z.left, x, z.red);
      NodeFields(z, ParentRef(c), s);
      FocusRight(node, Mem(s), c, z);
      y, i, t := x.right, Top, z.right;
      NodeFields(t, x, s);
      while y.left != null
        invariant LeftSpine(i) && Plug(i, t) == z.right && t.Branch? && t.node == y && y.left == Ref(t.left)
        invariant At(node, Mem(s), Compose(i, o), t)
        invariant Nodes(t) + CtxNodes(Compose(i, o)) == Nodes(z) + CtxNodes(c)
        decreases t
      {
        FocusLeft(node, Mem(s), Compose(i, o), t);
        i, t := InLeft(i, t.node, t.red, t.right), t.left;
        NodeFields(t, y, s);
        y := y.left;
      }
      MinFirst(i, t);
    }

    /** Unlink the successor `y` of `x` from the right subtree of `x`. */
    method DetachMin(x: Node, y: Node, ghost c: Ctx<Node>, ghost z: Tree<Node>, ghost i: Ctx<Node>,
            ghost t: Tree<Node>, ghost s: set<Node>)
      returns (child: Node?, parent: Node)
      requires z.Branch? && z.node == x && t.Branch? && t.left.Leaf? && t.node == y && LeftSpine(i)
      requires var o := InRight(c, z.left, x, z.red);
               At(node, Mem(s), Compose(i, o), t) && Nodes(t) + CtxNodes(Compose(i, o)) <= s
      modifies this`node, s
      ensures child == Ref(t.right) && parent == (if i.Top? then y else i.node)
      ensures At(node, Mem(s), Compose(i, InRight(c, z.left, x, z.red)), t.right)
      ensures y !in Nodes(t.right) + CtxNodes(Compose(i, InRight(c, z.left, x, z.red)))
    {
      ghost var o := InRight(c, z.left, x, z.red);
      ghost var w := Compose(i, o);
      ghost var m := Mem(s);
      ghost var root := node;
      MinParent(i, c, z.left, x, z.red);
      FrameFields(w, t, s);
      RefsInMem(m, w, t, t.right);
      ParentIsOld(m, i, c, z.left, x, z.red, t);
      child := y.right;
      parent := y.parent;
      ReparentIf(child, parent, s);
      if parent == x {
        parent.SetRight(child, s);
        parent := y;
      } else {
        parent.SetLeft(child, s);
      }
      SplicedAt(root, node, m, Mem(s), w, t, t.right);
    }

    /** The successor hangs directly below `x` exactly when no left step was taken. */
    lemma ParentIsOld(m: map<Node, Cell>, i: Ctx<Node>, c: Ctx<Node>, l: Tree<Node>, x: Node, red: bool, t: Tree<Node>)
      requires At(node, m, Compose(i, InRight(c, l, x, red)), t) && LeftSpine(i)
      ensures !i.Top? ==> i.node != x
    {
      if !i.Top? {
        InnerNodeNotOuter(i.up, InRight(c, l, x, red));
      }
    }

    /** Hand the place of `x` over to the unlinked node `y`. */
    method TakePlace(x: Node, y: Node, ghost c: Ctx<Node>, ghost t: Tree<Node>, ghost s: set<Node>)
      requires Nodes(t) + CtxNodes(c) + {y} <= s && At(node, Mem(s), c, t)
      requires t.Branch? && t.node == x && t.left.Branch? && y !in Nodes(t) + CtxNodes(c)
      modifies this`node, s
      ensures At(node, Mem(s), c, t.(node := y))
    {
      ghost var m := Mem(s);
      ghost var root := node;
      FrameFields(c, t, s);
      RefsInMem(m, c, t, t.left);
      RefsInMem(m, c, t, t.right);
      TakePlacePointers(x, y, c, s);
      PlacedAt(root, node, m, Mem(s), c, t, y);
    }

    method TakePlacePointers(x: Node, y: Node, ghost c: Ctx<Node>, ghost s: set<Node>)
      requires x in s && y in s && x != y && x.left != null && x.left in s && (x.right != null ==> x.right in s)
      requires x.parent == ParentRef(c) && (x.parent != null ==> x.parent in s && (x.parent.left == x <==> c.InLeft?))
      requires x.parent != y && x.left !in {x, y} && x.right !in {x, y} && x.parent != x
      requires x.parent != null ==> x.parent !in {x.left, x.right}
      modifies this`node, s
      ensures Mem(s) == PlaceMem(old(Mem(s)), c, x, y, old(x.left), old(x.right))
      ensures node == if c.Top? then y else old(node)
    {
      y.CopyLinks(x, s);
      SetHole(x.parent, x, y, c, s);
      x.left.SetParent(y, s);
      ReparentIf(x.right, y, s);
    }

    /** rb_erase, once the node to unlink has at most one child. */
    method EraseShallow(x: Node, child: Node?, ghost c: Ctx<Node>, ghost t: Tree<Node>, ghost ct: Tree<Node>,
            ghost s: set<Node>)
      requires Nodes(t) + CtxNodes(c) <= s && At(node, Mem(s), c, t) && t.Branch? && t.node == x
      requires (t.left.Leaf? && ct == t.right) || (t.right.Leaf? && ct == t.left)
      requires child == Ref(ct) && RedBlack(Plug(c, t))
      modifies this`node, s
      ensures At(node, Mem(s), Top, Erased(c, t.red, ct))
    {
      hide Linked, LinkedCtx, Distinct, DistinctCtx, RootRef, Balanced, NoRedRed, EraseFix, Height, Fits, Plug, At;
      ErasedRedBlack(c, t, ct);
      NodeFields'(c, t, s);
      var parent, black := x.parent, !x.red;
      Splice(x, child, c, t, ct, s);
      if black {
        EraseColor(child, parent, c, ct, s);
      } else {
        AtPlug(node, Mem(s), c, ct);
      }
    }

    lemma NodeFields'(c: Ctx<Node>, t: Tree<Node>, s: set<Node>)
      requires Nodes(t) + CtxNodes(c) <= s && At(node, Mem(s), c, t) && t.Branch?
      ensures t.node.left == Ref(t.left) && t.node.right == Ref(t.right)
      ensures t.node.parent == ParentRef(c) && t.node.red == t.red
    {
      NodeFields(t, ParentRef(c), s);
    }

    /** rb_erase of a node with two children: its successor is unlinked and takes its place. */
    method EraseDeep(x: Node, ghost c: Ctx<Node>, ghost z: Tree<Node>, ghost s: set<Node>)
      returns (ghost w: Ctx<Node>, ghost t: Tree<Node>)
      requires Nodes(z) + CtxNodes(c) <= s && At(node, Mem(s), c, z) && z.Branch? && z.node == x
      requires z.left.Branch? && z.right.Branch? && RedBlack(Plug(c, z))
      modifies this`node, s
      ensures t.Branch? && t.left.Leaf? && RedBlack(Plug(w, t))
      ensures At(node, Mem(s), Top, Erased(w, t.red, t.right))
      ensures Before(w) + InOrder(t.right) + Behind(w) ==
              (Before(c) + InOrder(z.left)) + (InOrder(z.right) + Behind(c))
    {
      hide Linked, LinkedCtx, Distinct, DistinctCtx, RootRef, Balanced, NoRedRed, EraseFix, Height, Fits, Plug,
           InOrder, Compose, Before, Behind;
      ghost var i;
      var y;
      y, i, t := Successor(x, c, z, s);
      NodeFields'(Compose(i, InRight(c, z.left, x, z.red)), t, s);
      var black := !y.red;
      var child, parent := DetachMin(x, y, c, z, i, t, s);
      ghost var r' := Plug(i, t.right);
      AtCompose(node, Mem(s), i, InRight(c, z.left, x, z.red), t.right);
      FocusUp(node, Mem(s), InRight(c, z.left, x, z.red), r');
      ghost var z' := Branch(z.left, x, z.red, r');
      TakePlace(x, y, c, z', s);
      FocusRight(node, Mem(s), c, Branch(z.left, y, z.red, r'));
      w := Compose(i, InRight(c, z.left, y, z.red));
      AtCompose(node, Mem(s), i, InRight(c, z.left, y, z.red), t.right);
      MinFits(i, c, z, t, y);
      ErasedRedBlack(w, t, t.right);
      ErasedMinOrder(i, c, z, t);
      MinParent(i, c, z.left, y, z.red);
      if black {
        EraseColor(child, parent, w, t.right, s);
      } else {
        AtPlug(node, Mem(s), w, t.right);
      }
    }

    /** rb_erase: exactly `x` disappears from the order, and the tree is red-black again. */
    method Erase(x: Node)
      requires Valid() && x in Nodes(tree)
      modifies this, Nodes(tree)
      ensures Valid()
      ensures InOrder(tree) == Without(old(InOrder(tree)), x)
      ensures Nodes(tree) == old(Nodes(tree)) - {x}
    {
      hide At, Mem, Plug, RootRef, Linked, LinkedCtx, DistinctCtx, RedBlack, EraseFix, Erased, InOrder, Before,
           Behind, Compose, Without;
      ghost var s := Nodes(tree);
      ghost var c, z := FocusOn(x);
      NodeFields'(c, z, s);
      ghost var w, t, ct := c, z, z.right;
      if x.left == null {
        EraseShallow(x, x.right, c, z, z.right, s);
        ErasedShallowOrder(c, z, z.right);
      } else if x.right == null {
        ct := z.left;
        EraseShallow(x, x.left, c, z, z.left, s);
        ErasedShallowOrder(c, z, z.left);
      } else {
        w, t := EraseDeep(x, c, z, s);
        ct := t.right;
      }
      ErasedTree(tree, c, z, w, t, ct);
      tree := Erased(w, t.red, ct);
      ValidWithin(s);
    }

    lemma FocusOn(x: Node) returns (c: Ctx<Node>, z: Tree<Node>)
      requires Valid() && x in Nodes(tree)
      ensures Plug(c, z) == tree && z.Branch? && z.node == x && Distinct(tree)
      ensures At(node, Mem(Nodes(tree)), c, z) && Nodes(z) + CtxNodes(c) == Nodes(tree)
    {
      NodesOfOrder(tree);
      c, z := Focus(tree, x);
      AtPlug(node, Mem(Nodes(tree)), c, z);
    }

    lemma ValidWithin(s: set<Node>)
      requires At(node, Mem(s), Top, tree) && RedBlack(tree) && Nodes(tree) <= s
      ensures Valid()
    {
      assert Agree(Mem(s), Mem(Nodes(tree)), Nodes(tree));
      AtAgree(node, Mem(s), Mem(Nodes(tree)), Top, tree);
    }

    lemma RootIsTree()
      requires Valid()
      ensures node == Ref(tree)
    {
    }

    // ----- rb_first and rb_next -----

    lemma Inside(c: Ctx<Node>, t: Tree<Node>)
      requires Valid() && Plug(c, t) == tree
      ensures At(node, Mem(Nodes(tree)), c, t) && Nodes(t) + CtxNodes(c) == Nodes(tree)
      ensures t.Branch? ==>
                && t.node.left == Ref(t.left) && t.node.right == Ref(t.right)
                && t.node.parent == ParentRef(c) && t.node in Nodes(tree)
      ensures !c.Top? && c.InRight? ==> c.node.right == Ref(t)
      ensures !c.Top? && c.InLeft? && t.Branch? ==> c.node.right != Ref(t)
    {
      AtPlug(node, Mem(Nodes(tree)), c, t);
      NodeFields(t, ParentRef(c), Nodes(tree));
      FrameFields(c, t, Nodes(tree));
      if !c.Top? && c.InLeft? && t.Branch? && c.right.Branch? {
        assert t.node in Nodes(t) && c.right.node in CtxNodes(c);
      }
    }

    /** rb_first. */
    method First() returns (n: Node?)
      requires Valid()
      ensures Valid()
      ensures n == if InOrder(tree) == [] then null else InOrder(tree)[0]
    {
      hide RedBlack, Linked, LinkedCtx, Distinct, DistinctCtx, Balanced, NoRedRed;
      n := node;
      ghost var c, t := Top, tree;
      Inside(c, t);
      if n == null {
        return;
      }
      while n.left != null
        invariant Valid() && Plug(c, t) == tree && t.Branch? && t.node == n && n.left == Ref(t.left) && LeftSpine(c)
        decreases t
      {
        c, t := InLeft(c, t.node, t.red, t.right), t.left;
        Inside(c, t);
        n := n.left;
      }
      MinFirst(c, t);
    }

    /** rb_next: the node after `x`, which is number `k` in the order, or null after the last. */
    method Next(x: Node, ghost k: nat) returns (n: Node?)
      requires Valid() && x in Nodes(tree) && k < |InOrder(tree)| && InOrder(tree)[k] == x
      ensures Valid()
      ensures n == if k + 1 < |InOrder(tree)| then InOrder(tree)[k + 1] else null
    {
      hide At, RedBlack;
      NoDups();
      ghost var c, z := FocusOn(x);
      Inside(c, z);
      OrderAround(c, z);
      assert InOrder(tree)[|Before(c) + InOrder(z.left)|] == x;
      assert k == |Before(c) + InOrder(z.left)|;
      ParentDiffers(c, z);
      assert x.parent != x;  // RB_EMPTY_NODE: never true of a node in a tree
      if x.right != null {
        ghost var i, t;
        n, i, t := Successor(x, c, z, Nodes(tree));
        MinFirst(i, t);
        ghost var o := InRight(c, z.left, x, z.red);
        AtCompose(node, Mem(Nodes(tree)), i, o, t);
        FocusUp(node, Mem(Nodes(tree)), o, z.right);
        AtPlug(node, Mem(Nodes(tree)), c, z);
        return;
      }
      var below := x;
      ghost var t := z;
      n := x.parent;
      while n != null && below == n.right
        invariant Valid() && Plug(c, t) == tree && t.Branch? && t.node == below && n == ParentRef(c)
        invariant InOrder(tree)[k + 1..] == Behind(c)
        decreases c
      {
        Inside(c, t);
        Inside(c.up, Below(c, t));
        c, t := c.up, Below(c, t);
        below := n;
        n := n.parent;
      }
      Inside(c, t);
    }

    lemma ParentDiffers(c: Ctx<Node>, z: Tree<Node>)
      requires At(node, Mem(Nodes(tree)), c, z) && z.Branch?
      ensures ParentRef(c) != z.node
    {
    }

    lemma NoDups()
      requires Valid()
      ensures forall j, k :: 0 <= j < k < |InOrder(tree)| ==> InOrder(tree)[j] != InOrder(tree)[k]
    {
      DistinctNoDups(tree);
    }

    /** A walk with rb_first and rb_next visits the nodes in order, each once. */
    method Walk() returns (xs: seq<Node>)
      requires Valid()
      ensures xs == InOrder(tree)
    {
      hide At, RedBlack;
      xs := [];
      ghost var order := InOrder(tree);
      NodesOfOrder(tree);
      NoDups();
      var n := First();
      while n != null
        invariant Valid() && |xs| <= |order| && xs == order[..|xs|]
        invariant n == if |xs| < |order| then order[|xs|] else null
        decreases |order| - |xs|
      {
        assert n in Elements(order);
        var x := n;
        n := Next(x, |xs|);
        xs := xs + [x];
      }
    }
  }
}
