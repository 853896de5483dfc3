/** Red-black tree nodes in memory, and when a snapshot of them holds a given tree around a given place. */
module RbMemory {
  import opened RbTree

  datatype Cell = Cell(left: Node?, right: Node?, parent: Node?, red: bool)

  class Node {
    var left: Node?
    var right: Node?
    var parent: Node?
    var red: bool

    constructor ()
    {
      left, right, parent, red := null, null, null, true;
    }

    method SetLeft(n: Node?, ghost s: set<Node>)
      requires this in s
      modifies this`left
      ensures Mem(s) == old(Mem(s))[this := old(Mem(s))[this].(left := n)]
    {
      left := n;
    }

    method SetRight(n: Node?, ghost s: set<Node>)
      requires this in s
      modifies this`right
      ensures Mem(s) == old(Mem(s))[this := old(Mem(s))[this].(right := n)]
    {
      right := n;
    }

    method SetParent(n: Node?, ghost s: set<Node>)
      requires this in s
      modifies this`parent
      ensures Mem(s) == old(Mem(s))[this := old(Mem(s))[this].(parent := n)]
    {
      parent := n;
    }

    /** Parent, colour and children of `n`, field by field. */
    method CopyLinks(n: Node, ghost s: set<Node>)
      requires this in s && n in s
      modifies this
      ensures Mem(s) == old(Mem(s))[this := old(Mem(s))[n]]
    {
      parent, red := n.parent, n.red;
      right := n.right;
      left := n.left;
    }

    /** A red node without children below `n`. */
    method Blank(n: Node?, ghost s: set<Node>)
      requires this in s
      modifies this
      ensures Mem(s) == old(Mem(s))[this := Cell(null, null, n, true)]
    {
      parent, red := n, true;
      left, right := null, null;
    }

    method SetRed(r: bool, ghost s: set<Node>)
      requires this in s
      modifies this`red
      ensures Mem(s) == old(Mem(s))[this := old(Mem(s))[this].(red := r)]
    {
      red := r;
    }
  }

  /** The fields of the nodes in `s`. */
  ghost function Mem(s: set<Node>): map<Node, Cell>
    reads s
  {
    map n | n in s :: Cell(n.left, n.right, n.parent, n.red)
  }

  ghost function Nodes(t: Tree<Node>): set<Node> {
    match t
    case Leaf => {}
    case Branch(l, n, _, r) => Nodes(l) + {n} + Nodes(r)
  }

  ghost function CtxNodes(c: Ctx<Node>): set<Node> {
    match c
    case Top => {}
    case InLeft(up, n, _, r) => CtxNodes(up) + {n} + Nodes(r)
    case InRight(up, l, n, _) => CtxNodes(up) + {n} + Nodes(l)
  }

  /** The pointer to a tree. */
  ghost function Ref(t: Tree<Node>): Node? {
    if t.Leaf? then null else t.node
  }

  ghost function ParentRef(c: Ctx<Node>): Node? {
    if c.Top? then null else c.node
  }

  /** The root pointer when the hole of `c` holds `hole`. */
  ghost function RootRef(c: Ctx<Node>, hole: Node?): Node? {
    if c.Top? then hole else RootRef(c.up, c.node)
  }

  ghost function Sibling(c: Ctx<Node>): Tree<Node>
    requires !c.Top?
  {
    if c.InLeft? then c.right else c.left
  }

  ghost predicate Distinct(t: Tree<Node>) {
    t.Branch? ==>
      && t.node !in Nodes(t.left) && t.node !in Nodes(t.right) && Nodes(t.left) !! Nodes(t.right)
      && Distinct(t.left) && Distinct(t.right)
  }

  ghost predicate DistinctCtx(c: Ctx<Node>) {
    !c.Top? ==>
      && c.node !in Nodes(Sibling(c)) && c.node !in CtxNodes(c.up) && Nodes(Sibling(c)) !! CtxNodes(c.up)
      && Distinct(Sibling(c)) && DistinctCtx(c.up)
  }

  /** The memory below parent `p` is the tree `t`. */
  ghost predicate Linked(m: map<Node, Cell>, t: Tree<Node>, p: Node?) {
    t.Branch? ==>
      && t.node in m && m[t.node] == Cell(Ref(t.left), Ref(t.right), p, t.red)
      && Linked(m, t.left, t.node) && Linked(m, t.right, t.node)
  }

  /** The memory around the hole, which holds pointer `hole`, is the context `c`. */
  ghost predicate LinkedCtx(m: map<Node, Cell>, c: Ctx<Node>, hole: Node?) {
    !c.Top? ==>
      && c.node in m
      && m[c.node] == (if c.InLeft? then Cell(hole, Ref(c.right), ParentRef(c.up), c.red)
                       else Cell(Ref(c.left), hole, ParentRef(c.up), c.red))
      && Linked(m, Sibling(c), c.node) && LinkedCtx(m, c.up, c.node)
  }

  /** Root pointer and memory are `t` in context `c`. */
  ghost predicate At(root: Node?, m: map<Node, Cell>, c: Ctx<Node>, t: Tree<Node>) {
    && root == RootRef(c, Ref(t))
    && Linked(m, t, ParentRef(c)) && LinkedCtx(m, c, Ref(t))
    && Distinct(t) && DistinctCtx(c) && Nodes(t) !! CtxNodes(c)
  }

  ghost predicate Agree(m: map<Node, Cell>, m': map<Node, Cell>, s: set<Node>) {
    forall n :: n in s && n in m ==> n in m' && m'[n] == m[n]
  }

  lemma {:induction false} Frame(m: map<Node, Cell>, m': map<Node, Cell>, t: Tree<Node>, p: Node?)
    requires Linked(m, t, p) && Agree(m, m', Nodes(t))
    ensures Linked(m', t, p)
  {
    if t.Branch? {
      Frame(m, m', t.left, t.node);
      Frame(m, m', t.right, t.node);
    }
  }

  lemma {:induction false} FrameCtx(m: map<Node, Cell>, m': map<Node, Cell>, c: Ctx<Node>, hole: Node?)
    requires LinkedCtx(m, c, hole) && Agree(m, m', CtxNodes(c))
    ensures LinkedCtx(m', c, hole)
  {
    if !c.Top? {
      Frame(m, m', Sibling(c), c.node);
      FrameCtx(m, m', c.up, c.node);
    }
  }

  /** Only the parent pointer of the subtree's root changes. */
  lemma FrameReparent(m: map<Node, Cell>, m': map<Node, Cell>, t: Tree<Node>, p: Node?, p': Node?)
    requires Linked(m, t, p) && Distinct(t)
    requires Agree(m, m', Nodes(t) - {Ref(t)})
    requires t.Branch? ==> t.node in m' && m'[t.node] == m[t.node].(parent := p')
    ensures Linked(m', t, p')
  {
    if t.Branch? {
      Frame(m, m', t.left, t.node);
      Frame(m, m', t.right, t.node);
    }
  }

  /** The cell of the frame around the hole, once the hole holds `hole`. */
  ghost function HoleCell(c: Ctx<Node>, cell: Cell, hole: Node?): Cell {
    if c.InLeft? then cell.(left := hole) else cell.(right := hole)
  }

  /** Only the pointer in the hole changes. */
  lemma FrameHole(m: map<Node, Cell>, m': map<Node, Cell>, c: Ctx<Node>, hole: Node?, hole': Node?)
    requires LinkedCtx(m, c, hole) && DistinctCtx(c)
    requires Agree(m, m', CtxNodes(c) - {ParentRef(c)})
    requires !c.Top? ==> c.node in m' && m'[c.node] == HoleCell(c, m[c.node], hole')
    ensures LinkedCtx(m', c, hole')
  {
    if !c.Top? {
      Frame(m, m', Sibling(c), c.node);
      FrameCtx(m, m', c.up, c.node);
    }
  }

  // ----- rotations -----

  ghost function RotatedLeft(t: Tree<Node>): Tree<Node>
    requires t.Branch? && t.right.Branch?
  {
    Branch(Branch(t.left, t.node, t.red, t.right.left), t.right.node, t.right.red, t.right.right)
  }

  ghost function RotatedRight(t: Tree<Node>): Tree<Node>
    requires t.Branch? && t.left.Branch?
  {
    Branch(t.left.left, t.left.node, t.left.red, Branch(t.left.right, t.node, t.red, t.right))
  }

  lemma RotatedLeftDistinct(t: Tree<Node>)
    requires t.Branch? && t.right.Branch?
    ensures Nodes(RotatedLeft(t)) == Nodes(t) && (Distinct(t) <==> Distinct(RotatedLeft(t)))
  {
    var x, y := t, t.right;
    var x' := RotatedLeft(t).left;
    assert Nodes(y) == Nodes(y.left) + {y.node} + Nodes(y.right);
    assert Nodes(x') == Nodes(x.left) + {x.node} + Nodes(y.left);
    assert Nodes(t) == Nodes(x.left) + {x.node} + Nodes(y.left) + {y.node} + Nodes(y.right);
  }

  lemma RotatedRightDistinct(t: Tree<Node>)
    requires t.Branch? && t.left.Branch?
    ensures Nodes(RotatedRight(t)) == Nodes(t) && (Distinct(t) <==> Distinct(RotatedRight(t)))
  {
    RotatedLeftDistinct(RotatedRight(t));
  }

  /** A rotation turns `top` into the child of `pivot`, with `between` changing sides. */
  ghost predicate RotationOf(m: map<Node, Cell>, m': map<Node, Cell>, c: Ctx<Node>,
                             top: Node, pivot: Node, between: Tree<Node>, left: bool)
  {
    && m'.Keys == m.Keys && top in m && pivot in m
    && m'[top] == (if left then m[top].(right := Ref(between), parent := pivot)
                   else m[top].(left := Ref(between), parent := pivot))
    && m'[pivot] == (if left then m[pivot].(left := top, parent := ParentRef(c))
                     else m[pivot].(right := top, parent := ParentRef(c)))
    && (between.Branch? ==> between.node in m && m'[between.node] == m[between.node].(parent := top))
    && (!c.Top? ==> c.node in m && m'[c.node] == HoleCell(c, m[c.node], pivot))
    && Agree(m, m', m.Keys - {top, pivot, Ref(between), ParentRef(c)})
  }

  lemma RotateLeftLinked(m: map<Node, Cell>, m': map<Node, Cell>, c: Ctx<Node>, t: Tree<Node>)
    requires t.Branch? && t.right.Branch? && Linked(m, t, ParentRef(c)) && Distinct(t)
    requires Nodes(t) !! CtxNodes(c)
    requires RotationOf(m, m', c, t.node, t.right.node, t.right.left, true)
    ensures Linked(m', RotatedLeft(t), ParentRef(c))
  {
    var x, y := t.node, t.right;
    assert Linked(m, y, x) && Distinct(y);
    assert Nodes(y) == Nodes(y.left) + {y.node} + Nodes(y.right);
    assert Nodes(t) == Nodes(t.left) + {x} + Nodes(y);
    Frame(m, m', t.left, x);
    Frame(m, m', y.right, y.node);
    FrameReparent(m, m', y.left, y.node, x);
    assert Linked(m', RotatedLeft(t).left, y.node);
  }

  lemma RotateRightLinked(m: map<Node, Cell>, m': map<Node, Cell>, c: Ctx<Node>, t: Tree<Node>)
    requires t.Branch? && t.left.Branch? && Linked(m, t, ParentRef(c)) && Distinct(t)
    requires Nodes(t) !! CtxNodes(c)
    requires RotationOf(m, m', c, t.node, t.left.node, t.left.right, false)
    ensures Linked(m', RotatedRight(t), ParentRef(c))
  {
    var x, y := t.node, t.left;
    assert Linked(m, y, x) && Distinct(y);
    assert Nodes(y) == Nodes(y.left) + {y.node} + Nodes(y.right);
    assert Nodes(t) == Nodes(y) + {x} + Nodes(t.right);
    Frame(m, m', t.right, x);
    Frame(m, m', y.left, y.node);
    FrameReparent(m, m', y.right, y.node, x);
    assert Linked(m', RotatedRight(t).right, y.node);
  }

  lemma RotationCtx(m: map<Node, Cell>, m': map<Node, Cell>, c: Ctx<Node>, t: Tree<Node>, pivot: Node,
          between: Tree<Node>, left: bool)
    requires t.Branch? && LinkedCtx(m, c, t.node) && DistinctCtx(c) && Nodes(t) !! CtxNodes(c)
    requires pivot in Nodes(t) && Nodes(between) <= Nodes(t)
    requires RotationOf(m, m', c, t.node, pivot, between, left)
    ensures LinkedCtx(m', c, pivot)
  {
    FrameHole(m, m', c, t.node, pivot);
  }

  /** rb_set_red, rb_set_black. */
  ghost function Painted(t: Tree<Node>, red: bool): Tree<Node> {
    if t.Branch? then t.(red := red) else t
  }

  lemma PaintedAt(root: Node?, m: map<Node, Cell>, m': map<Node, Cell>, c: Ctx<Node>, t: Tree<Node>, red: bool)
    requires t.Branch? && At(root, m, c, t) && m' == m[t.node := m[t.node].(red := red)]
    ensures At(root, m', c, Painted(t, red))
  {
    Frame(m, m', t.left, t.node);
    Frame(m, m', t.right, t.node);
    FrameCtx(m, m', c, t.node);
  }

  /** Memory after the pointer in the hole of `c` became `hole`. */
  ghost function HolePatched(m: map<Node, Cell>, c: Ctx<Node>, hole: Node?): map<Node, Cell>
    requires !c.Top? ==> c.node in m
  {
    if c.Top? then m else m[c.node := HoleCell(c, m[c.node], hole)]
  }

  ghost function Reparented(m: map<Node, Cell>, n: Node?, p: Node?): map<Node, Cell>
    requires n != null ==> n in m
  {
    if n == null then m else m[n := m[n].(parent := p)]
  }

  /** rb_set_parent, when there is a node to set it on. */
  method ReparentIf(n: Node?, p: Node?, ghost s: set<Node>)
    requires n != null ==> n in s
    modifies (if n == null then {} else {n})`parent
    ensures Mem(s) == Reparented(old(Mem(s)), n, p)
  {
    if n != null {
      n.SetParent(p, s);
    }
  }

  ghost function RotationMem(m: map<Node, Cell>, c: Ctx<Node>, top: Node, pivot: Node, between: Node?, left: bool)
    : map<Node, Cell>
    requires top in m && pivot in m && (between != null ==> between in m) && (!c.Top? ==> c.node in m)
  {
    var m1 := m[top := if left then m[top].(right := between) else m[top].(left := between)];
    var m2 := Reparented(m1, between, top);
    var m3 := m2[pivot := if left then m2[pivot].(left := top) else m2[pivot].(right := top)];
    var m4 := Reparented(m3, pivot, ParentRef(c));
    var m5 := HolePatched(m4, c, pivot);
    Reparented(m5, top, pivot)
  }

  /** What the pointer assignments of a rotation amount to. */
  lemma RotationEffect(m: map<Node, Cell>, c: Ctx<Node>, top: Node, pivot: Node, between: Tree<Node>, left: bool)
    requires top in m && pivot in m && (between.Branch? ==> between.node in m) && (!c.Top? ==> c.node in m)
    requires top != pivot && Ref(between) !in {top, pivot}
    requires !c.Top? ==> c.node !in {top, pivot, Ref(between)}
    ensures RotationOf(m, RotationMem(m, c, top, pivot, Ref(between), left), c, top, pivot, between, left)
  {
  }

  lemma RotationParties(root: Node?, m: map<Node, Cell>, c: Ctx<Node>, t: Tree<Node>, pivot: Node, between: Tree<Node>)
    requires At(root, m, c, t) && t.Branch?
    requires (t.right.Branch? && pivot == t.right.node && between == t.right.left) ||
             (t.left.Branch? && pivot == t.left.node && between == t.left.right)
    ensures t.node != pivot && Ref(between) !in {t.node, pivot}
    ensures pivot in Nodes(t) && Nodes(between) <= Nodes(t)
    ensures pivot in m && (between.Branch? ==> between.node in m)
    ensures !c.Top? ==> c.node !in {t.node, pivot, Ref(between)} && c.node in m
    ensures !c.Top? ==> Ref(Sibling(c)) != t.node
    ensures t.right.Branch? && pivot == t.right.node && between == t.right.left ==> m[pivot].left == Ref(between)
    ensures t.left.Branch? && pivot == t.left.node && between == t.left.right ==> m[pivot].right == Ref(between)
  {
    var y := if t.right.Branch? && pivot == t.right.node && between == t.right.left then t.right else t.left;
    assert Linked(m, y, t.node) && Distinct(y);
    assert Linked(m, between, pivot);
    assert between.Branch? ==> between.node in Nodes(between);
    assert pivot in Nodes(y);
    if !c.Top? && Sibling(c).Branch? {
      assert Sibling(c).node in CtxNodes(c);
    }
  }

  lemma RotateLeftAt(root: Node?, root': Node?, m: map<Node, Cell>, m': map<Node, Cell>, c: Ctx<Node>, t: Tree<Node>)
    requires At(root, m, c, t) && t.Branch? && t.right.Branch?
    requires t.right.node in m && (t.right.left.Branch? ==> t.right.left.node in m) && (!c.Top? ==> c.node in m)
    requires m' == RotationMem(m, c, t.node, t.right.node, Ref(t.right.left), true)
    requires root' == if c.Top? then t.right.node else root
    ensures At(root', m', c, RotatedLeft(t))
  {
    RotationParties(root, m, c, t, t.right.node, t.right.left);
    RotationEffect(m, c, t.node, t.right.node, t.right.left, true);
    RotateLeftLinked(m, m', c, t);
    RotationCtx(m, m', c, t, t.right.node, t.right.left, true);
    RotatedLeftDistinct(t);
  }

  lemma RotateRightAt(root: Node?, root': Node?, m: map<Node, Cell>, m': map<Node, Cell>, c: Ctx<Node>, t: Tree<Node>)
    requires At(root, m, c, t) && t.Branch? && t.left.Branch?
    requires t.left.node in m && (t.left.right.Branch? ==> t.left.right.node in m) && (!c.Top? ==> c.node in m)
    requires m' == RotationMem(m, c, t.node, t.left.node, Ref(t.left.right), false)
    requires root' == if c.Top? then t.left.node else root
    ensures At(root', m', c, RotatedRight(t))
  {
    RotationParties(root, m, c, t, t.left.node, t.left.right);
    RotationEffect(m, c, t.node, t.left.node, t.left.right, false);
    RotateRightLinked(m, m', c, t);
    RotationCtx(m, m', c, t, t.left.node, t.left.right, false);
    RotatedRightDistinct(t);
  }

  // ----- moving the focus -----

  lemma FocusUp(root: Node?, m: map<Node, Cell>, c: Ctx<Node>, t: Tree<Node>)
    requires At(root, m, c, t) && !c.Top?
    ensures At(root, m, c.up, Below(c, t))
    ensures Nodes(Below(c, t)) + CtxNodes(c.up) == Nodes(t) + CtxNodes(c)
  {
  }

  lemma FocusLeft(root: Node?, m: map<Node, Cell>, c: Ctx<Node>, t: Tree<Node>)
    requires At(root, m, c, t) && t.Branch?
    ensures At(root, m, InLeft(c, t.node, t.red, t.right), t.left)
    ensures Nodes(t.left) + CtxNodes(InLeft(c, t.node, t.red, t.right)) == Nodes(t) + CtxNodes(c)
  {
  }

  lemma FocusRight(root: Node?, m: map<Node, Cell>, c: Ctx<Node>, t: Tree<Node>)
    requires At(root, m, c, t) && t.Branch?
    ensures At(root, m, InRight(c, t.left, t.node, t.red), t.right)
    ensures Nodes(t.right) + CtxNodes(InRight(c, t.left, t.node, t.red)) == Nodes(t) + CtxNodes(c)
  {
  }

  /** The same heap, seen from the root and from the hole. */
  lemma {:induction false} AtPlug(root: Node?, m: map<Node, Cell>, c: Ctx<Node>, t: Tree<Node>)
    ensures At(root, m, Top, Plug(c, t)) <==> At(root, m, c, t)
    ensures Nodes(Plug(c, t)) == Nodes(t) + CtxNodes(c)
  {
    if !c.Top? {
      AtPlug(root, m, c.up, Below(c, t));
      AtBelow(root, m, c, t);
    }
  }

  lemma AtBelow(root: Node?, m: map<Node, Cell>, c: Ctx<Node>, t: Tree<Node>)
    requires !c.Top?
    ensures At(root, m, c.up, Below(c, t)) <==> At(root, m, c, t)
    ensures Nodes(Below(c, t)) + CtxNodes(c.up) == Nodes(t) + CtxNodes(c)
  {
  }

  ghost function Depth(c: Ctx<Node>): nat {
    if c.Top? then 0 else 1 + Depth(c.up)
  }

  /** Invariant of rb_insert_color: a red node, whose red parent (if any) is the only thing wrong. */
  ghost predicate NeedsInsertFix(c: Ctx<Node>, t: Tree<Node>) {
    IsRed(t) && (RedAbove(c) ==> Sound(t) && Fits(c, Height(t)))
  }

  lemma FlipKeepsShape(c: Ctx<Node>, t: Tree<Node>)
    requires NeedsInsertFix(c, t) && RedAbove(c) && IsRed(Sibling(c.up))
    ensures var p, u := Blacken(Below(c, t)), Blacken(Sibling(c.up));
            && NeedsInsertFix(c.up.up, if c.up.InLeft? then Branch(p, c.up.node, true, u) else Branch(u, c.up.node, true, p))
  {
    assert Fits(c.up, Height(t));
    SoundParts(Sibling(c.up));
    var p, u := Blacken(Below(c, t)), Blacken(Sibling(c.up));
    assert Sound(p) && Sound(u) && Height(p) == Height(u);
  }

  lemma {:induction false} PlugBranch(c: Ctx<Node>, t: Tree<Node>)
    requires t.Branch?
    ensures Plug(c, t).Branch?
  {
    if !c.Top? {
      PlugBranch(c.up, Below(c, t));
    }
  }

  lemma NodeFields(t: Tree<Node>, p: Node?, s: set<Node>)
    requires Linked(Mem(s), t, p) && Nodes(t) <= s
    ensures t.Branch? ==>
              t.node.left == Ref(t.left) && t.node.right == Ref(t.right) && t.node.parent == p && t.node.red == t.red
  {
    if t.Branch? {
      assert t.node in Nodes(t);
      assert Mem(s)[t.node] == Cell(t.node.left, t.node.right, t.node.parent, t.node.red);
    }
  }

  /** One turn of __rb_erase_color for a left child, in terms of what the whole loop computes. */
  lemma EraseStepLeft(c: Ctx<Node>, t: Tree<Node>)
    requires c.InLeft? && !IsRed(t) && NearlySound(t) && Fits(c, Height(t) + 1)
    ensures var up, parent, sib := c.up, c.node, Sibling(c);
            && sib.Branch?
            && (sib.red ==> sib.left.Branch? && !sib.left.red)
            && var c' := if sib.red then InLeft(up, sib.node, false, sib.right) else up;
            && var turn := if sib.red then TurnLeft(t, parent, true, sib.left) else TurnLeft(t, parent, c.red, sib);
            && (turn.Settled? ==> EraseFix(c, t) == Blacken(Plug(c', turn.tree)))
            && (turn.Up? ==>
                  && EraseFix(c', turn.tree) == EraseFix(c, t) && NearlySound(turn.tree)
                  && Fits(c', Height(turn.tree) + 1) && (IsRed(turn.tree) || Depth(c') < Depth(c)))
  {
    var parent, sib := c.node, Sibling(c);
    if sib.red {
      SoundParts(sib);
      TurnLeftSound(t, parent, true, sib.left);
    } else {
      TurnLeftSound(t, parent, c.red, sib);
    }
  }

  /** One turn of __rb_erase_color for a right child, in terms of what the whole loop computes. */
  lemma EraseStepRight(c: Ctx<Node>, t: Tree<Node>)
    requires c.InRight? && !IsRed(t) && NearlySound(t) && Fits(c, Height(t) + 1)
    ensures var up, parent, sib := c.up, c.node, Sibling(c);
            && sib.Branch?
            && (sib.red ==> sib.right.Branch? && !sib.right.red)
            && var c' := if sib.red then InRight(up, sib.left, sib.node, false) else up;
            && var turn := if sib.red then TurnRight(sib.right, parent, true, t) else TurnRight(sib, parent, c.red, t);
            && (turn.Settled? ==> EraseFix(c, t) == Blacken(Plug(c', turn.tree)))
            && (turn.Up? ==>
                  && EraseFix(c', turn.tree) == EraseFix(c, t) && NearlySound(turn.tree)
                  && Fits(c', Height(turn.tree) + 1) && (IsRed(turn.tree) || Depth(c') < Depth(c)))
  {
    var parent, sib := c.node, Sibling(c);
    if sib.red {
      SoundParts(sib);
      TurnRightSound(sib.right, parent, true, t);
    } else {
      TurnRightSound(sib, parent, c.red, t);
    }
  }

  ghost function Elements(xs: seq<Node>): set<Node> {
    set n | n in xs
  }

  lemma {:induction false} NodesOfOrder(t: Tree<Node>)
    ensures Nodes(t) == Elements(InOrder(t))
  {
    if t.Branch? {
      NodesOfOrder(t.left);
      NodesOfOrder(t.right);
    }
  }

  lemma SameOrderSameNodes(s: Tree<Node>, t: Tree<Node>)
    requires InOrder(s) == InOrder(t)
    ensures Nodes(s) == Nodes(t)
  {
    NodesOfOrder(s);
    NodesOfOrder(t);
  }

  lemma TurnLeftNodes(t: Tree<Node>, p: Node, red: bool, s: Tree<Node>)
    requires s.Branch?
    ensures Nodes(TurnLeft(t, p, red, s).tree) == Nodes(Branch(t, p, red, s))
    ensures TurnLeft(t, p, red, s).tree.Branch?
    ensures TurnLeft(t, p, red, s).Up? ==> TurnLeft(t, p, red, s).tree.node == p
  {
    TurnLeftOrder(t, p, red, s);
    SameOrderSameNodes(TurnLeft(t, p, red, s).tree, Branch(t, p, red, s));
  }

  lemma TurnRightNodes(s: Tree<Node>, p: Node, red: bool, t: Tree<Node>)
    requires s.Branch?
    ensures Nodes(TurnRight(s, p, red, t).tree) == Nodes(Branch(s, p, red, t))
    ensures TurnRight(s, p, red, t).tree.Branch?
    ensures TurnRight(s, p, red, t).Up? ==> TurnRight(s, p, red, t).tree.node == p
  {
    TurnRightOrder(s, p, red, t);
    SameOrderSameNodes(TurnRight(s, p, red, t).tree, Branch(s, p, red, t));
  }

  lemma {:induction false} RootInCtx(c: Ctx<Node>, hole: Node?)
    requires !c.Top?
    ensures RootRef(c, hole) != null && RootRef(c, hole) in CtxNodes(c)
  {
    if !c.up.Top? {
      RootInCtx(c.up, c.node);
    }
  }

  lemma AtAgree(root: Node?, m: map<Node, Cell>, m': map<Node, Cell>, c: Ctx<Node>, t: Tree<Node>)
    requires At(root, m, c, t) && Agree(m, m', Nodes(t) + CtxNodes(c))
    ensures At(root, m', c, t)
  {
    Frame(m, m', t, ParentRef(c));
    FrameCtx(m, m', c, Ref(t));
  }

  /** What is left of `xs` when every `x` is taken out. */
  function Without<T(==)>(xs: seq<T>, x: T): seq<T> {
    if xs == [] then [] else (if xs[0] == x then [] else [xs[0]]) + Without(xs[1..], x)
  }

  lemma {:induction false} WithoutAppend<T>(xs: seq<T>, ys: seq<T>, x: T)
    ensures Without(xs + ys, x) == Without(xs, x) + Without(ys, x)
  {
    if xs == [] {
      assert xs + ys == ys;
    } else {
      assert (xs + ys)[1..] == xs[1..] + ys;
      WithoutAppend(xs[1..], ys, x);
    }
  }

  lemma {:induction false} WithoutAbsent<T>(xs: seq<T>, x: T)
    requires x !in xs
    ensures Without(xs, x) == xs
  {
    if xs != [] {
      WithoutAbsent(xs[1..], x);
    }
  }

  lemma WithoutOne<T>(x: T)
    ensures Without([x], x) == []
  {
    assert [x][1..] == [];
  }

  lemma WithoutMiddle<T>(a: seq<T>, x: T, b: seq<T>)
    requires x !in a && x !in b
    ensures Without(a + [x] + b, x) == a + b
  {
    hide Without;
    WithoutAppend(a + [x], b, x);
    WithoutAppend(a, [x], x);
    WithoutOne(x);
    WithoutAbsent(a, x);
    WithoutAbsent(b, x);
    assert a + [] == a;
  }

  /** Inserting and rebalancing, as trees. */
  lemma InsertedTree(c: Ctx<Node>, x: Node)
    requires RedBlack(Plug(c, Leaf))
    ensures NeedsInsertFix(c, Branch(Leaf, x, true, Leaf))
    ensures var t := Blacken(InsertFix(c, Branch(Leaf, x, true, Leaf)));
            && RedBlack(t) && InOrder(t) == Before(c) + [x] + Behind(c) && Nodes(t) == CtxNodes(c) + {x}
    ensures InOrder(Plug(c, Leaf)) == Before(c) + Behind(c)
  {
    var t := Branch(Leaf, x, true, Leaf);
    PlugRedBlack(c, Leaf);
    PlugOrder(c, Leaf);
    InsertFixRedBlack(c, t);
    InsertFixOrder(c, t);
    InsertedOrder(c, x, Blacken(InsertFix(c, t)));
  }

  lemma EmptyHole(c: Ctx<Node>, x: Node)
    ensures Nodes(Plug(c, Leaf)) == CtxNodes(c) == Nodes(Leaf) + CtxNodes(c)
    ensures Nodes(Branch(Leaf, x, true, Leaf)) == {x}
  {
    PlugNodes(c, Leaf);
  }

  lemma MemAgree(s: set<Node>, s': set<Node>)
    requires s <= s'
    ensures Agree(Mem(s), Mem(s'), s)
  {
  }

  lemma InsertedOrder(c: Ctx<Node>, x: Node, t': Tree<Node>)
    requires InOrder(t') == InOrder(Plug(c, Branch(Leaf, x, true, Leaf)))
    ensures InOrder(t') == Before(c) + [x] + Behind(c) && Nodes(t') == CtxNodes(c) + {x}
  {
    var t := Branch(Leaf, x, true, Leaf);
    PlugOrder(c, t);
    SameOrderSameNodes(t', Plug(c, t));
    PlugNodes(c, t);
  }

  lemma {:induction false} PlugNodes(c: Ctx<Node>, t: Tree<Node>)
    ensures Nodes(Plug(c, t)) == Nodes(t) + CtxNodes(c)
  {
    if !c.Top? {
      PlugNodes(c.up, Below(c, t));
    }
  }

  // ----- removal, as trees -----

  ghost predicate LeftSpine(i: Ctx<Node>) {
    !i.Top? ==> i.InLeft? && LeftSpine(i.up)
  }

  lemma {:induction false} LeftSpineBefore(i: Ctx<Node>)
    requires LeftSpine(i)
    ensures Before(i) == []
  {
    if !i.Top? {
      LeftSpineBefore(i.up);
    }
  }

  /** The node in one frame of a context does not matter for what fits into the hole. */
  lemma {:induction false} FitsRelabel(i: Ctx<Node>, c: Ctx<Node>, l: Tree<Node>, x: Node, y: Node, red: bool, h: nat)
    ensures Fits(Compose(i, InRight(c, l, x, red)), h) <==> Fits(Compose(i, InRight(c, l, y, red)), h)
    ensures RedAbove(Compose(i, InRight(c, l, x, red))) <==> RedAbove(Compose(i, InRight(c, l, y, red)))
    ensures !Compose(i, InRight(c, l, x, red)).Top? && !Compose(i, InRight(c, l, y, red)).Top?
  {
    if !i.Top? {
      FitsRelabel(i.up, c, l, x, y, red, if i.red then h else h + 1);
    }
  }

  lemma {:induction false} AtCompose(root: Node?, m: map<Node, Cell>, i: Ctx<Node>, o: Ctx<Node>, t: Tree<Node>)
    ensures At(root, m, Compose(i, o), t) <==> At(root, m, o, Plug(i, t))
    ensures Nodes(t) + CtxNodes(Compose(i, o)) == Nodes(Plug(i, t)) + CtxNodes(o)
  {
    if !i.Top? {
      AtBelow(root, m, Compose(i, o), t);
      AtCompose(root, m, i.up, o, Below(i, t));
    }
  }

  /** Frames inside a composed context are different nodes from the frame it was composed with. */
  lemma {:induction false} InnerNodeNotOuter(i: Ctx<Node>, o: Ctx<Node>)
    requires !o.Top?
    ensures o.node in CtxNodes(Compose(i, o))
  {
    if !i.Top? {
      InnerNodeNotOuter(i.up, o);
    }
  }

  lemma MinParent(i: Ctx<Node>, c: Ctx<Node>, l: Tree<Node>, x: Node, red: bool)
    requires LeftSpine(i)
    ensures var w := Compose(i, InRight(c, l, x, red));
            !w.Top? && w.node == (if i.Top? then x else i.node) && (w.InLeft? <==> !i.Top?)
  {
  }

  /** The subtree's only child takes its place. */
  lemma SplicedAt(root: Node?, root': Node?, m: map<Node, Cell>, m': map<Node, Cell>, c: Ctx<Node>, t: Tree<Node>,
          child: Tree<Node>)
    requires At(root, m, c, t) && t.Branch?
    requires (t.left.Leaf? && child == t.right) || (t.right.Leaf? && child == t.left)
    requires (child.Branch? ==> child.node in m) && (!c.Top? ==> c.node in m)
    requires m' == HolePatched(Reparented(m, Ref(child), ParentRef(c)), c, Ref(child))
    requires root' == if c.Top? then Ref(child) else root
    ensures At(root', m', c, child) && Nodes(child) <= Nodes(t) && t.node !in Nodes(child) + CtxNodes(c)
  {
    assert Linked(m, child, t.node) && Distinct(child);
    assert child.Branch? ==> child.node in Nodes(child);
    FrameReparent(m, m', child, t.node, ParentRef(c));
    FrameHole(m, m', c, t.node, Ref(child));
  }

  /** Memory after `y` took over the links and colour of `x`. */
  ghost function PlaceMem(m: map<Node, Cell>, c: Ctx<Node>, x: Node, y: Node, l: Node?, r: Node?): map<Node, Cell>
    requires x in m && y in m && (l != null ==> l in m) && (r != null ==> r in m) && (!c.Top? ==> c.node in m)
  {
    Reparented(Reparented(HolePatched(m[y := m[x]], c, y), l, y), r, y)
  }

  lemma PlacedAt(root: Node?, root': Node?, m: map<Node, Cell>, m': map<Node, Cell>, c: Ctx<Node>, t: Tree<Node>,
          y: Node)
    requires At(root, m, c, t) && t.Branch? && y !in Nodes(t) + CtxNodes(c)
    requires t.node in m && y in m && (!c.Top? ==> c.node in m)
    requires (t.left.Branch? ==> t.left.node in m) && (t.right.Branch? ==> t.right.node in m)
    requires m' == PlaceMem(m, c, t.node, y, Ref(t.left), Ref(t.right))
    requires root' == if c.Top? then y else root
    ensures At(root', m', c, t.(node := y))
  {
    hide Linked, LinkedCtx;
    assert t.left.Branch? ==> t.left.node in Nodes(t.left);
    assert t.right.Branch? ==> t.right.node in Nodes(t.right);
    PlacedCells(m, m', c, t, y);
    PlacedSubtrees(m, m', c, t, y);
    PlacedHole(m, m', c, t, y);
  }

  /** What the placing leaves where. */
  lemma PlacedCells(m: map<Node, Cell>, m': map<Node, Cell>, c: Ctx<Node>, t: Tree<Node>, y: Node)
    requires t.Branch? && Distinct(t) && DistinctCtx(c) && Nodes(t) !! CtxNodes(c) && y !in Nodes(t) + CtxNodes(c)
    requires t.node in m && y in m && (!c.Top? ==> c.node in m)
    requires (t.left.Branch? ==> t.left.node in m) && (t.right.Branch? ==> t.right.node in m)
    requires m' == PlaceMem(m, c, t.node, y, Ref(t.left), Ref(t.right))
    ensures y in m' && m'[y] == m[t.node]
    ensures t.left.Branch? ==> t.left.node in m' && m'[t.left.node] == m[t.left.node].(parent := y)
    ensures t.right.Branch? ==> t.right.node in m' && m'[t.right.node] == m[t.right.node].(parent := y)
    ensures !c.Top? ==> c.node in m' && m'[c.node] == HoleCell(c, m[c.node], y)
    ensures forall n :: n in m && n != y && n != Ref(t.left) && n != Ref(t.right) && n != ParentRef(c) ==> n in m' && m'[n] == m[n]
  {
    assert t.left.Branch? ==> t.left.node in Nodes(t.left);
    assert t.right.Branch? ==> t.right.node in Nodes(t.right);
  }

  lemma PlacedSubtrees(m: map<Node, Cell>, m': map<Node, Cell>, c: Ctx<Node>, t: Tree<Node>, y: Node)
    requires t.Branch? && Linked(m, t, ParentRef(c)) && Distinct(t) && Nodes(t) !! CtxNodes(c) && y !in Nodes(t)
    requires t.node in m && y in m' && m'[y] == m[t.node]
    requires (t.left.Branch? ==> t.left.node in m) && (t.right.Branch? ==> t.right.node in m)
    requires t.left.Branch? ==> t.left.node in m' && m'[t.left.node] == m[t.left.node].(parent := y)
    requires t.right.Branch? ==> t.right.node in m' && m'[t.right.node] == m[t.right.node].(parent := y)
    requires forall n :: n in m && n != y && n != Ref(t.left) && n != Ref(t.right) && n != ParentRef(c) ==> n in m' && m'[n] == m[n]
    ensures Linked(m', t.(node := y), ParentRef(c))
  {
    FrameReparent(m, m', t.left, t.node, y);
    FrameReparent(m, m', t.right, t.node, y);
  }

  lemma PlacedHole(m: map<Node, Cell>, m': map<Node, Cell>, c: Ctx<Node>, t: Tree<Node>, y: Node)
    requires t.Branch? && LinkedCtx(m, c, t.node) && DistinctCtx(c) && Nodes(t) !! CtxNodes(c) && y !in CtxNodes(c)
    requires !c.Top? ==> c.node in m && c.node in m' && m'[c.node] == HoleCell(c, m[c.node], y)
    requires forall n :: n in m && n != y && n != Ref(t.left) && n != Ref(t.right) && n != ParentRef(c) ==> n in m' && m'[n] == m[n]
    ensures LinkedCtx(m', c, y)
  {
    assert t.left.Branch? ==> t.left.node in Nodes(t.left);
    assert t.right.Branch? ==> t.right.node in Nodes(t.right);
    FrameHole(m, m', c, t.node, y);
  }

  // What rb_erase leaves: removal at a position with at most one child below it.

  ghost function Erased(c: Ctx<Node>, red: bool, child: Tree<Node>): Tree<Node> {
    if red then Plug(c, child) else EraseFix(c, child)
  }

  lemma ErasedOrder(c: Ctx<Node>, red: bool, child: Tree<Node>)
    ensures InOrder(Erased(c, red, child)) == Before(c) + InOrder(child) + Behind(c)
  {
    EraseFixOrder(c, child);
    PlugOrder(c, child);
  }

  lemma ErasedRedBlack(c: Ctx<Node>, t: Tree<Node>, child: Tree<Node>)
    requires RedBlack(Plug(c, t)) && t.Branch?
    requires (t.left.Leaf? && child == t.right) || (t.right.Leaf? && child == t.left)
    ensures RedBlack(Erased(c, t.red, child))
    ensures !t.red ==> NearlySound(child) && Fits(c, Height(child) + 1)
  {
    PlugRedBlack(c, t);
    SoundParts(t);
    if t.red {
      PlugRedBlack(c, child);
    } else {
      EraseFixRedBlack(c, child);
    }
  }

  lemma HangsAlike(c: Ctx<Node>, c': Ctx<Node>, t: Tree<Node>)
    requires !c.Top? && !c'.Top? && (RedAbove(c) <==> RedAbove(c'))
    ensures Hangs(c, t) <==> Hangs(c', t)
  {
  }

  /** The same, the context naming `y` where the tree had `x`. */
  lemma MinFits(i: Ctx<Node>, c: Ctx<Node>, z: Tree<Node>, t: Tree<Node>, y: Node)
    requires RedBlack(Plug(c, z)) && z.Branch? && z.right == Plug(i, t)
    ensures RedBlack(Plug(Compose(i, InRight(c, z.left, y, z.red)), t))
  {
    var o, o' := InRight(c, z.left, z.node, z.red), InRight(c, z.left, y, z.red);
    PlugCompose(i, o, t);
    assert Plug(o, z.right) == Plug(c, z);
    PlugRedBlack(Compose(i, o), t);
    FitsRelabel(i, c, z.left, z.node, y, z.red, Height(t));
    HangsAlike(Compose(i, o), Compose(i, o'), t);
    PlugRedBlack(Compose(i, o'), t);
  }

  lemma {:induction false} BeforeCompose(i: Ctx<Node>, o: Ctx<Node>)
    ensures Before(Compose(i, o)) == Before(o) + Before(i)
    ensures Behind(Compose(i, o)) == Behind(i) + Behind(o)
  {
    if !i.Top? {
      BeforeCompose(i.up, o);
    }
  }

  /** The order, around the node in focus. */
  lemma OrderAround(c: Ctx<Node>, z: Tree<Node>)
    requires z.Branch?
    ensures InOrder(Plug(c, z)) ==
            (Before(c) + InOrder(z.left)) + [z.node] + (InOrder(z.right) + Behind(c))
  {
    PlugOrder(c, z);
    Around(Before(c), InOrder(z.left), z.node, InOrder(z.right), Behind(c));
  }

  lemma Around(a: seq<Node>, l: seq<Node>, x: Node, r: seq<Node>, b: seq<Node>)
    ensures a + (l + [x] + r) + b == (a + l) + [x] + (r + b)
  {
  }

  lemma MinFirst(i: Ctx<Node>, t: Tree<Node>)
    requires LeftSpine(i) && t.Branch? && t.left.Leaf?
    ensures InOrder(Plug(i, t)) == [t.node] + (InOrder(t.right) + Behind(i))
  {
    PlugOrder(i, t);
    LeftSpineBefore(i);
  }

  /** A node without a left, or without a right, child disappears from the order when the other child takes its place. */
  lemma ErasedShallowOrder(c: Ctx<Node>, z: Tree<Node>, child: Tree<Node>)
    requires z.Branch?
    requires (z.left.Leaf? && child == z.right) || (z.right.Leaf? && child == z.left)
    ensures Before(c) + InOrder(child) + Behind(c) ==
            (Before(c) + InOrder(z.left)) + (InOrder(z.right) + Behind(c))
  {
  }

  /** The final tree of rb_erase, given its order. */
  lemma ErasedTree(old': Tree<Node>, c: Ctx<Node>, z: Tree<Node>, w: Ctx<Node>, t: Tree<Node>, child: Tree<Node>)
    requires old' == Plug(c, z) && z.Branch? && Distinct(old')
    requires t.Branch? && RedBlack(Plug(w, t))
    requires (t.left.Leaf? && child == t.right) || (t.right.Leaf? && child == t.left)
    requires Before(w) + InOrder(child) + Behind(w) == (Before(c) + InOrder(z.left)) + (InOrder(z.right) + Behind(c))
    ensures var t' := Erased(w, t.red, child);
            && RedBlack(t') && InOrder(t') == Without(InOrder(old'), z.node)
            && Nodes(t') == Nodes(old') - {z.node}
  {
    hide RedBlack, InOrder, Without, Elements, Erased, Plug, Nodes, Distinct, Before, Behind;
    var t' := Erased(w, t.red, child);
    var a, b := Before(c) + InOrder(z.left), InOrder(z.right) + Behind(c);
    ErasedRedBlack(w, t, child);
    ErasedOrder(w, t.red, child);
    OrderAround(c, z);
    DistinctOrder(old', a, z.node, b);
    WithoutMiddle(a, z.node, b);
    NodesOfOrder(t');
    NodesOfOrder(old');
    ElementsWithout(a, z.node, b);
  }

  lemma ElementsWithout(a: seq<Node>, x: Node, b: seq<Node>)
    requires x !in a && x !in b
    ensures Elements(a + b) == Elements(a + [x] + b) - {x}
  {
  }

  lemma BehindMin(i: Ctx<Node>, c: Ctx<Node>, l: Tree<Node>, y: Node, red: bool)
    requires LeftSpine(i)
    ensures var w := Compose(i, InRight(c, l, y, red));
            Before(w) == (Before(c) + InOrder(l)) + [y] && Behind(w) == Behind(i) + Behind(c)
  {
    BeforeCompose(i, InRight(c, l, y, red));
    LeftSpineBefore(i);
  }

  /** Removing the successor of `x` from its place and renaming `x` to it removes `x` from the order. */
  lemma ErasedMinOrder(i: Ctx<Node>, c: Ctx<Node>, z: Tree<Node>, t: Tree<Node>)
    requires z.Branch? && z.right == Plug(i, t) && LeftSpine(i) && t.Branch? && t.left.Leaf?
    ensures var w := Compose(i, InRight(c, z.left, t.node, z.red));
            Before(w) + InOrder(t.right) + Behind(w) == (Before(c) + InOrder(z.left)) + (InOrder(z.right) + Behind(c))
  {
    MinFirst(i, t);
    BehindMin(i, c, z.left, t.node, z.red);
    Regroup(Before(c) + InOrder(z.left), t.node, InOrder(t.right), Behind(i), Behind(c));
  }

  lemma Regroup(a: seq<Node>, y: Node, r: seq<Node>, u: seq<Node>, v: seq<Node>)
    ensures (a + [y]) + r + (u + v) == a + (([y] + (r + u)) + v)
  {
  }

  lemma {:induction false} DistinctOrder(t: Tree<Node>, a: seq<Node>, x: Node, b: seq<Node>)
    requires Distinct(t) && InOrder(t) == a + [x] + b
    ensures x !in a && x !in b
  {
    NodesOfOrder(t);
    DistinctNoDups(t);
    assert forall k :: 0 <= k < |a| ==> InOrder(t)[k] == a[k];
    assert forall k :: 0 <= k < |b| ==> InOrder(t)[|a| + 1 + k] == b[k];
    assert InOrder(t)[|a|] == x;
  }

  lemma {:induction false} DistinctNoDups(t: Tree<Node>)
    requires Distinct(t)
    ensures forall j, k :: 0 <= j < k < |InOrder(t)| ==> InOrder(t)[j] != InOrder(t)[k]
  {
    if t.Branch? {
      DistinctNoDups(t.left);
      DistinctNoDups(t.right);
      NodesOfOrder(t.left);
      NodesOfOrder(t.right);
      var l, r := InOrder(t.left), InOrder(t.right);
      assert InOrder(t) == l + [t.node] + r;
      assert forall k :: 0 <= k < |l| ==> l[k] in Elements(l);
      assert forall k :: 0 <= k < |r| ==> r[k] in Elements(r);
    }
  }
}
