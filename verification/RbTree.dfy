/**
 Red-black trees as values: contexts (the path from a position up to the root), what the
 rebalancing loops compute, and why the result is again a red-black tree with the same order.
 */
module RbTree {

  datatype Tree<N> = Leaf | Branch(left: Tree<N>, node: N, red: bool, right: Tree<N>)

  /** A tree with one subtree missing, seen from the hole: `up` leads to the root. */
  datatype Ctx<N> =
    | Top
    | InLeft(up: Ctx<N>, node: N, red: bool, right: Tree<N>)
    | InRight(up: Ctx<N>, left: Tree<N>, node: N, red: bool)

  ghost function Plug<N>(c: Ctx<N>, t: Tree<N>): Tree<N> {
    match c
    case Top => t
    case InLeft(up, n, red, r) => Plug(up, Branch(t, n, red, r))
    case InRight(up, l, n, red) => Plug(up, Branch(l, n, red, t))
  }

  /** `inner` placed inside `outer`. */
  ghost function Compose<N>(inner: Ctx<N>, outer: Ctx<N>): Ctx<N> {
    match inner
    case Top => outer
    case InLeft(up, n, red, r) => InLeft(Compose(up, outer), n, red, r)
    case InRight(up, l, n, red) => InRight(Compose(up, outer), l, n, red)
  }

  lemma {:induction false} PlugCompose<N>(inner: Ctx<N>, outer: Ctx<N>, t: Tree<N>)
    ensures Plug(Compose(inner, outer), t) == Plug(outer, Plug(inner, t))
  {
    match inner
    case Top =>
    case InLeft(up, n, red, r) => PlugCompose(up, outer, Branch(t, n, red, r));
    case InRight(up, l, n, red) => PlugCompose(up, outer, Branch(l, n, red, t));
  }

  // ----- order -----

  ghost function InOrder<N>(t: Tree<N>): seq<N> {
    match t
    case Leaf => []
    case Branch(l, n, _, r) => InOrder(l) + [n] + InOrder(r)
  }

  /** The nodes that come before, and after, the hole. */
  ghost function Before<N>(c: Ctx<N>): seq<N> {
    match c
    case Top => []
    case InLeft(up, _, _, _) => Before(up)
    case InRight(up, l, n, _) => Before(up) + InOrder(l) + [n]
  }

  ghost function Behind<N>(c: Ctx<N>): seq<N> {
    match c
    case Top => []
    case InLeft(up, n, _, r) => [n] + InOrder(r) + Behind(up)
    case InRight(up, _, _, _) => Behind(up)
  }

  lemma {:induction false} PlugOrder<N>(c: Ctx<N>, t: Tree<N>)
    ensures InOrder(Plug(c, t)) == Before(c) + InOrder(t) + Behind(c)
  {
    match c
    case Top =>
    case InLeft(up, n, red, r) =>
      PlugOrder(up, Branch(t, n, red, r));
      Regrouped(Before(up), InOrder(t), n, InOrder(r), Behind(up));
    case InRight(up, l, n, red) =>
      PlugOrder(up, Branch(l, n, red, t));
      Regrouped(Before(up), InOrder(l), n, InOrder(t), Behind(up));
  }

  lemma Regrouped<N>(a: seq<N>, b: seq<N>, n: N, c: seq<N>, d: seq<N>)
    ensures a + (b + [n] + c) + d == a + b + ([n] + c + d)
    ensures a + (b + [n] + c) + d == a + b + [n] + c + d
  {
  }

  /** Exchanging the subtree in the hole for one with the same order changes nothing outside. */
  lemma PlugSameOrder<N>(c: Ctx<N>, s: Tree<N>, t: Tree<N>)
    requires InOrder(s) == InOrder(t)
    ensures InOrder(Plug(c, s)) == InOrder(Plug(c, t))
  {
    PlugOrder(c, s);
    PlugOrder(c, t);
  }

  /** Both rotations keep the order. */
  lemma RotationOrder<N>(a: Tree<N>, x: N, rx: bool, b: Tree<N>, y: N, ry: bool, c: Tree<N>, rx': bool, ry': bool)
    ensures InOrder(Branch(a, x, rx, Branch(b, y, ry, c))) == InOrder(Branch(Branch(a, x, rx', b), y, ry', c))
  {
  }

  /** Every node of a tree can be brought into focus. */
  lemma {:induction false} Focus<N>(t: Tree<N>, x: N) returns (c: Ctx<N>, s: Tree<N>)
    requires x in InOrder(t)
    ensures Plug(c, s) == t && s.Branch? && s.node == x
  {
    if x == t.node {
      c, s := Top, t;
    } else if x in InOrder(t.left) {
      var inner, found := Focus(t.left, x);
      c, s := Compose(inner, InLeft(Top, t.node, t.red, t.right)), found;
      PlugCompose(inner, InLeft(Top, t.node, t.red, t.right), s);
    } else {
      var inner, found := Focus(t.right, x);
      c, s := Compose(inner, InRight(Top, t.left, t.node, t.red)), found;
      PlugCompose(inner, InRight(Top, t.left, t.node, t.red), s);
    }
  }

  // ----- red-black properties -----

  predicate IsRed<N>(t: Tree<N>) { t.Branch? && t.red }

  function Blacken<N>(t: Tree<N>): Tree<N> { if t.Branch? then t.(red := false) else t }

  function Redden<N>(t: Tree<N>): Tree<N> { if t.Branch? then t.(red := true) else t }

  /** Black nodes on the way down the left spine. */
  ghost function Height<N>(t: Tree<N>): nat {
    if t.Leaf? then 0 else Height(t.left) + (if t.red then 0 else 1)
  }

  ghost predicate Balanced<N>(t: Tree<N>) {
    t.Branch? ==> Height(t.left) == Height(t.right) && Balanced(t.left) && Balanced(t.right)
  }

  ghost predicate NoRedRed<N>(t: Tree<N>) {
    t.Branch? ==>
      (t.red ==> !IsRed(t.left) && !IsRed(t.right)) && NoRedRed(t.left) && NoRedRed(t.right)
  }

  ghost predicate Sound<N>(t: Tree<N>) { Balanced(t) && NoRedRed(t) }

  ghost predicate RedBlack<N>(t: Tree<N>) { Sound(t) && !IsRed(t) }

  ghost predicate RedAbove<N>(c: Ctx<N>) { !c.Top? && c.red }

  /** A context whose hole wants a subtree of black height `h`. */
  ghost predicate Fits<N>(c: Ctx<N>, h: nat) {
    match c
    case Top => true
    case InLeft(up, _, red, s) => FrameFits(up, red, s, h) && Fits(up, if red then h else h + 1)
    case InRight(up, s, _, red) => FrameFits(up, red, s, h) && Fits(up, if red then h else h + 1)
  }

  ghost predicate FrameFits<N>(up: Ctx<N>, red: bool, sibling: Tree<N>, h: nat) {
    && Sound(sibling) && Height(sibling) == h
    && (red ==> !IsRed(sibling) && !RedAbove(up) && !up.Top?)
  }

  /** May the root of `t` hang in the hole of `c` without two reds in a row? */
  ghost predicate Hangs<N>(c: Ctx<N>, t: Tree<N>) { IsRed(t) ==> !RedAbove(c) && !c.Top? }

  /** A tree is red-black exactly when, seen from any position, both parts are. */
  lemma {:induction false} PlugRedBlack<N>(c: Ctx<N>, t: Tree<N>)
    ensures RedBlack(Plug(c, t)) <==> Sound(t) && Hangs(c, t) && Fits(c, Height(t))
  {
    match c
    case Top =>
    case InLeft(up, n, red, r) => PlugRedBlack(up, Branch(t, n, red, r));
    case InRight(up, l, n, red) => PlugRedBlack(up, Branch(l, n, red, t));
  }

  // ----- insertion -----

  /** What the loop of rb_insert_color makes of red subtree `t` in context `c`, before the root is blackened. */
  ghost function InsertFix<N>(c: Ctx<N>, t: Tree<N>): Tree<N>
    decreases c
  {
    if !RedAbove(c) || c.up.Top? || t.Leaf? then Plug(c, t)
    else
      match c.up
      case InLeft(up, g, _, u) =>
        if IsRed(u) then InsertFix(up, Branch(Blacken(Below(c, t)), g, true, Blacken(u)))
        else if c.InLeft? then Plug(up, Branch(t, c.node, false, Branch(c.right, g, true, u)))
        else Plug(up, Branch(Branch(c.left, c.node, true, t.left), t.node, false, Branch(t.right, g, true, u)))
      case InRight(up, u, g, _) =>
        if IsRed(u) then InsertFix(up, Branch(Blacken(u), g, true, Blacken(Below(c, t))))
        else if c.InRight? then Plug(up, Branch(Branch(u, g, true, c.left), c.node, false, t))
        else Plug(up, Branch(Branch(u, g, true, t.left), t.node, false, Branch(t.right, c.node, true, c.right)))
  }

  /** The subtree rooted one level up. */
  ghost function Below<N>(c: Ctx<N>, t: Tree<N>): Tree<N>
    requires !c.Top?
  {
    if c.InLeft? then Branch(t, c.node, c.red, c.right) else Branch(c.left, c.node, c.red, t)
  }

  lemma {:induction false} InsertFixOrder<N>(c: Ctx<N>, t: Tree<N>)
    ensures InOrder(InsertFix(c, t)) == InOrder(Plug(c, t))
    decreases c
  {
    if !RedAbove(c) || c.up.Top? || t.Leaf? {
    } else {
      var p := Below(c, t);
      match c.up
      case InLeft(up, g, gr, u) =>
        if IsRed(u) {
          InsertFixOrder(up, Branch(Blacken(p), g, true, Blacken(u)));
          PlugSameOrder(up, Branch(Blacken(p), g, true, Blacken(u)), Branch(p, g, gr, u));
        } else if c.InLeft? {
          RotationOrder(t, c.node, false, c.right, g, true, u, true, gr);
          PlugSameOrder(up, Branch(t, c.node, false, Branch(c.right, g, true, u)), Branch(p, g, gr, u));
        } else {
          var l := Branch(c.left, c.node, true, t.left);
          RotationOrder(c.left, c.node, true, t.left, t.node, t.red, t.right, true, t.red);
          RotationOrder(l, t.node, false, t.right, g, true, u, true, gr);
          PlugSameOrder(up, Branch(l, t.node, false, Branch(t.right, g, true, u)), Branch(p, g, gr, u));
        }
      case InRight(up, u, g, gr) =>
        if IsRed(u) {
          InsertFixOrder(up, Branch(Blacken(u), g, true, Blacken(p)));
          PlugSameOrder(up, Branch(Blacken(u), g, true, Blacken(p)), Branch(u, g, gr, p));
        } else if c.InRight? {
          RotationOrder(u, g, gr, c.left, c.node, true, t, true, false);
          PlugSameOrder(up, Branch(Branch(u, g, true, c.left), c.node, false, t), Branch(u, g, gr, p));
        } else {
          var r := Branch(t.right, c.node, true, c.right);
          RotationOrder(t.left, t.node, t.red, t.right, c.node, true, c.right, t.red, true);
          RotationOrder(u, g, gr, t.left, t.node, false, r, true, false);
          PlugSameOrder(up, Branch(Branch(u, g, true, t.left), t.node, false, r), Branch(u, g, gr, p));
        }
    }
  }

  lemma {:induction false} InsertFixRedBlack<N>(c: Ctx<N>, t: Tree<N>)
    requires IsRed(t) && Sound(t) && Fits(c, Height(t))
    ensures RedBlack(Blacken(InsertFix(c, t)))
    decreases c
  {
    if !RedAbove(c) {
      if c.Top? {
      } else {
        PlugRedBlack(c, t);
      }
    } else {
      SoundParts(t);
      match c.up
      case InLeft(up, g, _, u) =>
        if IsRed(u) {
          SoundParts(u);
          InsertFixRedBlack(up, Branch(Blacken(Below(c, t)), g, true, Blacken(u)));
        } else if c.InLeft? {
          PlugSettled(up, t, c.node, Branch(c.right, g, true, u));
        } else {
          PlugSettled(up, Branch(c.left, c.node, true, t.left), t.node, Branch(t.right, g, true, u));
        }
      case InRight(up, u, g, _) =>
        if IsRed(u) {
          SoundParts(u);
          InsertFixRedBlack(up, Branch(Blacken(u), g, true, Blacken(Below(c, t))));
        } else if c.InRight? {
          PlugSettled(up, Branch(u, g, true, c.left), c.node, t);
        } else {
          PlugSettled(up, Branch(u, g, true, t.left), t.node, Branch(t.right, c.node, true, c.right));
        }
    }
  }

  /** A sound tree's subtrees are sound. */
  lemma SoundParts<N>(t: Tree<N>)
    requires Sound(t) && t.Branch?
    ensures Sound(t.left) && Sound(t.right) && Height(t.left) == Height(t.right)
    ensures t.red ==> !IsRed(t.left) && !IsRed(t.right)
  {
  }

  lemma PlugSettled<N>(c: Ctx<N>, l: Tree<N>, n: N, r: Tree<N>)
    requires Sound(l) && Sound(r) && Height(l) == Height(r) && Fits(c, Height(l) + 1)
    ensures RedBlack(Plug(c, Branch(l, n, false, r)))
  {
    PlugRedBlack(c, Branch(l, n, false, r));
  }

  // ----- removal -----

  /** One turn of __rb_erase_color with a black sibling: either the deficit moves up, or it is settled. */
  datatype Turn<N> = Up(tree: Tree<N>) | Settled(tree: Tree<N>)

  ghost function TurnLeft<N>(t: Tree<N>, p: N, red: bool, s: Tree<N>): Turn<N>
    requires s.Branch?
  {
    if !IsRed(s.left) && !IsRed(s.right) then Up(Branch(t, p, red, Redden(s)))
    else if !IsRed(s.right) then
      Settled(Branch(Branch(t, p, false, s.left.left), s.left.node, red, Branch(s.left.right, s.node, false, s.right)))
    else Settled(Branch(Branch(t, p, false, s.left), s.node, red, Blacken(s.right)))
  }

  ghost function TurnRight<N>(s: Tree<N>, p: N, red: bool, t: Tree<N>): Turn<N>
    requires s.Branch?
  {
    if !IsRed(s.left) && !IsRed(s.right) then Up(Branch(Redden(s), p, red, t))
    else if !IsRed(s.left) then
      Settled(Branch(Branch(s.left, s.node, false, s.right.left), s.right.node, red, Branch(s.right.right, p, false, t)))
    else Settled(Branch(Blacken(s.left), s.node, red, Branch(s.right, p, false, t)))
  }

  /** What __rb_erase_color makes of `t`, one black short, in context `c`. */
  ghost function EraseFix<N>(c: Ctx<N>, t: Tree<N>): Tree<N>
    decreases c
  {
    if IsRed(t) || c.Top? then Plug(c, Blacken(t))
    else
      match c
      case InLeft(up, p, red, s) =>
        if s.Leaf? || (s.red && s.left.Leaf?) then Plug(c, t)
        else if s.red then
          (match TurnLeft(t, p, true, s.left)
          case Up(b) => Plug(up, Branch(Blacken(b), s.node, false, s.right))
          case Settled(b) => Blacken(Plug(up, Branch(b, s.node, false, s.right))))
        else
          (match TurnLeft(t, p, red, s)
          case Up(b) => EraseFix(up, b)
          case Settled(b) => Blacken(Plug(up, b)))
      case InRight(up, s, p, red) =>
        if s.Leaf? || (s.red && s.right.Leaf?) then Plug(c, t)
        else if s.red then
          (match TurnRight(s.right, p, true, t)
          case Up(b) => Plug(up, Branch(s.left, s.node, false, Blacken(b)))
          case Settled(b) => Blacken(Plug(up, Branch(s.left, s.node, false, b))))
        else
          (match TurnRight(s, p, red, t)
          case Up(b) => EraseFix(up, b)
          case Settled(b) => Blacken(Plug(up, b)))
  }

  lemma {:induction false} EraseFixOrder<N>(c: Ctx<N>, t: Tree<N>)
    ensures InOrder(EraseFix(c, t)) == InOrder(Plug(c, t))
    decreases c
  {
    if IsRed(t) || c.Top? {
      PlugSameOrder(c, Blacken(t), t);
    } else {
      match c
      case InLeft(up, p, red, s) =>
        if s.Leaf? || (s.red && s.left.Leaf?) {
        } else if s.red {
          var b := TurnLeft(t, p, true, s.left).tree;
          TurnLeftOrder(t, p, true, s.left);
          RotationOrder(t, p, red, s.left, s.node, s.red, s.right, true, false);
          PlugSameOrder(up, Branch(Blacken(b), s.node, false, s.right), Branch(t, p, red, s));
          PlugSameOrder(up, Branch(b, s.node, false, s.right), Branch(t, p, red, s));
        } else {
          var b := TurnLeft(t, p, red, s).tree;
          TurnLeftOrder(t, p, red, s);
          EraseFixOrder(up, b);
          PlugSameOrder(up, b, Branch(t, p, red, s));
        }
      case InRight(up, s, p, red) =>
        if s.Leaf? || (s.red && s.right.Leaf?) {
        } else if s.red {
          var b := TurnRight(s.right, p, true, t).tree;
          TurnRightOrder(s.right, p, true, t);
          RotationOrder(s.left, s.node, false, s.right, p, true, t, s.red, red);
          PlugSameOrder(up, Branch(s.left, s.node, false, Blacken(b)), Branch(s, p, red, t));
          PlugSameOrder(up, Branch(s.left, s.node, false, b), Branch(s, p, red, t));
        } else {
          var b := TurnRight(s, p, red, t).tree;
          TurnRightOrder(s, p, red, t);
          EraseFixOrder(up, b);
          PlugSameOrder(up, b, Branch(s, p, red, t));
        }
    }
  }

  lemma TurnLeftOrder<N>(t: Tree<N>, p: N, red: bool, s: Tree<N>)
    requires s.Branch?
    ensures InOrder(TurnLeft(t, p, red, s).tree) == InOrder(Branch(t, p, red, s))
  {
    if !IsRed(s.left) && !IsRed(s.right) {
      assert InOrder(Redden(s)) == InOrder(s);
    } else if !IsRed(s.right) {
      var m := s.left;
      var s' := Branch(m.left, m.node, red, Branch(m.right, s.node, false, s.right));
      RotationOrder(m.left, m.node, red, m.right, s.node, false, s.right, m.red, s.red);
      assert InOrder(s') == InOrder(s);
      RotationOrder(t, p, red, m.left, m.node, red, s'.right, false, red);
    } else {
      assert InOrder(Blacken(s.right)) == InOrder(s.right);
      RotationOrder(t, p, red, s.left, s.node, s.red, Blacken(s.right), false, red);
    }
  }

  lemma TurnRightOrder<N>(s: Tree<N>, p: N, red: bool, t: Tree<N>)
    requires s.Branch?
    ensures InOrder(TurnRight(s, p, red, t).tree) == InOrder(Branch(s, p, red, t))
  {
    if !IsRed(s.left) && !IsRed(s.right) {
      assert InOrder(Redden(s)) == InOrder(s);
    } else if !IsRed(s.left) {
      var m := s.right;
      var s' := Branch(Branch(s.left, s.node, false, m.left), m.node, red, m.right);
      RotationOrder(s.left, s.node, s.red, m.left, m.node, m.red, m.right, false, red);
      assert InOrder(s') == InOrder(s);
      RotationOrder(s'.left, m.node, red, m.right, p, false, t, red, red);
    } else {
      assert InOrder(Blacken(s.left)) == InOrder(s.left);
      RotationOrder(Blacken(s.left), s.node, red, s.right, p, false, t, s.red, red);
    }
  }

  /** Sound once its root is black. */
  ghost predicate NearlySound<N>(t: Tree<N>) { Balanced(t) && Sound(Blacken(t)) }

  /** A turn keeps the colour of the subtree root; it either restores the missing black or passes the deficit up. */
  lemma TurnLeftSound<N>(t: Tree<N>, p: N, red: bool, s: Tree<N>)
    requires Sound(t) && !IsRed(t) && Sound(s) && s.Branch? && !s.red && Height(s) == Height(t) + 1
    ensures var turn := TurnLeft(t, p, red, s);
            && turn.tree.Branch? && turn.tree.red == red
            && (turn.Up? ==> NearlySound(turn.tree) && Height(turn.tree) == Height(t) + (if red then 0 else 1))
            && (turn.Settled? ==> Sound(turn.tree) && Height(turn.tree) == Height(t) + (if red then 1 else 2))
  {
    SoundParts(s);
    if IsRed(s.left) {
      SoundParts(s.left);
    }
    if IsRed(s.right) {
      SoundParts(s.right);
    }
  }

  lemma TurnRightSound<N>(s: Tree<N>, p: N, red: bool, t: Tree<N>)
    requires Sound(t) && !IsRed(t) && Sound(s) && s.Branch? && !s.red && Height(s) == Height(t) + 1
    ensures var turn := TurnRight(s, p, red, t);
            && turn.tree.Branch? && turn.tree.red == red
            && (turn.Up? ==> NearlySound(turn.tree) && Height(turn.tree) == Height(t) + (if red then 0 else 1))
            && (turn.Settled? ==> Sound(turn.tree) && Height(turn.tree) == Height(t) + (if red then 1 else 2))
  {
    SoundParts(s);
    if IsRed(s.left) {
      SoundParts(s.left);
    }
    if IsRed(s.right) {
      SoundParts(s.right);
    }
  }

  /** Below a red sibling one turn settles everything. */
  lemma EraseFixRedSibling<N>(c: Ctx<N>, t: Tree<N>)
    requires NearlySound(t) && !IsRed(t) && !c.Top? && Fits(c, Height(t) + 1)
    requires IsRed(if c.InLeft? then c.right else c.left)
    ensures RedBlack(EraseFix(c, t))
  {
    if c.InLeft? {
      SoundParts(c.right);
      TurnLeftSound(t, c.node, true, c.right.left);
      var turn := TurnLeft(t, c.node, true, c.right.left);
      PlugSettled(c.up, if turn.Up? then Blacken(turn.tree) else turn.tree, c.right.node, c.right.right);
    } else {
      SoundParts(c.left);
      TurnRightSound(c.left.right, c.node, true, t);
      var turn := TurnRight(c.left.right, c.node, true, t);
      PlugSettled(c.up, c.left.left, c.left.node, if turn.Up? then Blacken(turn.tree) else turn.tree);
    }
  }

  lemma {:induction false} EraseFixRedBlack<N>(c: Ctx<N>, t: Tree<N>)
    requires NearlySound(t) && Fits(c, Height(t) + 1)
    ensures RedBlack(EraseFix(c, t))
    decreases c
  {
    if IsRed(t) || c.Top? {
      PlugRedBlack(c, Blacken(t));
    } else if IsRed(if c.InLeft? then c.right else c.left) {
      EraseFixRedSibling(c, t);
    } else {
      var turn := if c.InLeft? then TurnLeft(t, c.node, c.red, c.right) else TurnRight(c.left, c.node, c.red, t);
      if c.InLeft? {
        TurnLeftSound(t, c.node, c.red, c.right);
      } else {
        TurnRightSound(c.left, c.node, c.red, t);
      }
      if turn.Up? {
        EraseFixRedBlack(c.up, turn.tree);
      } else {
        PlugRedBlack(c.up, turn.tree);
      }
    }
  }
}
