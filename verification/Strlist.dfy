/** dutil.c's strlist: a list in insertion order, with a red-black tree over the strings for lookup. */
module Strlist {
  import opened RbTree
  import opened RbMemory
  import opened RbHeap
  import opened Strings

  /** Strictly increasing in strcmp order. */
  ghost predicate Ascending(names: map<Node, string>, order: seq<Node>) {
    && (forall k :: 0 <= k < |order| ==> order[k] in names)
    && (forall j, k :: 0 <= j < k < |order| ==> Less(names[order[j]], names[order[k]]))
  }

  ghost predicate AllLess(names: map<Node, string>, xs: seq<Node>, s: string) {
    forall x :: x in xs ==> x in names && Less(names[x], s)
  }

  ghost predicate AllGreater(names: map<Node, string>, xs: seq<Node>, s: string) {
    forall x :: x in xs ==> x in names && Less(s, names[x])
  }

  function NamesOf(names: map<Node, string>, list: seq<Node>): (r: seq<string>)
    requires Named(names, list)
    ensures |r| == |list| && forall k :: 0 <= k < |list| ==> r[k] == names[list[k]]
  {
    seq(|list|, k requires 0 <= k < |list| => names[list[k]])
  }

  ghost predicate NoDups<T>(xs: seq<T>) {
    forall j, k :: 0 <= j < k < |xs| ==> xs[j] != xs[k]
  }

  lemma AscendingDistinct(names: map<Node, string>, order: seq<Node>, a: Node, b: Node)
    requires Ascending(names, order) && a in order && b in order && names[a] == names[b]
    ensures a == b
  {
    var j :| 0 <= j < |order| && order[j] == a;
    var k :| 0 <= k < |order| && order[k] == b;
    Trichotomy(names[a], names[b]);
  }

  /** A string that belongs between the two halves is not in either. */
  lemma InsertAscending(names: map<Node, string>, a: seq<Node>, x: Node, b: seq<Node>, s: string)
    requires Ascending(names, a + b) && x !in names && AllLess(names, a, s) && AllGreater(names, b, s)
    ensures Ascending(names[x := s], a + [x] + b)
  {
    var names', xs := names[x := s], a + [x] + b;
    forall j, k | 0 <= j < k < |xs| ensures Less(names'[xs[j]], names'[xs[k]]) {
      var j' := if j <= |a| then j else j - 1;
      var k' := if k <= |a| then k else k - 1;
      if j != |a| && k != |a| {
        assert xs[j] == (a + b)[j'] && xs[k] == (a + b)[k'];
      } else if k == |a| {
        assert xs[j] == a[j];
      } else {
        assert xs[k] == b[k - |a| - 1];
      }
    }
  }

  lemma {:induction false} WithoutMembers(xs: seq<Node>, x: Node)
    ensures forall y :: y in Without(xs, x) <==> y in xs && y != x
  {
    if xs != [] {
      WithoutMembers(xs[1..], x);
    }
  }

  /** Where the search for `s` stands: everything outside the focus is already on its side of `s`. */
  ghost predicate Searching(names: map<Node, string>, tree: Tree<Node>, c: Ctx<Node>, t: Tree<Node>, s: string) {
    Plug(c, t) == tree && AllLess(names, Before(c), s) && AllGreater(names, Behind(c), s)
  }

  lemma SearchLeft(names: map<Node, string>, tree: Tree<Node>, c: Ctx<Node>, t: Tree<Node>, s: string)
    requires Searching(names, tree, c, t, s) && Ascending(names, InOrder(tree))
    requires t.Branch? && t.node in names && Less(s, names[t.node])
    ensures Searching(names, tree, InLeft(c, t.node, t.red, t.right), t.left, s)
  {
    OrderAround(c, t);
    var a, b := Before(c) + InOrder(t.left), InOrder(t.right) + Behind(c);
    var order := InOrder(tree);
    forall x | x in [t.node] + InOrder(t.right) + Behind(c) ensures x in names && Less(s, names[x]) {
      if x in InOrder(t.right) {
        var j :| 0 <= j < |InOrder(t.right)| && InOrder(t.right)[j] == x;
        assert order[|a|] == t.node && order[|a| + 1 + j] == x;
        LessTransitive(s, names[t.node], names[x]);
      }
    }
  }

  lemma SearchRight(names: map<Node, string>, tree: Tree<Node>, c: Ctx<Node>, t: Tree<Node>, s: string)
    requires Searching(names, tree, c, t, s) && Ascending(names, InOrder(tree))
    requires t.Branch? && t.node in names && Less(names[t.node], s)
    ensures Searching(names, tree, InRight(c, t.left, t.node, t.red), t.right, s)
  {
    OrderAround(c, t);
    var a := Before(c) + InOrder(t.left);
    var order := InOrder(tree);
    forall x | x in Before(c) + InOrder(t.left) + [t.node] ensures x in names && Less(names[x], s) {
      if x in InOrder(t.left) {
        var j :| 0 <= j < |InOrder(t.left)| && InOrder(t.left)[j] == x;
        assert order[|a|] == t.node && order[|Before(c)| + j] == x;
        LessTransitive(names[x], names[t.node], s);
      }
    }
  }

  lemma InsertAscendingAt(names: map<Node, string>, tree: Tree<Node>, c: Ctx<Node>, x: Node, s: string)
    requires Searching(names, tree, c, Leaf, s) && Ascending(names, InOrder(tree)) && x !in names
    ensures Plug(c, Leaf) == tree && Ascending(names[x := s], Before(c) + [x] + Behind(c))
  {
    PlugOrder(c, Leaf);
    assert InOrder(tree) == Before(c) + Behind(c);
    InsertAscending(names, Before(c), x, Behind(c), s);
  }

  /** A search that runs out of tree has shown the string absent. */
  lemma SearchFailed(names: map<Node, string>, tree: Tree<Node>, c: Ctx<Node>, s: string, x: Node)
    requires Searching(names, tree, c, Leaf, s) && x in InOrder(tree)
    ensures x in names && names[x] != s
  {
    PlugOrder(c, Leaf);
    Trichotomy(names[x], s);
  }

  lemma AppendDistinct(list: seq<Node>, x: Node)
    requires NoDups(list) && x !in Elements(list)
    ensures NoDups(list + [x]) && Elements(list + [x]) == Elements(list) + {x}
  {
    forall j, k | 0 <= j < k < |list + [x]| ensures (list + [x])[j] != (list + [x])[k] {
      assert list[j] in Elements(list);
    }
  }

  /** In a sequence without repetitions `Without` cuts one position out. */
  lemma WithoutCuts<T>(xs: seq<T>, k: nat)
    requires NoDups(xs) && k < |xs|
    ensures Without(xs, xs[k]) == xs[..k] + xs[k + 1..]
  {
    assert xs == xs[..k] + [xs[k]] + xs[k + 1..];
    WithoutMiddle(xs[..k], xs[k], xs[k + 1..]);
  }

  lemma AscendingCut(names: map<Node, string>, order: seq<Node>, x: Node)
    requires Ascending(names, order) && x in order
    ensures Ascending(names - {x}, Without(order, x))
  {
    forall j, k | 0 <= j < k < |order| ensures order[j] != order[k] {
      Trichotomy(names[order[j]], names[order[k]]);
    }
    var k :| 0 <= k < |order| && order[k] == x;
    WithoutCuts(order, k);
    var xs := Without(order, x);
    forall j | 0 <= j < |xs| ensures xs[j] == order[if j < k then j else j + 1] && xs[j] != x {}
  }

  lemma MiddleIsUnique<T>(a: seq<T>, x: T, b: seq<T>)
    requires NoDups(a + [x] + b)
    ensures x !in a && x !in b && NoDups(a + b)
  {
    var xs := a + [x] + b;
    assert xs[|a|] == x;
    assert forall j :: 0 <= j < |a| ==> xs[j] == a[j];
    assert forall j :: 0 <= j < |b| ==> xs[|a| + 1 + j] == b[j];
    assert forall j :: 0 <= j < |a + b| ==> (a + b)[j] == xs[if j < |a| then j else j + 1];
  }

  lemma CutDistinct(list: seq<Node>, a: seq<Node>, x: Node, b: seq<Node>)
    requires NoDups(list) && list == a + [x] + b
    ensures Without(list, x) == a + b && NoDups(a + b) && Elements(a + b) == Elements(list) - {x}
  {
    MiddleIsUnique(a, x, b);
    WithoutMiddle(a, x, b);
    ElementsWithout(a, x, b);
  }

  ghost predicate Named(names: map<Node, string>, list: seq<Node>) {
    forall n :: n in list ==> n in names
  }

  lemma NamesAppend(names: map<Node, string>, a: seq<Node>, b: seq<Node>)
    requires Named(names, a) && Named(names, b)
    ensures Named(names, a + b) && NamesOf(names, a + b) == NamesOf(names, a) + NamesOf(names, b)
  {
  }

  lemma NamesShrink(names: map<Node, string>, a: seq<Node>, x: Node)
    requires Named(names, a) && x !in a
    ensures Named(names - {x}, a) && NamesOf(names - {x}, a) == NamesOf(names, a)
  {
  }

  lemma AppendNamed(names: map<Node, string>, list: seq<Node>, x: Node, s: string)
    requires Named(names, list) && x !in names
    ensures Named(names[x := s], list + [x]) && NamesOf(names[x := s], list + [x]) == NamesOf(names, list) + [s]
  {
  }

  lemma NamedParts(names: map<Node, string>, a: seq<Node>, x: Node, b: seq<Node>)
    requires Named(names, a + [x] + b)
    ensures Named(names, a) && Named(names, b) && x in names
  {
    assert x in a + [x] + b;
    assert forall n :: n in a || n in b ==> n in a + [x] + b;
  }

  lemma NamesCut(names: map<Node, string>, a: seq<Node>, x: Node, b: seq<Node>)
    requires NoDups(a + [x] + b) && Named(names, a + [x] + b) && NoDups(NamesOf(names, a + [x] + b))
    ensures x in names && Named(names - {x}, a + b)
    ensures NamesOf(names - {x}, a + b) == Without(NamesOf(names, a + [x] + b), names[x])
  {
    MiddleIsUnique(a, x, b);
    NamedParts(names, a, x, b);
    NamesAppend(names, a, [x]);
    NamesAppend(names, a + [x], b);
    NamesShrink(names, a, x);
    NamesShrink(names, b, x);
    NamesAppend(names - {x}, a, b);
    var na, nb := NamesOf(names, a), NamesOf(names, b);
    assert NamesOf(names, [x]) == [names[x]];
    hide NamesOf, Named, NoDups, Without;
    MiddleIsUnique(na, names[x], nb);
    WithoutMiddle(na, names[x], nb);
  }

  class Strlist {
    const entries: RbRoot
    var list: seq<Node>          // list_entries
    var names: map<Node, string> // the string of the str_node around each tree node

    ghost predicate Valid()
      reads this, entries, Nodes(entries.tree)
    {
      && entries.Valid() && names.Keys == Nodes(entries.tree)
      && Ascending(names, InOrder(entries.tree))
      && Elements(list) == Nodes(entries.tree) && NoDups(list) && Named(names, list)
    }

    /** The strings, oldest first. */
    ghost function Contents(): (r: seq<string>)
      requires Valid()
      reads this, entries, Nodes(entries.tree)
    {
      NamesOf(names, list)
    }

    constructor ()
      ensures Valid() && fresh(entries) && Contents() == []
    {
      entries := new RbRoot();
      list := [];
      names := map[];
    }

    /** The descent that strlist__has_entry and __strlist__add both make. */
    method Descend(s: string) returns (p: Node?, parent: Node?, left: bool, ghost c: Ctx<Node>)
      requires Valid()
      ensures Valid()
      ensures p != null ==> p in names && names[p] == s
      ensures p == null ==> Searching(names, entries.tree, c, Leaf, s)
      ensures p == null ==> parent == ParentRef(c) && (!c.Top? ==> (left <==> c.InLeft?))
    {
      hide At, RedBlack;
      p, parent, left := entries.node, null, false;
      ghost var t := entries.tree;
      c := Top;
      entries.RootIsTree();
      while p != null
        invariant Valid() && p == Ref(t) && Searching(names, entries.tree, c, t, s)
        invariant parent == ParentRef(c) && (!c.Top? ==> (left <==> c.InLeft?))
        decreases t
      {
        entries.Inside(c, t);
        var rc := Strcmp(names[p], s);
        if rc > 0 {
          StrcmpFlip(s, names[p]);
          SearchLeft(names, entries.tree, c, t, s);
          c, t := InLeft(c, t.node, t.red, t.right), t.left;
          parent, p, left := p, p.left, true;
        } else if rc < 0 {
          SearchRight(names, entries.tree, c, t, s);
          c, t := InRight(c, t.left, t.node, t.red), t.right;
          parent, p, left := p, p.right, false;
        } else {
          StrcmpZero(names[p], s);
          return;
        }
      }
    }

    /** strlist__has_entry agrees with looking through the list. */
    method HasEntry(s: string) returns (found: bool)
      requires Valid()
      ensures Valid()
      ensures found <==> s in Contents()
    {
      var p, parent, left;
      ghost var c;
      p, parent, left, c := Descend(s);
      if p != null {
        Listed(p);
      } else {
        NotListed(c, s);
      }
      return p != null;
    }

    /** __strlist__add: appends a new string, refuses one that is there (-EEXIST). */
    method Add(s: string) returns (added: bool)
      requires Valid()
      modifies this, entries, Nodes(entries.tree)
      ensures Valid()
      ensures added <==> s !in old(Contents())
      ensures Contents() == old(Contents()) + (if added then [s] else [])
    {
      var p, parent, left;
      ghost var c;
      p, parent, left, c := Descend(s);
      if p != null {
        Listed(p);
        return false;
      }
      NotListed(c, s);
      AddAt(s, parent, left, c);
      return true;
    }

    /** The new str_node: rb_link_node, rb_insert_color and list_add_tail. */
    method AddAt(s: string, parent: Node?, left: bool, ghost c: Ctx<Node>)
      requires Valid() && Searching(names, entries.tree, c, Leaf, s)
      requires parent == ParentRef(c) && (!c.Top? ==> (left <==> c.InLeft?))
      modifies this, entries, Nodes(entries.tree)
      ensures Valid() && Contents() == old(Contents()) + [s]
    {
      hide At, RedBlack, Searching, InOrder, Before, Behind, Ascending, Plug, Nodes, Elements, NoDups, NamesOf, Named;
      var sn := new Node();
      assert sn !in names;
      InsertAscendingAt(names, entries.tree, c, sn, s);
      entries.Insert(sn, parent, left, c);
      names := names[sn := s];
      AppendDistinct(list, sn);
      AppendNamed(old(names), list, sn, s);
      list := list + [sn];
    }

    /** strlist__remove: exactly this entry goes, the others keep their order. */
    method Remove(sn: Node)
      requires Valid() && sn in names
      modifies this, entries, Nodes(entries.tree)
      ensures Valid() && Contents() == Without(old(Contents()), old(names[sn]))
    {
      hide At, RedBlack, InOrder, Ascending, Nodes, Without, NamesOf, Named, NoDups, Elements;
      ContentsDistinct();
      ghost var a, b := Around(sn);
      CutDistinct(list, a, sn, b);
      NamesCut(names, a, sn, b);
      InTree(sn);
      AscendingCut(names, InOrder(entries.tree), sn);
      entries.Erase(sn);
      list := Without(list, sn);
      names := names - {sn};
    }

    lemma Around(n: Node) returns (a: seq<Node>, b: seq<Node>)
      requires Valid() && n in names
      ensures list == a + [n] + b
    {
      assert n in Elements(list);
      var k :| 0 <= k < |list| && list[k] == n;
      a, b := list[..k], list[k + 1..];
    }

    lemma InTree(n: Node)
      requires Valid() && n in names
      ensures n in InOrder(entries.tree)
    {
      NodesOfOrder(entries.tree);
    }

    lemma Listed(n: Node)
      requires Valid() && n in Nodes(entries.tree)
      ensures names[n] in Contents()
    {
      assert n in Elements(list);
      var k :| 0 <= k < |list| && list[k] == n;
      assert Contents()[k] == names[n];
    }

    lemma NotListed(c: Ctx<Node>, s: string)
      requires Valid() && Searching(names, entries.tree, c, Leaf, s)
      ensures s !in Contents()
    {
      NodesOfOrder(entries.tree);
      if s in Contents() {
        var k :| 0 <= k < |Contents()| && Contents()[k] == s;
        assert list[k] in Elements(list);
        SearchFailed(names, entries.tree, c, s, list[k]);
      }
    }

    /** No string occurs twice. */
    lemma ContentsDistinct()
      requires Valid()
      ensures NoDups(Contents())
    {
      var c := Contents();
      NodesOfOrder(entries.tree);
      forall j, k | 0 <= j < k < |c| ensures c[j] != c[k] {
        if c[j] == c[k] {
          assert list[j] in Elements(list) && list[k] in Elements(list);
          AscendingDistinct(names, InOrder(entries.tree), list[j], list[k]);
        }
      }
    }
  }
}
