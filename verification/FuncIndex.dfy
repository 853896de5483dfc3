/** The function-by-address tree of a CU (cu__insert_function, cu__find_function_at_addr). */
module FuncIndex {
  import opened Wrappers
  import opened RbTree
  import opened RbMemory
  import opened RbHeap

  datatype Function = Function(name: string, addr: nat, size: nat)

  predicate Covers(f: Function, addr: nat) {
    f.addr <= addr < f.addr + f.size
  }

  /** First function of the table that covers the address. */
  function Scan(table: seq<Function>, addr: nat): Option<Function> {
    if table == [] then None
    else if Covers(table[0], addr) then Some(table[0])
    else Scan(table[1..], addr)
  }

  /** Insertion behind every function that does not start later. */
  function InsertByAddr(table: seq<Function>, f: Function): seq<Function> {
    if table == [] then [f]
    else if f.addr < table[0].addr then [f] + table
    else [table[0]] + InsertByAddr(table[1..], f)
  }

  ghost predicate SortedByAddr(table: seq<Function>) {
    forall j, k :: 0 <= j < k < |table| ==> table[j].addr <= table[k].addr
  }

  /** No function starts inside another: positive ranges are disjoint, empty ones lie outside. */
  ghost predicate Separated(table: seq<Function>) {
    forall j, k :: 0 <= j < |table| && 0 <= k < |table| && j != k ==> !Covers(table[j], table[k].addr)
  }

  lemma {:induction false} InsertByAddrAt(a: seq<Function>, f: Function, b: seq<Function>)
    requires forall g :: g in a ==> g.addr <= f.addr
    requires forall g :: g in b ==> f.addr < g.addr
    ensures InsertByAddr(a + b, f) == a + [f] + b
  {
    if a == [] {
      assert a + b == b;
    } else {
      assert (a + b)[0] == a[0] && (a + b)[1..] == a[1..] + b;
      InsertByAddrAt(a[1..], f, b);
    }
  }

  lemma {:induction false} InsertContents(table: seq<Function>, f: Function)
    ensures multiset(InsertByAddr(table, f)) == multiset(table) + multiset{f}
  {
    if table != [] {
      assert table == [table[0]] + table[1..];
      InsertContents(table[1..], f);
    }
  }

  lemma {:induction false} InsertKeepsSorted(table: seq<Function>, f: Function)
    requires SortedByAddr(table)
    ensures SortedByAddr(InsertByAddr(table, f))
  {
    if table != [] {
      if f.addr < table[0].addr {
        assert forall k :: 0 <= k < |table| ==> table[0].addr <= table[k].addr;
      } else {
        InsertKeepsSorted(table[1..], f);
        InsertContents(table[1..], f);
        var rest := InsertByAddr(table[1..], f);
        forall k | 0 <= k < |rest| ensures table[0].addr <= rest[k].addr {
          assert rest[k] in multiset(rest);
        }
      }
    }
  }

  lemma {:induction false} ScanNone(table: seq<Function>, addr: nat)
    requires forall f :: f in table ==> !Covers(f, addr)
    ensures Scan(table, addr) == None
  {
    if table != [] {
      ScanNone(table[1..], addr);
    }
  }

  /** With separated functions a covering one is unique, so the scan finds it. */
  lemma {:induction false} ScanFinds(table: seq<Function>, addr: nat, k: nat)
    requires k < |table| && Covers(table[k], addr) && Separated(table)
    ensures Scan(table, addr) == Some(table[k])
  {
    if k != 0 {
      var f, g := table[0], table[k];
      assert !Covers(f, g.addr) && !Covers(g, f.addr);
      assert forall j :: 0 <= j < |table[1..]| ==> table[1..][j] == table[j + 1];
      ScanFinds(table[1..], addr, k - 1);
    }
  }

  ghost predicate Known(funcs: map<Node, Function>, xs: seq<Node>) {
    forall x :: x in xs ==> x in funcs
  }

  ghost function Row(funcs: map<Node, Function>, xs: seq<Node>): (r: seq<Function>)
    requires Known(funcs, xs)
    ensures |r| == |xs| && forall k :: 0 <= k < |xs| ==> r[k] == funcs[xs[k]]
  {
    seq(|xs|, k requires 0 <= k < |xs| => funcs[xs[k]])
  }

  lemma RowAppend(funcs: map<Node, Function>, a: seq<Node>, b: seq<Node>)
    requires Known(funcs, a) && Known(funcs, b)
    ensures Known(funcs, a + b) && Row(funcs, a + b) == Row(funcs, a) + Row(funcs, b)
  {
  }

  lemma RowInsert(funcs: map<Node, Function>, a: seq<Node>, x: Node, f: Function, b: seq<Node>)
    requires Known(funcs, a) && Known(funcs, b) && x !in funcs
    ensures Known(funcs[x := f], a + [x] + b)
    ensures Row(funcs[x := f], a + [x] + b) == Row(funcs, a) + [f] + Row(funcs, b)
  {
  }

  lemma KnownParts(funcs: map<Node, Function>, a: seq<Node>, x: Node, b: seq<Node>)
    requires Known(funcs, a + [x] + b)
    ensures Known(funcs, a) && Known(funcs, b) && x in funcs
    ensures Row(funcs, a + [x] + b) == Row(funcs, a) + [funcs[x]] + Row(funcs, b)
  {
    assert x in a + [x] + b;
    assert forall n :: n in a || n in b ==> n in a + [x] + b;
  }

  /** What the insertion descent knows: outside the focus, everything is on the right side of `f`. */
  ghost predicate Descending(funcs: map<Node, Function>, c: Ctx<Node>, f: Function) {
    && (forall x :: x in Before(c) ==> x in funcs && funcs[x].addr <= f.addr)
    && (forall x :: x in Behind(c) ==> x in funcs && f.addr < funcs[x].addr)
  }

  /** What the search knows: nothing outside the focus covers the address. */
  ghost predicate Excluded(funcs: map<Node, Function>, c: Ctx<Node>, addr: nat) {
    forall x :: x in Before(c) + Behind(c) ==> x in funcs && !Covers(funcs[x], addr)
  }

  /** Positions in a row that is one node with others on both sides. */
  lemma RowPositions(funcs: map<Node, Function>, a: seq<Node>, n: Node, b: seq<Node>, row: seq<Function>)
    requires Known(funcs, a + [n] + b) && row == Row(funcs, a + [n] + b)
    ensures n in funcs && row[|a|] == funcs[n]
    ensures forall x :: x in a ==> x in funcs && exists j :: 0 <= j < |a| && row[j] == funcs[x]
    ensures forall x :: x in b ==> x in funcs && exists j :: |a| < j < |row| && row[j] == funcs[x]
  {
    KnownParts(funcs, a, n, b);
    forall x | x in a ensures exists j :: 0 <= j < |a| && row[j] == funcs[x] {
      var j :| 0 <= j < |a| && a[j] == x;
      assert row[j] == funcs[x];
    }
    forall x | x in b ensures exists j :: |a| < j < |row| && row[j] == funcs[x] {
      var j :| 0 <= j < |b| && b[j] == x;
      assert row[|a| + 1 + j] == funcs[x];
    }
  }

  /** A sorted row, seen around one of its nodes. */
  lemma SortedAround(funcs: map<Node, Function>, a: seq<Node>, n: Node, b: seq<Node>)
    requires Known(funcs, a + [n] + b) && SortedByAddr(Row(funcs, a + [n] + b))
    ensures n in funcs
    ensures forall x :: x in a ==> x in funcs && funcs[x].addr <= funcs[n].addr
    ensures forall x :: x in b ==> x in funcs && funcs[n].addr <= funcs[x].addr
    ensures Separated(Row(funcs, a + [n] + b)) ==> forall x :: x in a ==> !Covers(funcs[x], funcs[n].addr)
  {
    hide Row, Known;
    RowPositions(funcs, a, n, b, Row(funcs, a + [n] + b));
  }

  /** A sorted row, seen around the node in focus. */
  lemma RowAround(funcs: map<Node, Function>, tree: Tree<Node>, c: Ctx<Node>, t: Tree<Node>)
    requires Plug(c, t) == tree && t.Branch? && Known(funcs, InOrder(tree)) && SortedByAddr(Row(funcs, InOrder(tree)))
    ensures t.node in funcs
    ensures forall x :: x in Before(c) + InOrder(t.left) ==> x in funcs && funcs[x].addr <= funcs[t.node].addr
    ensures forall x :: x in InOrder(t.right) + Behind(c) ==> x in funcs && funcs[t.node].addr <= funcs[x].addr
    ensures Separated(Row(funcs, InOrder(tree))) ==>
              forall x :: x in Before(c) + InOrder(t.left) ==> !Covers(funcs[x], funcs[t.node].addr)
  {
    hide Row, Known, SortedByAddr, Separated, Covers;
    OrderAround(c, t);
    SortedAround(funcs, Before(c) + InOrder(t.left), t.node, InOrder(t.right) + Behind(c));
  }

  lemma NothingOutside(funcs: map<Node, Function>)
    ensures forall f :: Descending(funcs, Top, f)
    ensures forall addr :: Excluded(funcs, Top, addr)
  {
  }

  lemma GoLeft(funcs: map<Node, Function>, tree: Tree<Node>, c: Ctx<Node>, t: Tree<Node>, addr: nat)
    requires Plug(c, t) == tree && t.Branch? && Known(funcs, InOrder(tree)) && SortedByAddr(Row(funcs, InOrder(tree)))
    requires t.node in funcs && addr < funcs[t.node].addr
    ensures Excluded(funcs, c, addr) ==> Excluded(funcs, InLeft(c, t.node, t.red, t.right), addr)
    ensures forall f: Function :: f.addr == addr && Descending(funcs, c, f) ==> Descending(funcs, InLeft(c, t.node, t.red, t.right), f)
  {
    hide Row, Known, SortedByAddr, Separated, Plug;
    RowAround(funcs, tree, c, t);
  }

  lemma GoRight(funcs: map<Node, Function>, tree: Tree<Node>, c: Ctx<Node>, t: Tree<Node>, addr: nat)
    requires Plug(c, t) == tree && t.Branch? && Known(funcs, InOrder(tree)) && SortedByAddr(Row(funcs, InOrder(tree)))
    requires t.node in funcs && funcs[t.node].addr <= addr
    ensures !Covers(funcs[t.node], addr) && Separated(Row(funcs, InOrder(tree))) && Excluded(funcs, c, addr) ==>
              Excluded(funcs, InRight(c, t.left, t.node, t.red), addr)
    ensures forall f: Function :: f.addr == addr && Descending(funcs, c, f) ==> Descending(funcs, InRight(c, t.left, t.node, t.red), f)
  {
    hide Row, Known, SortedByAddr, Separated, Plug;
    RowAround(funcs, tree, c, t);
  }

  class FunctionIndex {
    const functions: RbRoot
    var funcs: map<Node, Function> // the struct function around each tree node

    ghost predicate Valid()
      reads this, functions, Nodes(functions.tree)
    {
      && functions.Valid() && funcs.Keys == Nodes(functions.tree)
      && Known(funcs, InOrder(functions.tree)) && SortedByAddr(Row(funcs, InOrder(functions.tree)))
    }

    /** The functions by ascending address. */
    ghost function Table(): seq<Function>
      requires Valid()
      reads this, functions, Nodes(functions.tree)
    {
      Row(funcs, InOrder(functions.tree))
    }

    constructor ()
      ensures Valid() && fresh(functions) && Table() == []
    {
      functions := new RbRoot();
      funcs := map[];
    }

    method Insert(f: Function)
      requires Valid()
      modifies this, functions, Nodes(functions.tree)
      ensures Valid() && Table() == InsertByAddr(old(Table()), f)
    {
      hide At, RedBlack, Covers, Excluded, Descending, SortedByAddr, Separated, InOrder, Known;
      var p := functions.node;
      var parent: Node? := null;
      var left := false;
      ghost var c, t := Top, functions.tree;
      NothingOutside(funcs);
      functions.RootIsTree();
      while p != null
        invariant Valid() && p == Ref(t) && Plug(c, t) == functions.tree && Descending(funcs, c, f)
        invariant Table() == old(Table()) && functions.tree == old(functions.tree)
        invariant parent == ParentRef(c) && (!c.Top? ==> (left <==> c.InLeft?))
        decreases t
      {
        functions.Inside(c, t);
        if f.addr < funcs[p].addr {
          GoLeft(funcs, functions.tree, c, t, f.addr);
          c, t := InLeft(c, t.node, t.red, t.right), t.left;
          parent, p, left := p, p.left, true;
        } else {
          GoRight(funcs, functions.tree, c, t, f.addr);
          c, t := InRight(c, t.left, t.node, t.red), t.right;
          parent, p, left := p, p.right, false;
        }
      }
      InsertAt(f, parent, left, c);
    }

    method InsertAt(f: Function, parent: Node?, left: bool, ghost c: Ctx<Node>)
      requires Valid() && Plug(c, Leaf) == functions.tree && Descending(funcs, c, f)
      requires parent == ParentRef(c) && (!c.Top? ==> (left <==> c.InLeft?))
      modifies this, functions, Nodes(functions.tree)
      ensures Valid() && Table() == InsertByAddr(old(Table()), f)
    {
      hide At, RedBlack, InOrder, Before, Behind, Nodes, Plug, SortedByAddr, Known, Row, InsertByAddr;
      var n := new Node();
      assert n !in funcs;
      InsertRow(c, n, f);
      InsertKeepsSorted(Table(), f);
      functions.Insert(n, parent, left, c);
      funcs := funcs[n := f];
    }

    lemma InsertRow(c: Ctx<Node>, n: Node, f: Function)
      requires Valid() && Plug(c, Leaf) == functions.tree && Descending(funcs, c, f) && n !in funcs
      ensures Known(funcs[n := f], Before(c) + [n] + Behind(c))
      ensures Row(funcs[n := f], Before(c) + [n] + Behind(c)) == InsertByAddr(Table(), f)
    {
      PlugOrder(c, Leaf);
      assert InOrder(functions.tree) == Before(c) + Behind(c);
      RowAppend(funcs, Before(c), Behind(c));
      InsertByAddrAt(Row(funcs, Before(c)), f, Row(funcs, Behind(c)));
      RowInsert(funcs, Before(c), n, f, Behind(c));
    }

    /**
     What is returned covers the address; on separated functions the search returns
     exactly what a linear scan would, so it misses nothing.
     */
    method FindAt(addr: nat) returns (r: Option<Function>)
      requires Valid()
      ensures Valid()
      ensures r.Some? ==> r.value in Table() && Covers(r.value, addr)
      ensures Separated(Table()) ==> r == Scan(Table(), addr)
    {
      hide At, RedBlack, Excluded, Descending, SortedByAddr, Separated, InOrder, Known;
      var n := functions.node;
      ghost var c, t := Top, functions.tree;
      NothingOutside(funcs);
      functions.RootIsTree();
      while n != null
        invariant Valid() && n == Ref(t) && Plug(c, t) == functions.tree
        invariant Separated(Table()) ==> Excluded(funcs, c, addr)
        decreases t
      {
        functions.Inside(c, t);
        var f := funcs[n];
        if addr < f.addr {
          GoLeft(funcs, functions.tree, c, t, addr);
          c, t := InLeft(c, t.node, t.red, t.right), t.left;
          n := n.left;
        } else if addr >= f.addr + f.size {
          GoRight(funcs, functions.tree, c, t, addr);
          c, t := InRight(c, t.left, t.node, t.red), t.right;
          n := n.right;
        } else {
          Found(c, t, addr);
          return Some(f);
        }
      }
      Missed(c, addr);
      return None;
    }

    lemma Found(c: Ctx<Node>, t: Tree<Node>, addr: nat)
      requires Valid() && Plug(c, t) == functions.tree && t.Branch? && t.node in funcs && Covers(funcs[t.node], addr)
      ensures funcs[t.node] in Table()
      ensures Separated(Table()) ==> Scan(Table(), addr) == Some(funcs[t.node])
    {
      OrderAround(c, t);
      var k := |Before(c) + InOrder(t.left)|;
      assert Table()[k] == funcs[t.node];
      if Separated(Table()) {
        ScanFinds(Table(), addr, k);
      }
    }

    lemma Missed(c: Ctx<Node>, addr: nat)
      requires Valid() && Plug(c, Leaf) == functions.tree
      ensures Separated(Table()) && Excluded(funcs, c, addr) ==> Scan(Table(), addr) == None
    {
      if Excluded(funcs, c, addr) {
        PlugOrder(c, Leaf);
        var order := InOrder(functions.tree);
        forall f | f in Table() ensures !Covers(f, addr) {
          var k :| 0 <= k < |order| && f == funcs[order[k]];
        }
        ScanNone(Table(), addr);
      }
    }
  }
}
