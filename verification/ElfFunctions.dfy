/** The table of an ELF file's functions by base name. */
module ElfFunctions {
  import opened Wrappers
  import opened Strings

  datatype Symbol = Symbol(isFunc: bool, name: Option<string>, addr: nat)
  datatype Sym = Sym(name: string, addr: nat)
  datatype ElfFunction = ElfFunction(name: string, syms: seq<Sym>, ambiguous: bool)

  /** The part of a name before its first dot. */
  function Base(name: string): (base: string)
    ensures |base| <= |name| && base == name[..|base|] && '.' !in base
    ensures |base| < |name| ==> name[|base|] == '.'
  {
    if name == [] || name[0] == '.' then "" else [name[0]] + Base(name[1..])
  }

  predicate StartsAt(s: string, what: string, k: nat) {
    k + |what| <= |s| && s[k..k + |what|] == what
  }

  predicate Contains(s: string, what: string) {
    exists k: nat :: k <= |s| && StartsAt(s, what, k)
  }

  /** Partial inlines and rarely used paths are no functions of their own. */
  predicate NonFunctionSuffix(name: string) {
    var suffix := name[|Base(name)|..];
    Contains(suffix, ".cold") || Contains(suffix, ".part")
  }

  lemma ContainsExactly(s: string, what: string)
    ensures Contains(s, what) <==> exists l, r :: s == l + what + r
  {
    if k: nat :| k <= |s| && StartsAt(s, what, k) {
      assert s == s[..k] + what + s[k + |what|..];
    }
    if l, r :| s == l + what + r {
      assert s[|l|..|l| + |what|] == what;
      assert StartsAt(s, what, |l|);
    }
  }

  lemma StartsBehind(s: string, what: string, n: nat, k: nat)
    requires n + k <= |s|
    ensures StartsAt(s[n..], what, k) <==> StartsAt(s, what, n + k)
  {
    if n + k + |what| <= |s| {
      assert s[n..][k..k + |what|] == s[n + k..n + k + |what|];
    }
  }

  lemma NotBeforeDot(name: string, what: string, k: nat)
    requires what != [] && what[0] == '.' && StartsAt(name, what, k)
    ensures |Base(name)| <= k < |name|
  {
    assert name[k] == name[k..k + |what|][0] == '.';
    assert forall i :: 0 <= i < |Base(name)| ==> name[i] == Base(name)[i];
  }

  lemma FoundBehindDot(name: string, what: string)
    requires what != [] && what[0] == '.'
    ensures Contains(name[|Base(name)|..], what) <==> Contains(name, what)
  {
    hide StartsAt, Base;
    var n := |Base(name)|;
    if k: nat :| k <= |name| && StartsAt(name, what, k) {
      NotBeforeDot(name, what, k);
      StartsBehind(name, what, n, k - n);
    }
    if k: nat :| k <= |name[n..]| && StartsAt(name[n..], what, k) {
      StartsBehind(name, what, n, k);
    }
  }

  /** One of the two occurs anywhere in the name. */
  lemma SuffixAnywhere(name: string)
    ensures NonFunctionSuffix(name) <==> (exists l, r :: name == l + ".cold" + r) || (exists l, r :: name == l + ".part" + r)
  {
    hide Contains, Base;
    FoundBehindDot(name, ".cold");
    FoundBehindDot(name, ".part");
    ContainsExactly(name, ".cold");
    ContainsExactly(name, ".part");
  }

  /** The base name is all there is before the first dot. */
  lemma {:induction false} BaseExactly(name: string, base: string)
    ensures Base(name) == base <==> '.' !in base && (name == base || base + "." <= name)
  {
    if name != [] && name[0] != '.' && base != [] && base[0] == name[0] {
      BaseExactly(name[1..], base[1..]);
      assert base == [base[0]] + base[1..] && name == [name[0]] + name[1..];
    }
  }

  predicate Accepted(s: Symbol) {
    s.isFunc && s.name.Some? && !NonFunctionSuffix(s.name.value)
  }

  lemma AcceptedExactly(symbols: seq<Symbol>, base: string)
    ensures (exists s :: s in symbols && Accepted(s) && Base(s.name.value) == base) <==>
            exists s :: s in symbols && s.isFunc && s.name.Some? && '.' !in base && (s.name.value == base || base + "." <= s.name.value)
                        && !(exists l, r :: s.name.value == l + ".cold" + r) && !(exists l, r :: s.name.value == l + ".part" + r)
  {
    hide NonFunctionSuffix, Base;
    forall s | s in symbols && s.name.Some?
      ensures Accepted(s) && Base(s.name.value) == base <==>
                && s.isFunc && '.' !in base && (s.name.value == base || base + "." <= s.name.value)
                && !(exists l, r :: s.name.value == l + ".cold" + r) && !(exists l, r :: s.name.value == l + ".part" + r)
    {
      SuffixAnywhere(s.name.value);
      BaseExactly(s.name.value, base);
    }
  }

  function AsFunction(s: Symbol): ElfFunction
    requires Accepted(s)
  {
    ElfFunction(Base(s.name.value), [Sym(s.name.value, s.addr)], false)
  }

  /** One entry per accepted symbol, in symbol order. */
  function Collected(symbols: seq<Symbol>): seq<ElfFunction> {
    if symbols == [] then []
    else
      var s := symbols[|symbols| - 1];
      Collected(symbols[..|symbols| - 1]) + (if Accepted(s) then [AsFunction(s)] else [])
  }

  /** All accepted symbols with this base name. */
  function SymsOf(symbols: seq<Symbol>, base: string): multiset<Sym> {
    if symbols == [] then multiset{}
    else
      var s := symbols[|symbols| - 1];
      SymsOf(symbols[..|symbols| - 1], base) +
      if Accepted(s) && Base(s.name.value) == base then multiset{Sym(s.name.value, s.addr)} else multiset{}
  }

  lemma {:induction false} SymsOfNonEmpty(symbols: seq<Symbol>, base: string)
    ensures SymsOf(symbols, base) != multiset{} <==> exists s :: s in symbols && Accepted(s) && Base(s.name.value) == base
  {
    if symbols != [] {
      var front, s := symbols[..|symbols| - 1], symbols[|symbols| - 1];
      assert symbols == front + [s];
      SymsOfNonEmpty(front, base);
      if Accepted(s) && Base(s.name.value) == base {
        assert Sym(s.name.value, s.addr) in SymsOf(symbols, base);
      }
    }
  }

  /** Which those are: each accepted symbol of that base name under its full name, with its address. */
  lemma {:induction false} SymsOfExactly(symbols: seq<Symbol>, base: string, x: Sym)
    ensures x in SymsOf(symbols, base) <==>
            exists s :: s in symbols && Accepted(s) && Base(s.name.value) == base && x.name == s.name.value && x.addr == s.addr
  {
    if symbols != [] {
      var front, s := symbols[..|symbols| - 1], symbols[|symbols| - 1];
      assert symbols == front + [s];
      SymsOfExactly(front, base, x);
    }
  }

  /** The symbols held by the entries of this name. */
  function SymsIn(es: seq<ElfFunction>, name: string): multiset<Sym> {
    if es == [] then multiset{}
    else SymsIn(es[..|es| - 1], name) + if es[|es| - 1].name == name then multiset(es[|es| - 1].syms) else multiset{}
  }

  ghost predicate OneSymEach(es: seq<ElfFunction>) {
    forall e :: e in es ==> |e.syms| == 1 && !e.ambiguous
  }

  lemma {:induction false} CollectedHolds(symbols: seq<Symbol>, base: string)
    ensures SymsIn(Collected(symbols), base) == SymsOf(symbols, base)
    ensures OneSymEach(Collected(symbols)) && |Collected(symbols)| <= |symbols|
  {
    if symbols != [] {
      var front, s := symbols[..|symbols| - 1], symbols[|symbols| - 1];
      CollectedHolds(front, base);
      if Accepted(s) {
        assert Collected(symbols)[..|Collected(front)|] == Collected(front);
      } else {
        assert Collected(symbols) == Collected(front);
      }
    }
  }

  lemma {:induction false} SymsInAppend(a: seq<ElfFunction>, b: seq<ElfFunction>, name: string)
    ensures SymsIn(a + b, name) == SymsIn(a, name) + SymsIn(b, name)
  {
    if b == [] {
      assert a + b == a;
    } else {
      assert (a + b)[..|a + b| - 1] == a + b[..|b| - 1];
      SymsInAppend(a, b[..|b| - 1], name);
    }
  }

  lemma SymsInOne(e: ElfFunction, name: string)
    ensures SymsIn([e], name) == if e.name == name then multiset(e.syms) else multiset{}
  {
    assert [e][..0] == [];
  }

  lemma TakeOut(l: seq<ElfFunction>, e: ElfFunction, r: seq<ElfFunction>)
    ensures multiset(l + [e] + r) == multiset(l + r) + multiset{e}
  {
  }

  lemma Cancel(x: multiset<ElfFunction>, y: multiset<ElfFunction>, e: ElfFunction)
    requires x + multiset{e} == y + multiset{e}
    ensures x == y
  {
    assert x == x + multiset{e} - multiset{e} && y == y + multiset{e} - multiset{e};
  }

  lemma SymsInTakeOut(l: seq<ElfFunction>, e: ElfFunction, r: seq<ElfFunction>, name: string)
    ensures SymsIn(l + [e] + r, name) == SymsIn(l + r, name) + SymsIn([e], name)
  {
    SymsInAppend(l, r, name);
    SymsInAppend(l + [e], r, name);
    SymsInAppend(l, [e], name);
  }

  /** Sorting does not change which symbols a name has. */
  lemma {:induction false} SymsInOrder(a: seq<ElfFunction>, b: seq<ElfFunction>, name: string)
    requires multiset(a) == multiset(b)
    ensures SymsIn(a, name) == SymsIn(b, name)
    decreases |a|
  {
    hide SymsIn;
    if a == [] {
      assert |multiset(b)| == |b|;
    } else {
      var front, e := a[..|a| - 1], a[|a| - 1];
      assert a == front + [e] + [];
      assert e in multiset(a);
      var k :| 0 <= k < |b| && b[k] == e;
      var l, r := b[..k], b[k + 1..];
      assert b == l + [e] + r;
      TakeOut(front, e, []);
      TakeOut(l, e, r);
      assert front + [] == front;
      Cancel(multiset(front), multiset(l + r), e);
      SymsInOrder(front, l + r, name);
      SymsInTakeOut(front, e, [], name);
      SymsInTakeOut(l, e, r, name);
    }
  }

  ghost predicate SortedByName(es: seq<ElfFunction>) {
    forall i, j :: 0 <= i < j < |es| ==> Less(es[i].name, es[j].name) || es[i].name == es[j].name
  }

  ghost predicate StrictlySorted(es: seq<ElfFunction>) {
    forall i, j :: 0 <= i < j < |es| ==> Less(es[i].name, es[j].name)
  }

  /** Each entry has exactly the symbols `from` has under its name. */
  ghost predicate HoldsAll(es: seq<ElfFunction>, from: seq<ElfFunction>) {
    && (forall k :: 0 <= k < |es| ==> multiset(es[k].syms) == SymsIn(from, es[k].name))
    && Covers(es, from)
  }

  /** Some symbol that has an address is followed by one that has another. */
  ghost predicate Ambiguous(syms: seq<Sym>) {
    exists k :: 0 < k < |syms| && syms[k - 1].addr != 0 && syms[k].addr != syms[k - 1].addr
  }

  lemma SameFrom(syms: seq<Sym>, k: nat, n: nat)
    requires k <= n < |syms| && !Ambiguous(syms) && syms[k].addr != 0
    ensures syms[n].addr == syms[k].addr
  {
    if k < n {
      SameFrom(syms, k, n - 1);
    }
  }

  /** Up to symbol `k` all addresses are 0, from there on they are one. */
  ghost predicate OneAddressFrom(syms: seq<Sym>, k: nat) {
    && k <= |syms| && (forall j :: 0 <= j < k ==> syms[j].addr == 0)
    && forall i, j :: k <= i < |syms| && k <= j < |syms| ==> syms[i].addr == syms[j].addr
  }

  /** Not ambiguous are a run of zero addresses and one address after it: the order of the symbols matters. */
  lemma AmbiguousExactly(syms: seq<Sym>)
    ensures Ambiguous(syms) <==> !exists k :: OneAddressFrom(syms, k)
    ensures (forall s :: s in syms ==> s.addr != 0) ==>
            (Ambiguous(syms) <==> exists s, t :: s in syms && t in syms && s.addr != t.addr)
  {
    if !Ambiguous(syms) {
      var k := 0;
      while k < |syms| && syms[k].addr == 0
        invariant 0 <= k <= |syms| && forall j :: 0 <= j < k ==> syms[j].addr == 0
      {
        k := k + 1;
      }
      forall i | k <= i < |syms| ensures syms[i].addr == syms[k].addr {
        SameFrom(syms, k, i);
      }
      assert OneAddressFrom(syms, k);
    } else {
      var k :| 0 < k < |syms| && syms[k - 1].addr != 0 && syms[k].addr != syms[k - 1].addr;
      assert syms[k] in syms && syms[k - 1] in syms;
    }
  }

  /** The mark says nothing about names and symbols. */
  lemma MarkKeeps(es: seq<ElfFunction>, from: seq<ElfFunction>, k: nat, mark: bool)
    requires k < |es| && StrictlySorted(es) && HoldsAll(es, from)
    ensures var es' := es[k := es[k].(ambiguous := mark)]; StrictlySorted(es') && HoldsAll(es', from)
  {
    hide Less, SymsIn;
    var es' := es[k := es[k].(ambiguous := mark)];
    forall e | e in from ensures exists i :: 0 <= i < |es'| && es'[i].name == e.name {
      var i :| 0 <= i < |es| && es[i].name == e.name;
      assert es'[i].name == e.name;
    }
  }

  /** Compaction half way: the first `j` sorted entries make up the first `i + 1` of `now`. */
  ghost predicate Compacted(sorted: seq<ElfFunction>, now: seq<ElfFunction>, i: nat, j: nat) {
    && i < j <= |sorted| == |now| && now[j..] == sorted[j..]
    && now[i].name == sorted[j - 1].name
    && StrictlySorted(now[..i + 1]) && HoldsAll(now[..i + 1], sorted[..j])
  }

  lemma CompactedStart(sorted: seq<ElfFunction>)
    requires sorted != []
    ensures Compacted(sorted, sorted, 0, 1)
  {
    var first := [sorted[0]];
    assert sorted[..1] == first;
    SymsInOne(sorted[0], sorted[0].name);
    assert first[0].name == sorted[0].name;
  }

  lemma SymsInStep(from: seq<ElfFunction>, e: ElfFunction, name: string)
    ensures SymsIn(from + [e], name) == SymsIn(from, name) + if e.name == name then multiset(e.syms) else multiset{}
  {
    assert (from + [e])[..|from|] == from;
  }

  function Merged(a: ElfFunction, b: ElfFunction): ElfFunction
    requires b.syms != []
    ensures Merged(a, b).name == a.name
  {
    a.(syms := a.syms + [b.syms[0]])
  }

  /** Every name of `from` has an entry. */
  ghost predicate Covers(es: seq<ElfFunction>, from: seq<ElfFunction>) {
    forall e :: e in from ==> exists k :: 0 <= k < |es| && es[k].name == e.name
  }

  lemma CoverStep(es: seq<ElfFunction>, es': seq<ElfFunction>, from: seq<ElfFunction>, e: ElfFunction)
    requires Covers(es, from) && |es| <= |es'| && es' != [] && es'[|es'| - 1].name == e.name
    requires forall k :: 0 <= k < |es| ==> es'[k].name == es[k].name
    ensures Covers(es', from + [e])
  {
    forall f | f in from + [e] ensures exists k :: 0 <= k < |es'| && es'[k].name == f.name {
      if f in from {
        var k :| 0 <= k < |es| && es[k].name == f.name;
        assert es'[k].name == f.name;
      } else {
        assert es'[|es'| - 1].name == f.name;
      }
    }
  }

  lemma MergedSyms(a: ElfFunction, b: ElfFunction)
    requires |b.syms| == 1
    ensures multiset(Merged(a, b).syms) == multiset(a.syms) + multiset(b.syms)
  {
    assert b.syms == [b.syms[0]];
  }

  /** One more entry of the last name. */
  lemma MergeHolds(es: seq<ElfFunction>, from: seq<ElfFunction>, e: ElfFunction)
    requires es != [] && es[|es| - 1].name == e.name && |e.syms| == 1 && StrictlySorted(es) && HoldsAll(es, from)
    ensures var es' := es[|es| - 1 := Merged(es[|es| - 1], e)];
            StrictlySorted(es') && HoldsAll(es', from + [e])
  {
    hide Less, SymsIn, Covers;
    var es' := es[|es| - 1 := Merged(es[|es| - 1], e)];
    MergedSyms(es[|es| - 1], e);
    hide Merged;
    forall k | 0 <= k < |es'| ensures multiset(es'[k].syms) == SymsIn(from + [e], es'[k].name) {
      SymsInStep(from, e, es'[k].name);
      if k < |es| - 1 {
        Trichotomy(es[k].name, es[|es| - 1].name);
      }
    }
    CoverStep(es, es', from, e);
  }

  lemma {:induction false} AbsentName(es: seq<ElfFunction>, name: string)
    requires forall e :: e in es ==> e.name != name
    ensures SymsIn(es, name) == multiset{}
  {
    if es != [] {
      AbsentName(es[..|es| - 1], name);
    }
  }

  lemma AllBelow(es: seq<ElfFunction>, name: string)
    requires es != [] && StrictlySorted(es) && Less(es[|es| - 1].name, name)
    ensures forall k :: 0 <= k < |es| ==> Less(es[k].name, name) && es[k].name != name
  {
    hide Less;
    forall k | 0 <= k < |es| ensures Less(es[k].name, name) && es[k].name != name {
      if k < |es| - 1 {
        LessTransitive(es[k].name, es[|es| - 1].name, name);
      }
      Trichotomy(es[k].name, name);
    }
  }

  /** An entry of a later name. */
  lemma NextHolds(es: seq<ElfFunction>, from: seq<ElfFunction>, e: ElfFunction)
    requires es != [] && Less(es[|es| - 1].name, e.name) && StrictlySorted(es) && HoldsAll(es, from)
    ensures StrictlySorted(es + [e]) && HoldsAll(es + [e], from + [e])
  {
    hide Less, SymsIn;
    var es' := es + [e];
    AllBelow(es, e.name);
    forall f | f in from ensures f.name != e.name {
      var k :| 0 <= k < |es| && es[k].name == f.name;
    }
    AbsentName(from, e.name);
    forall k | 0 <= k < |es'| ensures multiset(es'[k].syms) == SymsIn(from + [e], es'[k].name) {
      SymsInStep(from, e, es'[k].name);
    }
    CoverStep(es, es', from, e);
  }

  lemma NextEntry(sorted: seq<ElfFunction>, now: seq<ElfFunction>, j: nat)
    requires j < |sorted| == |now| && now[j..] == sorted[j..]
    ensures now[j] == sorted[j] && now[j + 1..] == sorted[j + 1..] && sorted[..j + 1] == sorted[..j] + [now[j]]
  {
    assert now[j..][0] == now[j] && sorted[j..][0] == sorted[j];
    assert now[j..][1..] == now[j + 1..] && sorted[j..][1..] == sorted[j + 1..];
  }

  /** The next entry has the current name: its symbol moves over. */
  lemma CompactedMerge(sorted: seq<ElfFunction>, now: seq<ElfFunction>, i: nat, j: nat, gone: ElfFunction)
    requires Compacted(sorted, now, i, j) && j < |sorted| && OneSymEach(sorted) && now[i].name == now[j].name
    ensures now[j] == sorted[j] && |now[j].syms| == 1
    ensures Compacted(sorted, now[i := Merged(now[i], now[j])][j := gone], i, j + 1)
  {
    hide StrictlySorted, HoldsAll;
    NextEntry(sorted, now, j);
    assert sorted[j] in sorted;
    MergeHolds(now[..i + 1], sorted[..j], now[j]);
    var now' := now[i := Merged(now[i], now[j])][j := gone];
    assert now'[..i + 1] == now[..i + 1][i := Merged(now[i], now[j])];
    assert now'[j + 1..] == now[j + 1..];
  }

  /** The next entry has a new name: it moves up. */
  lemma CompactedNext(sorted: seq<ElfFunction>, now: seq<ElfFunction>, i: nat, j: nat, mark: bool)
    requires Compacted(sorted, now, i, j) && j < |sorted| && SortedByName(sorted) && now[i].name != now[j].name
    ensures Compacted(sorted, now[i := now[i].(ambiguous := mark)][i + 1 := now[j]], i + 1, j + 1)
  {
    hide StrictlySorted, HoldsAll, Less;
    NextEntry(sorted, now, j);
    var marked := now[..i + 1][i := now[i].(ambiguous := mark)];
    MarkKeeps(now[..i + 1], sorted[..j], i, mark);
    NextHolds(marked, sorted[..j], now[j]);
    var now' := now[i := now[i].(ambiguous := mark)][i + 1 := now[j]];
    assert now'[..i + 2] == marked + [now[j]];
    assert now'[j + 1..] == now[j + 1..];
  }

  /** Every entry but the last carries the mark it should; the last never does. */
  ghost predicate MarkedButLast(es: seq<ElfFunction>) {
    forall k :: 0 <= k < |es| ==> (es[k].ambiguous <==> k < |es| - 1 && Ambiguous(es[k].syms))
  }

  /** What the finished table says about the symbol table it was made from. */
  ghost predicate TableOf(es: seq<ElfFunction>, symbols: seq<Symbol>) {
    && StrictlySorted(es)
    && (forall k :: 0 <= k < |es| ==> multiset(es[k].syms) == SymsOf(symbols, es[k].name) != multiset{})
    && (forall s :: s in symbols && Accepted(s) ==> exists k :: 0 <= k < |es| && es[k].name == Base(s.name.value))
  }

  lemma {:induction false} CollectedFrom(symbols: seq<Symbol>, s: Symbol)
    requires s in symbols && Accepted(s)
    ensures AsFunction(s) in Collected(symbols)
  {
    var front, last := symbols[..|symbols| - 1], symbols[|symbols| - 1];
    if s != last {
      CollectedFrom(front, s);
    }
  }

  lemma HoldsIsTable(es: seq<ElfFunction>, sorted: seq<ElfFunction>, symbols: seq<Symbol>)
    requires StrictlySorted(es) && HoldsAll(es, sorted) && multiset(sorted) == multiset(Collected(symbols))
    requires forall k :: 0 <= k < |es| ==> es[k].syms != []
    ensures TableOf(es, symbols)
  {
    hide Less, NonFunctionSuffix;
    forall k | 0 <= k < |es| ensures multiset(es[k].syms) == SymsOf(symbols, es[k].name) != multiset{} {
      SymsInOrder(sorted, Collected(symbols), es[k].name);
      CollectedHolds(symbols, es[k].name);
      assert es[k].syms[0] in multiset(es[k].syms);
    }
    forall s | s in symbols && Accepted(s) ensures exists k :: 0 <= k < |es| && es[k].name == Base(s.name.value) {
      CollectedFrom(symbols, s);
      assert AsFunction(s) in multiset(sorted);
      assert AsFunction(s) in sorted;
    }
  }

  class FunctionTable {
    var entries: array<ElfFunction>
    var cnt: nat

    constructor ()
      ensures cnt == 0 && entries.Length == 0 && fresh(entries)
    {
      entries := new ElfFunction[0];
      cnt := 0;
    }

    /** One pass over the symbols; the array is made large enough for all of them. */
    method CollectEntries(symbols: seq<Symbol>)
      modifies this
      ensures fresh(entries) && cnt <= entries.Length && entries[..cnt] == Collected(symbols)
    {
      entries := new ElfFunction[|symbols|](_ => ElfFunction("", [], false));
      cnt := 0;
      for i := 0 to |symbols|
        invariant fresh(entries) && entries.Length == |symbols| && cnt <= i && entries[..cnt] == Collected(symbols[..i])
      {
        assert symbols[..i + 1][..i] == symbols[..i];
        if Accepted(symbols[i]) {
          entries[cnt] := AsFunction(symbols[i]);
          cnt := cnt + 1;
        }
      }
      assert symbols[..|symbols|] == symbols;
    }

    /** elf_function__has_ambiguous_address */
    static method HasAmbiguousAddress(syms: seq<Sym>) returns (ambiguous: bool)
      ensures ambiguous <==> Ambiguous(syms)
    {
      if |syms| <= 1 {
        return false;
      }
      var addr := 0;
      for i := 0 to |syms|
        invariant addr == if i == 0 then 0 else syms[i - 1].addr
        invariant !exists k :: 0 < k < i && syms[k - 1].addr != 0 && syms[k].addr != syms[k - 1].addr
      {
        if addr != 0 && addr != syms[i].addr {
          return true;
        }
        addr := syms[i].addr;
      }
      ambiguous := false;
    }

    /** Join the symbols of equal names and close the gaps, all in place. */
    method Dedup()
      requires 0 < cnt <= entries.Length && SortedByName(entries[..cnt]) && OneSymEach(entries[..cnt])
      modifies entries, `cnt
      ensures 0 < cnt <= old(cnt) && StrictlySorted(entries[..cnt]) && HoldsAll(entries[..cnt], old(entries[..cnt]))
      ensures forall k :: 0 <= k < cnt ==> entries[k].syms != []
      ensures MarkedButLast(entries[..cnt])
    {
      hide StrictlySorted, HoldsAll, SortedByName, OneSymEach, Progress, Less, Ambiguous, Merged;
      ghost var sorted := entries[..cnt];
      ProgressStart(sorted);
      var i := 0;
      for j := 1 to cnt
        invariant 0 <= i < j && cnt == old(cnt) && Progress(sorted, entries[..cnt], i, j)
      {
        ghost var now := entries[..cnt];
        var a, b := entries[i], entries[j];
        NextOne(sorted, now, i, j);
        StrcmpZero(a.name, b.name);
        if Strcmp(a.name, b.name) == 0 {
          ProgressMerge(sorted, now, i, j, ElfFunction("", [], false));
          entries[i] := Merged(a, b);
          entries[j] := ElfFunction("", [], false);
          assert entries[..cnt] == now[i := Merged(a, b)][j := ElfFunction("", [], false)];
        } else {
          // all symbols of `a` are there
          var mark := HasAmbiguousAddress(a.syms);
          ProgressNext(sorted, now, i, j, mark);
          entries[i] := a.(ambiguous := mark);
          i := i + 1;
          if i != j {
            entries[i] := entries[j];
          }
          assert entries[..cnt] == now[i - 1 := a.(ambiguous := mark)][i := now[j]];
        }
      }
      ProgressEnd(sorted, entries[..cnt], i);
      assert entries[..cnt][..i + 1] == entries[..i + 1];
      cnt := i + 1;
    }

    /** Compaction half way, with every finished entry marked as it should be. */
    static ghost predicate Progress(sorted: seq<ElfFunction>, now: seq<ElfFunction>, i: nat, j: nat) {
      && Compacted(sorted, now, i, j) && !now[i].ambiguous
      && (forall k :: 0 <= k <= i ==> now[k].syms != [])
      && (forall k :: 0 <= k < i ==> (now[k].ambiguous <==> Ambiguous(now[k].syms)))
    }

    static lemma ProgressStart(sorted: seq<ElfFunction>)
      requires sorted != [] && OneSymEach(sorted)
      ensures Progress(sorted, sorted, 0, 1)
    {
      hide Compacted;
      CompactedStart(sorted);
      assert sorted[0] in sorted;
    }

    static lemma NextOne(sorted: seq<ElfFunction>, now: seq<ElfFunction>, i: nat, j: nat)
      requires Progress(sorted, now, i, j) && j < |sorted| && OneSymEach(sorted)
      ensures |now| == |sorted| && |now[j].syms| == 1 && !now[j].ambiguous
    {
      assert now[j] == now[j..][0] == sorted[j..][0] == sorted[j];
    }

    static lemma ProgressMerge(sorted: seq<ElfFunction>, now: seq<ElfFunction>, i: nat, j: nat, gone: ElfFunction)
      requires Progress(sorted, now, i, j) && i < j < |sorted| == |now| && OneSymEach(sorted) && now[i].name == now[j].name && now[j].syms != []
      ensures Progress(sorted, now[i := Merged(now[i], now[j])][j := gone], i, j + 1)
    {
      hide Compacted, Ambiguous, OneSymEach;
      CompactedMerge(sorted, now, i, j, gone);
    }

    static lemma ProgressNext(sorted: seq<ElfFunction>, now: seq<ElfFunction>, i: nat, j: nat, mark: bool)
      requires Progress(sorted, now, i, j) && i < j < |sorted| == |now| && SortedByName(sorted) && now[i].name != now[j].name
      requires now[j].syms != [] && !now[j].ambiguous && (mark <==> Ambiguous(now[i].syms))
      ensures Progress(sorted, now[i := now[i].(ambiguous := mark)][i + 1 := now[j]], i + 1, j + 1)
    {
      hide Compacted, Ambiguous, SortedByName;
      CompactedNext(sorted, now, i, j, mark);
    }

    static lemma ProgressEnd(sorted: seq<ElfFunction>, now: seq<ElfFunction>, i: nat)
      requires Progress(sorted, now, i, |sorted|)
      ensures i < |now| && StrictlySorted(now[..i + 1]) && HoldsAll(now[..i + 1], sorted)
      ensures MarkedButLast(now[..i + 1]) && forall k :: 0 <= k <= i ==> now[k].syms != []
    {
      hide StrictlySorted, HoldsAll, Ambiguous;
      CompactedEnd(sorted, now, i);
    }

    static lemma CompactedEnd(sorted: seq<ElfFunction>, now: seq<ElfFunction>, i: nat)
      requires Compacted(sorted, now, i, |sorted|)
      ensures StrictlySorted(now[..i + 1]) && HoldsAll(now[..i + 1], sorted)
    {
      assert sorted[..|sorted|] == sorted;
    }

    /** qsort: the entries put into the order `sorted`, any one in which the names ascend. */
    method Qsort(sorted: seq<ElfFunction>)
      requires |sorted| == cnt <= entries.Length
      requires multiset(sorted) == multiset(entries[..cnt]) && SortedByName(sorted)
      modifies entries
      ensures entries[..cnt] == sorted
    {
      for k := 0 to cnt
        invariant forall j :: 0 <= j < k ==> entries[j] == sorted[j]
      {
        entries[k] := sorted[k];
      }
    }

    /** Reallocate to the exact size. */
    method Trim()
      requires cnt <= entries.Length
      modifies `entries
      ensures fresh(entries) && entries.Length == cnt && entries[..] == old(entries[..cnt])
    {
      var exact := new ElfFunction[cnt](_ => ElfFunction("", [], false));
      for k := 0 to cnt
        invariant entries == old(entries)
        invariant forall j :: 0 <= j < k ==> exact[j] == entries[j]
      {
        exact[k] := entries[k];
      }
      assert exact[..] == entries[..cnt];
      entries := exact;
    }

    /** elf_functions__collect, `sorted` being the order qsort chooses. */
    method Collect(symbols: seq<Symbol>, sorted: seq<ElfFunction>)
      requires multiset(sorted) == multiset(Collected(symbols)) && SortedByName(sorted)
      modifies this
      ensures fresh(entries) && cnt == entries.Length && TableOf(entries[..], symbols) && MarkedButLast(entries[..])
    {
      hide StrictlySorted, HoldsAll, SortedByName, OneSymEach, Less, Collected, TableOf, SymsIn, SymsOf, Ambiguous;
      CollectEntries(symbols);
      CollectedHolds(symbols, "");
      SameSize(sorted, Collected(symbols));
      if cnt == 0 {
        NothingCollected(symbols);
        entries := new ElfFunction[0];
        assert entries[..] == [];
        return;
      }
      Qsort(sorted);
      Dedup();
      HoldsIsTable(entries[..cnt], sorted, symbols);
      Trim();
    }

    static lemma SameSize(sorted: seq<ElfFunction>, collected: seq<ElfFunction>)
      requires multiset(sorted) == multiset(collected) && OneSymEach(collected)
      ensures |sorted| == |collected| && OneSymEach(sorted)
    {
      assert |sorted| == |multiset(sorted)| && |collected| == |multiset(collected)|;
      forall e | e in sorted ensures |e.syms| == 1 && !e.ambiguous {
        assert e in multiset(collected);
      }
    }

    static lemma NothingCollected(symbols: seq<Symbol>)
      requires Collected(symbols) == []
      ensures TableOf([], symbols)
    {
      forall s | s in symbols && Accepted(s) ensures false {
        CollectedFrom(symbols, s);
      }
    }

    /** btf_encoder__find_function: a binary search; `cnt` stands for not found. */
    method Find(name: string) returns (at: nat)
      requires cnt <= entries.Length && StrictlySorted(entries[..cnt])
      ensures at <= cnt
      ensures at < cnt ==> entries[at].name == name
      ensures at == cnt ==> forall k :: 0 <= k < cnt ==> entries[k].name != name
    {
      var lo, hi := 0, cnt;
      while lo < hi
        invariant 0 <= lo <= hi <= cnt
        invariant forall k :: 0 <= k < lo ==> Less(entries[k].name, name)
        invariant forall k :: hi <= k < cnt ==> Less(name, entries[k].name)
      {
        var mid := lo + (hi - lo) / 2;
        ghost var es := entries[..cnt];
        var c := Strcmp(name, entries[mid].name);
        Trichotomy(name, entries[mid].name);
        StrcmpZero(name, entries[mid].name);
        StrcmpFlip(name, entries[mid].name);
        StrcmpFlip(entries[mid].name, name);
        if c < 0 {
          forall k | mid < k < cnt ensures Less(name, entries[k].name) {
            assert Less(es[mid].name, es[k].name);
            LessTransitive(name, es[mid].name, es[k].name);
          }
          hi := mid;
        } else if c > 0 {
          forall k | 0 <= k < mid ensures Less(entries[k].name, name) {
            assert Less(es[k].name, es[mid].name);
            LessTransitive(es[k].name, es[mid].name, name);
          }
          lo := mid + 1;
        } else {
          return mid;
        }
      }
      forall k | 0 <= k < cnt ensures entries[k].name != name {
        Trichotomy(entries[k].name, name);
      }
      at := cnt;
    }

    /** In a collected table a name is found exactly when an accepted symbol has it as its base name. */
    method FindCollected(symbols: seq<Symbol>, name: string) returns (syms: Option<seq<Sym>>)
      requires cnt == entries.Length && TableOf(entries[..], symbols)
      ensures syms.Some? <==> exists s :: s in symbols && Accepted(s) && Base(s.name.value) == name
      ensures syms.Some? <==>
                exists s :: s in symbols && s.isFunc && s.name.Some? && '.' !in name && (s.name.value == name || name + "." <= s.name.value)
                            && !(exists l, r :: s.name.value == l + ".cold" + r) && !(exists l, r :: s.name.value == l + ".part" + r)
      ensures syms.Some? ==> multiset(syms.value) == SymsOf(symbols, name)
    {
      hide Accepted, Base, SymsOf, Less;
      assert entries[..cnt] == entries[..];
      ghost var es := entries[..];
      var at := Find(name);
      SymsOfNonEmpty(symbols, name);
      AcceptedExactly(symbols, name);
      if at < cnt {
        assert es[at] == entries[at];
        return Some(entries[at].syms);
      }
      assert forall k :: 0 <= k < |es| ==> es[k].name != name;
      syms := None;
    }
  }

  /** The last function by name goes unmarked, although its symbols have two addresses. */
  method LastGoesUnmarked() returns (f: ElfFunction)
    ensures f.name == "f" && !f.ambiguous && Ambiguous(f.syms)
  {
    var symbols := [Symbol(true, Some("f"), 1), Symbol(true, Some("f"), 2)];
    var one, two := ElfFunction("f", [Sym("f", 1)], false), ElfFunction("f", [Sym("f", 2)], false);
    var table := new FunctionTable();
    TwoCollected(symbols);
    table.Collect(symbols, [one, two]);
    ghost var es := table.entries[..];
    OnlyEntry(es, symbols);
    f := table.entries[0];
    assert f == es[0];
  }

  lemma PlainName()
    ensures Base("f") == "f" && !NonFunctionSuffix("f")
  {
    assert "f"[1..] == "";
    assert Base("f") == ['f'] + Base("");
    assert "f"[|Base("f")|..] == "";
  }

  lemma TwoCollected(symbols: seq<Symbol>)
    requires symbols == [Symbol(true, Some("f"), 1), Symbol(true, Some("f"), 2)]
    ensures Collected(symbols) == [ElfFunction("f", [Sym("f", 1)], false), ElfFunction("f", [Sym("f", 2)], false)]
    ensures SymsOf(symbols, "f") == multiset{Sym("f", 1), Sym("f", 2)}
    ensures Accepted(symbols[0]) && Accepted(symbols[1]) && Base("f") == "f"
  {
    hide Base, NonFunctionSuffix;
    PlainName();
    var one := [symbols[0]];
    assert symbols[..1] == one && one[..0] == [];
    assert Collected(one) == Collected([]) + [AsFunction(symbols[0])];
    assert SymsOf(one, "f") == SymsOf([], "f") + multiset{Sym("f", 1)};
  }

  lemma OnlyEntry(es: seq<ElfFunction>, symbols: seq<Symbol>)
    requires symbols == [Symbol(true, Some("f"), 1), Symbol(true, Some("f"), 2)]
    requires TableOf(es, symbols) && MarkedButLast(es)
    ensures es != [] && es[0].name == "f" && !es[0].ambiguous && Ambiguous(es[0].syms)
  {
    hide Less, Ambiguous, Base, NonFunctionSuffix, SymsOf;
    TwoCollected(symbols);
    forall k | 0 <= k < |es| ensures es[k].name == "f" {
      SymsOfNonEmpty(symbols, es[k].name);
    }
    assert symbols[0] in symbols;
    if |es| > 1 {
      Trichotomy(es[0].name, es[1].name);
    }
    TwoAddresses(es[0].syms);
  }

  lemma TwoAddresses(syms: seq<Sym>)
    requires multiset(syms) == multiset{Sym("f", 1), Sym("f", 2)}
    ensures Ambiguous(syms)
  {
    assert |syms| == |multiset(syms)| == 2;
    assert syms[0] in multiset(syms) && syms[1] in multiset(syms);
    assert syms == [syms[0], syms[1]];
    assert multiset(syms) == multiset{syms[0], syms[1]};
    assert multiset(syms)[Sym("f", 1)] == 1;
  }
}
