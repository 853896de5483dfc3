/** Reading BTF back: chains of one-dimensional arrays become multi-dimensional arrays again. */
module BtfArrays {
  import opened Wrappers
  import B = Btf
  import D = Dwarf
  import I = BtfIds

  /** A types table entry, as far as its size goes. */
  datatype Entry =
    | Array(elem: nat, dims: seq<nat>)
    | Through(ref: nat) // typedefs, qualifiers and type tags: as large as what they refer to
    | Sized(bytes: nat)

  /** Index 0 is void; None for functions, variables and the like, which live in other tables. */
  type Table = seq<Option<Entry>>

  /** The dimension count is an 8-bit field. */
  const UINT8_MAX: nat := 255
  const SIZE_T: nat := 0x1_0000_0000_0000_0000

  /** The entry of a type other than an array, pointers being `addrSize` wide. */
  function Direct(addrSize: nat, t: B.Type): Option<Entry>
    requires !t.Array?
  {
    match t
    case Int(_, size, _) => Some(Sized(size))
    case Float(_, size) => Some(Sized(size))
    case Ref(kind, r) => if kind == B.Pointer then Some(Sized(addrSize)) else Some(Through(r))
    case Typedef(_, r) => Some(Through(r))
    case TypeTag(_, r) => Some(Through(r))
    case Fwd(_, _) => Some(Sized(0))
    case Composite(_, _, size, members) => Some(Sized(if size == 1 && members == [] then 0 else size))
    case Enum(_, size, _) => Some(Sized(if size == 0 then 4 else size))
    case Enum64(_, size, _, _) => Some(Sized(if size == 0 then 4 else size))
    case FuncProto(_, _) => Some(Sized(addrSize))
    case _ => None
  }

  function At(table: Table, id: nat): Option<Entry> {
    if id < |table| then table[id] else None
  }

  /** An array of `nelems` times type `elem`, taking over the dimensions of an array already loaded. */
  function Absorb(table: Table, elem: nat, nelems: nat): Entry {
    var e := At(table, elem);
    if e.Some? && e.value.Array? && |e.value.dims| < UINT8_MAX
    then Array(e.value.elem, [nelems] + e.value.dims)
    else Array(elem, [nelems])
  }

  /** The table after reading the types in id order. */
  function Load(addrSize: nat, btf: seq<B.Type>): (table: Table)
    ensures |table| == |btf| + 1
  {
    if btf == [] then [None]
    else
      var table, t := Load(addrSize, btf[..|btf| - 1]), btf[|btf| - 1];
      table + [if t.Array? then Some(Absorb(table, t.elem, t.nelems)) else Direct(addrSize, t)]
  }

  class Cu {
    const addrSize: nat
    var typesTable: Table

    constructor (addrSize: nat)
      ensures this.addrSize == addrSize && typesTable == [None]
    {
      this.addrSize := addrSize;
      typesTable := [None];
    }

    method CreateNewArray(elem: nat, nelems: nat)
      modifies this
      ensures typesTable == old(typesTable) + [Some(Absorb(old(typesTable), elem, nelems))]
    {
      var elemTag := At(typesTable, elem);
      var dims, ref := [nelems], elem;
      if elemTag.Some? && elemTag.value.Array? && |elemTag.value.dims| < UINT8_MAX {
        var inner := elemTag.value;
        dims := dims + inner.dims;
        ref := inner.elem;
      }
      typesTable := typesTable + [Some(Array(ref, dims))];
    }

    method LoadTypes(btf: seq<B.Type>)
      requires typesTable == [None]
      modifies this
      ensures typesTable == Load(addrSize, btf)
      ensures forall id: nat, bytes: nat :: SizeIs(typesTable, id, bytes) <==>
                0 < id <= |btf| && SizeRule(addrSize, B.TypeById(btf, id), typesTable, bytes)
    {
      for typeIndex := 1 to |btf| + 1
        invariant typesTable == Load(addrSize, btf[..typeIndex - 1])
      {
        var t := B.TypeById(btf, typeIndex);
        assert btf[..typeIndex][..typeIndex - 1] == btf[..typeIndex - 1];
        if t.Array? {
          CreateNewArray(t.elem, t.nelems);
        } else {
          typesTable := typesTable + [Direct(addrSize, t)];
        }
      }
      assert btf[..|btf|] == btf;
      hide Load, SizeIs, SizeRule;
      forall id: nat, bytes: nat
        ensures SizeIs(typesTable, id, bytes) <==> 0 < id <= |btf| && SizeRule(addrSize, B.TypeById(btf, id), typesTable, bytes)
      {
        SizeLaw(addrSize, btf, id, bytes);
      }
    }
  }

  /** What is loaded for an id depends on the types up to it only. */
  lemma {:induction false} LoadAt(addrSize: nat, btf: seq<B.Type>, id: nat)
    requires 0 < id <= |btf|
    ensures var t := B.TypeById(btf, id);
            Load(addrSize, btf)[id] ==
            if t.Array? then Some(Absorb(Load(addrSize, btf[..id - 1]), t.elem, t.nelems)) else Direct(addrSize, t)
    ensures forall j :: 0 <= j < id ==> Load(addrSize, btf)[j] == Load(addrSize, btf[..id - 1])[j]
  {
    hide Direct, Absorb;
    if id < |btf| {
      LoadAt(addrSize, btf[..|btf| - 1], id);
      assert btf[..|btf| - 1][..id - 1] == btf[..id - 1];
    }
  }

  /** An array node absorbs the entry of a smaller id, and only of a smaller id. */
  lemma LoadArray(addrSize: nat, btf: seq<B.Type>, id: nat)
    requires 0 < id <= |btf| && B.TypeById(btf, id).Array?
    ensures var table, t := Load(addrSize, btf), B.TypeById(btf, id);
            table[id] == Some(if t.elem < id then Absorb(table, t.elem, t.nelems) else Array(t.elem, [t.nelems]))
  {
    hide Load, Direct;
    LoadAt(addrSize, btf, id);
  }

  // ----- round trip -----

  /** How many dimensions the array loaded for the outermost of `n` chained nodes has. */
  function Kept(n: nat): (r: nat)
    requires n > 0
    ensures 0 < r <= n && r <= UINT8_MAX
    ensures r == n <==> n <= UINT8_MAX
  {
    (n - 1) % UINT8_MAX + 1
  }

  /** Is `elem` something the array with id `next` does not absorb? */
  predicate NotAbsorbed(table: Table, elem: nat, next: nat) {
    elem < next && At(table, elem).Some? ==> !At(table, elem).value.Array?
  }

  /**
   The chain emitted for an array of any number of dimensions, read back. Up to 255 dimensions
   everything is rebuilt; beyond, the outermost array keeps the first few only.
   */
  lemma {:induction false} ChainLoads(addrSize: nat, btf: seq<B.Type>, dims: seq<nat>, elem: nat, index: nat, next: nat)
    requires dims != [] && 0 < next && next - 1 + |dims| <= |btf|
    requires btf[next - 1..next - 1 + |dims|] == I.EmitArray(dims, elem, index, next)
    requires NotAbsorbed(Load(addrSize, btf), elem, next)
    ensures var kept := Kept(|dims|);
            Load(addrSize, btf)[next + |dims| - 1] ==
            Some(Array(if kept == |dims| then elem else next + |dims| - 1 - kept, dims[..kept]))
  {
    hide Load, Direct;
    var id := next + |dims| - 1;
    I.ChainTop(btf, dims, elem, index, next);
    LoadArray(addrSize, btf, id);
    if |dims| > 1 {
      ChainLoads(addrSize, btf, dims[1..], elem, index, next);
      KeptStep(|dims| - 1);
      var kept := Kept(|dims| - 1);
      if kept < UINT8_MAX {
        assert [dims[0]] + dims[1..][..kept] == dims[..kept + 1];
      } else {
        assert dims[..1] == [dims[0]];
      }
    } else {
      assert dims == dims[..1] == [dims[0]] && Kept(1) == 1;
    }
  }

  lemma KeptStep(n: nat)
    requires n > 0
    ensures Kept(n + 1) == if Kept(n) < UINT8_MAX then Kept(n) + 1 else 1
  {
    if Kept(n) == UINT8_MAX {
      assert n - 1 == UINT8_MAX * ((n - 1) / UINT8_MAX) + (UINT8_MAX - 1);
      assert n == UINT8_MAX * ((n - 1) / UINT8_MAX + 1);
    }
  }

  /** The array is rebuilt exactly when it has at most 255 dimensions. */
  lemma ArrayRoundTrip(addrSize: nat, btf: seq<B.Type>, dims: seq<nat>, elem: nat, index: nat, next: nat)
    requires dims != [] && 0 < next && next - 1 + |dims| <= |btf|
    requires btf[next - 1..next - 1 + |dims|] == I.EmitArray(dims, elem, index, next)
    requires NotAbsorbed(Load(addrSize, btf), elem, next)
    ensures Load(addrSize, btf)[next + |dims| - 1] == Some(Array(elem, dims)) <==> |dims| <= UINT8_MAX
  {
    ChainLoads(addrSize, btf, dims, elem, index, next);
    assert dims[..|dims|] == dims;
  }

  /** Only arrays are written as arrays. */
  lemma ArraysFromArrays(u: I.Unit, btf: seq<B.Type>, head: B.Label, c: nat)
    requires u.EmittedIn(btf, head) && 0 < c < |u.table| && u.Map(c) > 0 && !u.table[c].value.ArrayTag?
    ensures u.Map(c) <= |btf| && !B.TypeById(btf, u.Map(c)).Array?
  {
    hide D.Closed, D.AllEncodable, I.MapIds, D.Head, D.BaseToBtf;
    u.EntrySlice(btf, head, c);
    var slice := btf[u.off + I.IdsBefore(u.table, c)..u.off + I.IdsBefore(u.table, c + 1)];
    assert slice[0] == B.TypeById(btf, u.Map(c));
    u.OneMeans(c);
    NotArray(u.cfg, u.table[c].value, u.MapRefs(c));
  }

  lemma NotArray(cfg: D.Config, t: D.Tag, refs: seq<nat>)
    requires !t.ArrayTag? && !t.Unspecified? && D.Head(cfg, t).Some? && |refs| == |D.TagRefs(t)|
    ensures !I.EmitOne(cfg, t, refs).Array?
  {
  }

  /** From DWARF through BTF and back: an array of a non-array type keeps its dimensions and element type. */
  lemma EncodedArrayLoads(addrSize: nat, u: I.Unit, btf: seq<B.Type>, head: B.Label, c: nat)
    requires u.EmittedIn(btf, head) && 0 < c < |u.table| && u.table[c].Some? && u.table[c].value.ArrayTag?
    requires var r := u.table[c].value.ref;
             r > 0 && r < |u.table| && u.table[r].Some? ==> !u.table[r].value.ArrayTag?
    requires |u.table[c].value.dims| <= UINT8_MAX
    ensures var t := u.table[c].value;
            && t.ref < |u.table| && 0 < u.Map(c) <= |btf|
            && Load(addrSize, btf)[u.Map(c)] == Some(Array(u.Map(t.ref), D.Dims(t.dims)))
  {
    hide Load, Direct, D.AllEncodable, I.EmitOne, I.EmitArray, I.IdsBefore;
    var t := u.table[c].value;
    u.ElemRef(c);
    u.EntrySlice(btf, head, c);
    var elem := u.Map(t.ref);
    if elem > 0 {
      ArraysFromArrays(u, btf, head, t.ref);
      LoadAt(addrSize, btf, elem);
      DirectNotArray(addrSize, B.TypeById(btf, elem));
    } else {
      LoadVoid(addrSize, btf);
    }
    ArrayRoundTrip(addrSize, btf, D.Dims(t.dims), elem, u.index, u.off + I.IdsBefore(u.table, c) + 1);
  }

  lemma DirectNotArray(addrSize: nat, t: B.Type)
    requires !t.Array?
    ensures Direct(addrSize, t).Some? ==> !Direct(addrSize, t).value.Array?
  {
  }

  lemma {:induction false} LoadVoid(addrSize: nat, btf: seq<B.Type>)
    ensures Load(addrSize, btf)[0] == None
  {
    if btf != [] {
      LoadVoid(addrSize, btf[..|btf| - 1]);
    }
  }

  // ----- sizes -----

  function Product(dims: seq<nat>): nat {
    if dims == [] then 1 else dims[0] * Product(dims[1..])
  }

  /** array_type__nr_entries: a product of machine words. */
  method NrEntries(dims: seq<nat>) returns (nrEntries: nat)
    ensures nrEntries == Product(dims) % SIZE_T
  {
    nrEntries := 1;
    for i := 0 to |dims|
      invariant nrEntries * Product(dims[i..]) % SIZE_T == Product(dims) % SIZE_T
      invariant nrEntries < SIZE_T
    {
      ghost var rest := Product(dims[i + 1..]);
      assert dims[i..][1..] == dims[i + 1..];
      assert nrEntries * Product(dims[i..]) == (nrEntries * dims[i]) * rest by {
        assert Product(dims[i..]) == dims[i] * rest;
      }
      ModTimes(nrEntries * dims[i], rest);
      nrEntries := nrEntries * dims[i] % SIZE_T;
    }
  }

  lemma ModTimes(a: nat, b: nat)
    ensures (a % SIZE_T) * b % SIZE_T == a * b % SIZE_T
  {
    var q, r := a / SIZE_T, a % SIZE_T;
    assert a * b == r * b + SIZE_T * (q * b);
    ModPlus(r * b, q * b);
  }

  lemma ModPlus(x: nat, k: nat)
    ensures (x + SIZE_T * k) % SIZE_T == x % SIZE_T
  {
  }

  /**
   tag__size, following at most `k` references. None when there is no size to be had: the type is
   missing, is void, or refers to itself.
   */
  ghost function SizeAt(table: Table, id: nat, k: nat): Option<nat>
    decreases k
  {
    var e := At(table, id);
    if k == 0 || e.None? then None
    else match e.value
      case Sized(bytes) => Some(bytes)
      case Through(r) => SizeAt(table, r, k - 1)
      case Array(elem, dims) => Times(SizeAt(table, elem, k - 1), dims)
  }

  /** `size * array_type__nr_entries` in machine words. */
  ghost function Times(size: Option<nat>, dims: seq<nat>): Option<nat> {
    if size.None? then None else Some(size.value * (Product(dims) % SIZE_T) % SIZE_T)
  }

  lemma {:induction false} SizeMonotone(table: Table, id: nat, k: nat, j: nat)
    requires k <= j && SizeAt(table, id, k).Some?
    ensures SizeAt(table, id, j) == SizeAt(table, id, k)
    decreases k
  {
    var e := At(table, id).value;
    if !e.Sized? {
      SizeMonotone(table, if e.Array? then e.elem else e.ref, k - 1, j - 1);
    }
  }

  /** The table a loader would build that left every array node by itself. */
  function Plain(addrSize: nat, btf: seq<B.Type>): (table: Table)
    ensures |table| == |btf| + 1
  {
    if btf == [] then [None]
    else
      var t := btf[|btf| - 1];
      Plain(addrSize, btf[..|btf| - 1]) + [if t.Array? then Some(Array(t.elem, [t.nelems])) else Direct(addrSize, t)]
  }

  lemma {:induction false} PlainAt(addrSize: nat, btf: seq<B.Type>, id: nat)
    requires 0 < id <= |btf|
    ensures var t := B.TypeById(btf, id);
            Plain(addrSize, btf)[id] == if t.Array? then Some(Array(t.elem, [t.nelems])) else Direct(addrSize, t)
  {
    if id < |btf| {
      PlainAt(addrSize, btf[..|btf| - 1], id);
    }
  }

  lemma {:induction false} PlainVoid(addrSize: nat, btf: seq<B.Type>)
    ensures Plain(addrSize, btf)[0] == None
  {
    if btf != [] {
      PlainVoid(addrSize, btf[..|btf| - 1]);
    }
  }

  /** `dims` are the element counts met going from array node to array node, ending at `elem`. */
  ghost predicate Chain(btf: seq<B.Type>, id: nat, dims: seq<nat>, elem: nat)
    decreases |dims|
  {
    if dims == [] then id == elem
    else
      && 0 < id <= |btf| && B.TypeById(btf, id).Array? && B.TypeById(btf, id).nelems == dims[0]
      && Chain(btf, B.TypeById(btf, id).elem, dims[1..], elem)
  }

  /** Every loaded array stands for the chain it took over, of 1 to 255 nodes. */
  lemma {:induction false} LoadedChain(addrSize: nat, btf: seq<B.Type>, id: nat)
    requires 0 < id <= |btf| && B.TypeById(btf, id).Array?
    ensures var e := Load(addrSize, btf)[id];
            && e.Some? && e.value.Array? && 0 < |e.value.dims| <= UINT8_MAX
            && Chain(btf, id, e.value.dims, e.value.elem)
    decreases id
  {
    hide Load, Direct;
    LoadArray(addrSize, btf, id);
    LoadVoid(addrSize, btf);
    var table, t := Load(addrSize, btf), B.TypeById(btf, id);
    if 0 < t.elem < id && table[t.elem].Some? && table[t.elem].value.Array? {
      LoadAt(addrSize, btf, t.elem);
      if !B.TypeById(btf, t.elem).Array? {
        DirectNotArray(addrSize, B.TypeById(btf, t.elem));
      }
      LoadedChain(addrSize, btf, t.elem);
      var inner := table[t.elem].value;
      if |inner.dims| < UINT8_MAX {
        assert ([t.nelems] + inner.dims)[1..] == inner.dims;
      }
    }
  }

  lemma TimesOnce(size: Option<nat>, n: nat, dims: seq<nat>)
    ensures Times(Times(size, dims), [n]) == Times(size, [n] + dims)
  {
    if size.Some? {
      var s, p := size.value, Product(dims);
      assert ([n] + dims)[1..] == dims && Product([n] + dims) == n * p;
      assert Product([n]) == n * Product([]) == n;
      TimesValue(s, p);
      TimesValue(s, n * p);
      TimesValue(s * (p % SIZE_T) % SIZE_T, n);
      ModTimes(s * p, n);
      assert (s * p) * n == s * (n * p);
    }
  }

  lemma TimesValue(s: nat, p: nat)
    ensures s * (p % SIZE_T) % SIZE_T == s * p % SIZE_T
  {
    ModTimes(p, s);
    assert (p % SIZE_T) * s == s * (p % SIZE_T) && p * s == s * p;
  }

  /** The size at the bottom of a chain, seen from its top. */
  lemma {:induction false} ChainSize(addrSize: nat, btf: seq<B.Type>, id: nat, dims: seq<nat>, elem: nat, k: nat)
    requires Chain(btf, id, dims, elem) && dims != []
    ensures SizeAt(Plain(addrSize, btf), id, k + |dims|) == Times(SizeAt(Plain(addrSize, btf), elem, k), dims)
    decreases |dims|
  {
    hide Plain, Direct, Times;
    PlainAt(addrSize, btf, id);
    var t := B.TypeById(btf, id);
    var below := SizeAt(Plain(addrSize, btf), t.elem, k + |dims| - 1);
    assert dims == [dims[0]] + dims[1..];
    if |dims| > 1 {
      ChainSize(addrSize, btf, t.elem, dims[1..], elem, k);
      TimesOnce(SizeAt(Plain(addrSize, btf), elem, k), dims[0], dims[1..]);
    } else {
      assert dims == [t.nelems] && t.elem == elem && below == SizeAt(Plain(addrSize, btf), elem, k);
    }
  }

  /** A chain with a size is walked to its end. */
  lemma {:induction false} ChainNeeds(addrSize: nat, btf: seq<B.Type>, id: nat, dims: seq<nat>, elem: nat, k: nat)
    requires Chain(btf, id, dims, elem) && SizeAt(Plain(addrSize, btf), id, k).Some?
    ensures k >= |dims|
    decreases |dims|
  {
    hide Plain, Direct;
    if dims != [] {
      PlainAt(addrSize, btf, id);
      ChainNeeds(addrSize, btf, B.TypeById(btf, id).elem, dims[1..], elem, k - 1);
    }
  }

  /** Absorbing inner arrays changes no size. */
  lemma {:induction false} SizeKept(addrSize: nat, btf: seq<B.Type>, id: nat, k: nat)
    requires SizeAt(Plain(addrSize, btf), id, k).Some?
    ensures SizeAt(Load(addrSize, btf), id, k) == SizeAt(Plain(addrSize, btf), id, k)
    decreases k
  {
    hide Plain, Load, Direct, Times, Chain;
    PlainVoid(addrSize, btf);
    PlainAt(addrSize, btf, id);
    LoadAt(addrSize, btf, id);
    var t := B.TypeById(btf, id);
    if t.Array? {
      LoadedChain(addrSize, btf, id);
      var e := Load(addrSize, btf)[id].value;
      ChainNeeds(addrSize, btf, id, e.dims, e.elem, k);
      ChainSize(addrSize, btf, id, e.dims, e.elem, k - |e.dims|);
      TimesSome(SizeAt(Plain(addrSize, btf), e.elem, k - |e.dims|), e.dims);
      SizeKept(addrSize, btf, e.elem, k - |e.dims|);
      SizeMonotone(Load(addrSize, btf), e.elem, k - |e.dims|, k - 1);
    } else if Direct(addrSize, t).value.Through? {
      SizeKept(addrSize, btf, Direct(addrSize, t).value.ref, k - 1);
    } else {
      DirectNotArray(addrSize, t);
    }
  }

  lemma TimesSome(size: Option<nat>, dims: seq<nat>)
    ensures Times(size, dims).Some? <==> size.Some?
  {
  }

  /** Nor does it give a size to a type that had none. */
  lemma {:induction false} SizeNotMadeUp(addrSize: nat, btf: seq<B.Type>, id: nat, k: nat)
    requires SizeAt(Load(addrSize, btf), id, k).Some?
    ensures SizeAt(Plain(addrSize, btf), id, UINT8_MAX * k) == SizeAt(Load(addrSize, btf), id, k)
    decreases k
  {
    hide Plain, Load, Direct, Times, Chain;
    LoadVoid(addrSize, btf);
    PlainAt(addrSize, btf, id);
    LoadAt(addrSize, btf, id);
    var t, j := B.TypeById(btf, id), UINT8_MAX * (k - 1);
    if t.Array? {
      LoadedChain(addrSize, btf, id);
      var e := Load(addrSize, btf)[id].value;
      TimesSome(SizeAt(Load(addrSize, btf), e.elem, k - 1), e.dims);
      SizeNotMadeUp(addrSize, btf, e.elem, k - 1);
      ChainSize(addrSize, btf, id, e.dims, e.elem, j);
      SizeMonotone(Plain(addrSize, btf), id, j + |e.dims|, UINT8_MAX * k);
    } else if Direct(addrSize, t).value.Through? {
      var r := Direct(addrSize, t).value.ref;
      SizeNotMadeUp(addrSize, btf, r, k - 1);
      SizeMonotone(Plain(addrSize, btf), r, j, UINT8_MAX * k - 1);
    } else {
      DirectNotArray(addrSize, t);
    }
  }

  /** tag__size comes to this many bytes. */
  ghost predicate SizeIs(table: Table, id: nat, bytes: nat) {
    exists k: nat :: SizeAt(table, id, k) == Some(bytes)
  }

  /** A type has a size, and which one, just as if no array had been absorbed. */
  lemma SizesAgree(addrSize: nat, btf: seq<B.Type>, id: nat, bytes: nat)
    ensures SizeIs(Load(addrSize, btf), id, bytes) <==> SizeIs(Plain(addrSize, btf), id, bytes)
  {
    if k: nat :| SizeAt(Load(addrSize, btf), id, k) == Some(bytes) {
      SizeNotMadeUp(addrSize, btf, id, k);
    }
    if k: nat :| SizeAt(Plain(addrSize, btf), id, k) == Some(bytes) {
      SizeKept(addrSize, btf, id, k);
    }
  }

  // ----- sizes told from the BTF types -----

  lemma SizeIsUnique(table: Table, id: nat, a: nat, b: nat)
    requires SizeIs(table, id, a) && SizeIs(table, id, b)
    ensures a == b
  {
    var j: nat :| SizeAt(table, id, j) == Some(a);
    var k: nat :| SizeAt(table, id, k) == Some(b);
    SizeMonotone(table, id, j, j + k);
    SizeMonotone(table, id, k, j + k);
  }

  /** The size of a type, given what `table` says of the sizes of the types it refers to. */
  ghost predicate SizeRule(addrSize: nat, t: B.Type, table: Table, bytes: nat) {
    match t
    case Int(_, size, _) => bytes == size
    case Float(_, size) => bytes == size
    case Enum(_, size, _) => bytes == if size == 0 then 4 else size
    case Enum64(_, size, _, _) => bytes == if size == 0 then 4 else size
    case Composite(_, _, size, members) => bytes == if size == 1 && members == [] then 0 else size
    case Fwd(_, _) => bytes == 0
    case FuncProto(_, _) => bytes == addrSize
    case Ref(kind, target) => if kind == B.Pointer then bytes == addrSize else SizeIs(table, target, bytes)
    case Typedef(_, target) => SizeIs(table, target, bytes)
    case TypeTag(_, target) => SizeIs(table, target, bytes)
    case Array(elem, _, nelems) => exists size: nat :: SizeIs(table, elem, size) && bytes == size * nelems % SIZE_T
    case _ => false
  }

  /** One step, in the table without absorption. */
  lemma PlainSize(addrSize: nat, btf: seq<B.Type>, id: nat, bytes: nat)
    requires 0 < id <= |btf|
    ensures SizeIs(Plain(addrSize, btf), id, bytes) <==> SizeRule(addrSize, B.TypeById(btf, id), Plain(addrSize, btf), bytes)
  {
    hide Plain;
    PlainAt(addrSize, btf, id);
    var table, t := Plain(addrSize, btf), B.TypeById(btf, id);
    if t.Array? {
      PlainArraySize(table, id, t.elem, t.nelems, bytes);
    } else if Direct(addrSize, t).Some? && Direct(addrSize, t).value.Through? {
      ThroughSize(table, id, Direct(addrSize, t).value.ref, bytes);
    } else if Direct(addrSize, t).Some? {
      assert SizeAt(table, id, 1) == Some(Direct(addrSize, t).value.bytes);
    }
  }

  lemma ThroughSize(table: Table, id: nat, target: nat, bytes: nat)
    requires At(table, id) == Some(Through(target))
    ensures SizeIs(table, id, bytes) <==> SizeIs(table, target, bytes)
  {
    if k: nat :| SizeAt(table, id, k) == Some(bytes) {
      assert SizeAt(table, target, k - 1) == Some(bytes);
    }
    if k: nat :| SizeAt(table, target, k) == Some(bytes) {
      assert SizeAt(table, id, k + 1) == Some(bytes);
    }
  }

  lemma PlainArraySize(table: Table, id: nat, elem: nat, nelems: nat, bytes: nat)
    requires At(table, id) == Some(Array(elem, [nelems]))
    ensures SizeIs(table, id, bytes) <==> exists size: nat :: SizeIs(table, elem, size) && bytes == size * nelems % SIZE_T
  {
    if k: nat :| SizeAt(table, id, k) == Some(bytes) {
      var size := SizeAt(table, elem, k - 1);
      assert size.Some?;
      TimesOne(size.value, nelems);
      assert SizeIs(table, elem, size.value);
    }
    if size: nat :| SizeIs(table, elem, size) && bytes == size * nelems % SIZE_T {
      var k: nat :| SizeAt(table, elem, k) == Some(size);
      TimesOne(size, nelems);
      assert SizeAt(table, id, k + 1) == Some(bytes);
    }
  }

  lemma TimesOne(size: nat, n: nat)
    ensures Times(Some(size), [n]) == Some(size * n % SIZE_T)
  {
    assert Product([n]) == n * Product([]) == n;
    TimesValue(size, n);
  }

  /**
   The sizes of the loaded table, type by type: numbers, enumerations and structs have their own (an empty
   struct of one byte none), pointers and prototypes an address, typedefs, qualifiers and type tags their
   target's, arrays their element's so many times over, in machine words; nothing else has one.
   */
  lemma SizeLaw(addrSize: nat, btf: seq<B.Type>, id: nat, bytes: nat)
    ensures SizeIs(Load(addrSize, btf), id, bytes) <==>
            0 < id <= |btf| && SizeRule(addrSize, B.TypeById(btf, id), Load(addrSize, btf), bytes)
  {
    hide Load, Plain, SizeIs;
    if 0 < id <= |btf| {
      var t := B.TypeById(btf, id);
      SizesAgree(addrSize, btf, id, bytes);
      PlainSize(addrSize, btf, id, bytes);
      forall r: nat, b: nat ensures SizeIs(Load(addrSize, btf), r, b) <==> SizeIs(Plain(addrSize, btf), r, b) {
        SizesAgree(addrSize, btf, r, b);
      }
    } else {
      NoSize(addrSize, btf, id);
    }
  }

  lemma NoSize(addrSize: nat, btf: seq<B.Type>, id: nat)
    requires id == 0 || id > |btf|
    ensures forall bytes :: !SizeIs(Load(addrSize, btf), id, bytes)
  {
    hide Load;
    LoadVoid(addrSize, btf);
    assert forall k: nat :: SizeAt(Load(addrSize, btf), id, k) == None;
  }
}
