/**
 Which BTF ids a CU's types get, before any is emitted, and what the emitted types are.
 The main result: the emitted graph means what the types table means.
 */
module BtfIds {
  import opened Wrappers
  import opened Dwarf
  import B = Btf

  /** How many BTF ids a tag takes. */
  function NrIds(t: Tag): nat {
    if t.Unspecified? then 0
    else if t.ArrayTag? then (if |t.dims| < 1 then 1 else |t.dims|)
    else 1
  }

  function EntryIds(e: Option<Tag>): nat {
    if e.None? then 0 else NrIds(e.value)
  }

  /** Ids taken by the entries 1 .. n-1. */
  ghost function IdsBefore(table: Table, n: nat): nat
    requires n <= |table|
  {
    if n <= 1 then 0 else IdsBefore(table, n - 1) + EntryIds(table[n - 1])
  }

  /** The id of entry `c` of a CU encoded after `off` types: its last one; 0 when it takes none. */
  ghost function MapId(table: Table, off: nat, c: nat): nat
    requires c < |table|
  {
    if c == 0 || EntryIds(table[c]) == 0 then 0 else off + IdsBefore(table, c + 1)
  }

  ghost function MapIds(table: Table, off: nat, refs: seq<nat>): seq<nat>
    requires forall r :: r in refs ==> r < |table|
  {
    seq(|refs|, k requires 0 <= k < |refs| => assert refs[k] in refs; MapId(table, off, refs[k]))
  }

  lemma {:induction false} IdsBeforeMonotone(table: Table, m: nat, n: nat)
    requires m <= n <= |table|
    ensures IdsBefore(table, m) <= IdsBefore(table, n)
  {
    if m < n {
      IdsBeforeMonotone(table, m, n - 1);
    }
  }

  /** One BTF array per dimension, innermost first; `next` is the id the first one gets. */
  function EmitArray(dims: seq<nat>, elem: nat, index: nat, next: nat): (r: seq<B.Type>)
    requires dims != []
    ensures |r| == |dims|
  {
    if |dims| == 1 then [B.Array(elem, index, dims[0])]
    else
      EmitArray(dims[1..], elem, index, next) + [B.Array(next + |dims| - 2, index, dims[0])]
  }

  function EmitMembers(ms: seq<B.Member>, refs: seq<nat>): seq<B.Member>
    requires |refs| == |ms|
  {
    seq(|ms|, k requires 0 <= k < |ms| => ms[k].(ref := refs[k]))
  }

  function EmitParams(ps: seq<B.Param>, refs: seq<nat>): seq<B.Param>
    requires |refs| == |ps|
  {
    seq(|ps|, k requires 0 <= k < |ps| => ps[k].(ref := refs[k]))
  }

  /** The type a tag other than an array becomes, its references already translated to `refs`. */
  function EmitOne(cfg: Config, t: Tag, refs: seq<nat>): B.Type
    requires !t.ArrayTag? && !t.Unspecified? && Head(cfg, t).Some? && |refs| == |TagRefs(t)|
  {
    match t
    case BaseType(_, _, _, _, _) => BaseToBtf(cfg, t).value
    case RefTag(kind, _) => B.Ref(kind, refs[0])
    case TypedefTag(name, _) => B.Typedef(name, refs[0])
    case Annotation(value, _) => B.TypeTag(value, refs[0])
    case ClassTag(form, name, declaration, size, members) =>
      if declaration then B.Fwd(name, form == Union) else B.Composite(form == Union, name, size, EmitMembers(members, refs))
    case EnumTag(name, bits, signed, values) =>
      if IsEnum32(cfg, bits) then B.Enum(name, RoundupBytes(bits), EnumValues(cfg, values))
      else B.Enum64(name, RoundupBytes(bits), signed, values)
    case Subroutine(_, params, unspec) =>
      B.FuncProto(refs[0], EmitParams(params, refs[1..|params| + 1]) + (if unspec then [B.Param("", 0)] else []))
  }

  lemma EmitMembersMeans(ms: seq<B.Member>, refs: seq<nat>)
    requires |refs| == |ms|
    ensures B.MemberLabels(EmitMembers(ms, refs)) == B.MemberLabels(ms)
    ensures B.MemberRefs(EmitMembers(ms, refs)) == refs
  {
  }

  lemma EmitParamsMeans(ps: seq<B.Param>, refs: seq<nat>)
    requires |refs| == |ps|
    ensures B.ParamLabels(EmitParams(ps, refs)) == B.ParamLabels(ps)
    ensures B.ParamRefs(EmitParams(ps, refs)) == refs
  {
  }

  lemma ProtoMeans(params: seq<B.Param>, unspec: bool, refs: seq<nat>)
    requires |refs| == |params| + (if unspec then 2 else 1)
    requires unspec ==> refs[|params| + 1] == 0
    ensures var ps := EmitParams(params, refs[1..|params| + 1]) + (if unspec then [B.Param("", 0)] else []);
            && B.ParamLabels(ps) == B.ParamLabels(params) + (if unspec then [""] else [])
            && [refs[0]] + B.ParamRefs(ps) == refs
  {
    var es := EmitParams(params, refs[1..|params| + 1]);
    EmitParamsMeans(params, refs[1..|params| + 1]);
    if unspec {
      var ps := es + [B.Param("", 0)];
      assert B.ParamLabels(ps) == B.ParamLabels(es) + [""];
      assert B.ParamRefs(ps) == B.ParamRefs(es) + [0];
    } else {
      assert es + [] == es;
      assert B.ParamLabels(params) + [] == B.ParamLabels(params);
    }
  }

  /** The emitted type has the tag's head and the translated references. */
  lemma EmitOneMeans(cfg: Config, t: Tag, refs: seq<nat>)
    requires !t.ArrayTag? && !t.Unspecified? && Head(cfg, t).Some? && |refs| == |TagRefs(t)|
    requires t.Subroutine? && t.unspec ==> refs[|refs| - 1] == 0
    ensures B.LabelOf(EmitOne(cfg, t, refs)) == Head(cfg, t).value
    ensures B.Refs(EmitOne(cfg, t, refs)) == refs
  {
    if t.Subroutine? {
      EmitProtoMeans(cfg, t, refs);
    } else {
      EmitOtherMeans(cfg, t, refs);
    }
  }

  lemma EmitProtoMeans(cfg: Config, t: Tag, refs: seq<nat>)
    requires t.Subroutine? && |refs| == |TagRefs(t)| && (t.unspec ==> refs[|refs| - 1] == 0)
    ensures B.LabelOf(EmitOne(cfg, t, refs)) == Head(cfg, t).value && B.Refs(EmitOne(cfg, t, refs)) == refs
  {
    hide EmitParams, B.ParamLabels, B.MemberLabels, EnumValues;
    ProtoMeans(t.params, t.unspec, refs);
  }

  lemma EmitOtherMeans(cfg: Config, t: Tag, refs: seq<nat>)
    requires !t.ArrayTag? && !t.Unspecified? && !t.Subroutine? && Head(cfg, t).Some? && |refs| == |TagRefs(t)|
    ensures B.LabelOf(EmitOne(cfg, t, refs)) == Head(cfg, t).value && B.Refs(EmitOne(cfg, t, refs)) == refs
  {
    hide EmitMembers, EmitParams, B.MemberLabels, B.ParamLabels, EnumValues;
    if t.ClassTag? && !t.declaration {
      EmitMembersMeans(t.members, refs);
    }
  }

  /** The outermost array of an emitted chain, and the chain below it. */
  lemma ChainTop(btf: seq<B.Type>, dims: seq<nat>, elem: nat, index: nat, next: nat)
    requires dims != [] && 0 < next && next - 1 + |dims| <= |btf|
    requires btf[next - 1..next - 1 + |dims|] == EmitArray(dims, elem, index, next)
    ensures B.TypeById(btf, next + |dims| - 1) ==
            B.Array(if |dims| == 1 then elem else next + |dims| - 2, index, dims[0])
    ensures |dims| > 1 ==> btf[next - 1..next - 1 + |dims[1..]|] == EmitArray(dims[1..], elem, index, next)
  {
    var chain := EmitArray(dims, elem, index, next);
    assert B.TypeById(btf, next + |dims| - 1) == btf[next - 1..next - 1 + |dims|][|dims| - 1] == chain[|dims| - 1];
    if |dims| > 1 {
      assert btf[next - 1..next - 1 + |dims| - 1] == chain[..|dims| - 1];
    }
  }

  lemma PrefixSlice<T>(a: seq<T>, b: seq<T>, i: nat, j: nat)
    requires i <= j <= |a|
    ensures (a + b)[i..j] == a[i..j]
  {
  }

  lemma SubSlice(btf: seq<B.Type>, off: nat, n: nat, a: nat, b: nat)
    requires a <= b <= n && off + n <= |btf|
    ensures btf[off..off + n][a..b] == btf[off + a..off + b]
  {
    var l, r := btf[off..off + n][a..b], btf[off + a..off + b];
    assert |l| == |r|;
    assert forall i :: 0 <= i < |l| ==> l[i] == r[i];
  }

  /** Is one of the entries 1 .. n-1 an array? */
  ghost predicate HasArray(table: Table, n: nat)
    requires n <= |table|
  {
    n > 1 && (HasArray(table, n - 1) || (table[n - 1].Some? && table[n - 1].value.ArrayTag?))
  }

  lemma {:induction false} HasArrayAt(table: Table, n: nat, c: nat)
    requires 0 < c < n <= |table| && table[c].Some? && table[c].value.ArrayTag?
    ensures HasArray(table, n)
  {
    if c + 1 < n {
      HasArrayAt(table, n - 1, c);
    }
  }

  // ----- a whole CU -----

  /** A CU encoded on top of `off` types, arrays indexed by type `index`. */
  datatype Unit = Unit(cfg: Config, table: Table, off: nat, index: nat) {
    ghost predicate Valid() {
      Closed(table) && AllEncodable(cfg, table)
    }

    ghost function Map(c: nat): nat
      requires c < |table|
    {
      MapId(table, off, c)
    }

    ghost function MapRefs(c: nat): (r: seq<nat>)
      requires Valid() && 0 < c < |table| && table[c].Some?
      ensures |r| == |TagRefs(table[c].value)|
    {
      MapIds(table, off, TagRefs(table[c].value))
    }

    /** The types entry `c` becomes. */
    ghost function Emit(c: nat): (r: seq<B.Type>)
      requires Valid() && 0 < c < |table|
      ensures |r| == EntryIds(table[c])
    {
      if EntryIds(table[c]) == 0 then []
      else if table[c].value.ArrayTag? then
        EmitArray(Dims(table[c].value.dims), MapRefs(c)[0], index, off + IdsBefore(table, c) + 1)
      else [EmitOne(cfg, table[c].value, MapRefs(c))]
    }

    /** The types of the entries 1 .. n-1. */
    ghost function Types(n: nat): (r: seq<B.Type>)
      requires Valid() && n <= |table|
      ensures |r| == IdsBefore(table, n)
    {
      if n <= 1 then [] else Types(n - 1) + Emit(n - 1)
    }

    lemma {:induction false} TypesSlice(n: nat, c: nat)
      requires Valid() && 0 < c < n <= |table|
      ensures IdsBefore(table, c) + EntryIds(table[c]) == IdsBefore(table, c + 1) <= IdsBefore(table, n)
      ensures Types(n)[IdsBefore(table, c)..IdsBefore(table, c + 1)] == Emit(c)
    {
      hide Closed, AllEncodable, Emit;
      assert Types(n) == Types(n - 1) + Emit(n - 1);
      if c + 1 < n {
        TypesSlice(n - 1, c);
        PrefixSlice(Types(n - 1), Emit(n - 1), IdsBefore(table, c), IdsBefore(table, c + 1));
      }
    }

    /** `btf` contains this CU's types where they belong, and the array index type. */
    ghost predicate EmittedIn(btf: seq<B.Type>, head: B.Label) {
      && Valid() && off + IdsBefore(table, |table|) <= |btf|
      && btf[off..off + IdsBefore(table, |table|)] == Types(|table|)
      && (HasArray(table, |table|) ==> IndexIn(btf, head))
    }

    /** The array index type is there, with head `head`. */
    ghost predicate IndexIn(btf: seq<B.Type>, head: B.Label) {
      0 < index <= |btf| && B.LabelOf(B.TypeById(btf, index)) == head && B.Refs(B.TypeById(btf, index)) == []
    }

    lemma EntrySlice(btf: seq<B.Type>, head: B.Label, c: nat)
      requires EmittedIn(btf, head) && 0 < c < |table|
      ensures off + IdsBefore(table, c + 1) <= |btf| && IdsBefore(table, c) + EntryIds(table[c]) == IdsBefore(table, c + 1)
      ensures btf[off + IdsBefore(table, c)..off + IdsBefore(table, c + 1)] == Emit(c)
    {
      hide Closed, AllEncodable, Encodable, MapIds, EmitOne, Head, TagRefs, BaseToBtf, B.LabelOf, B.Refs, Emit, Types, EntryIds;
      TypesSlice(|table|, c);
      SubSlice(btf, off, IdsBefore(table, |table|), IdsBefore(table, c), IdsBefore(table, c + 1));
    }

    /** The type of an entry that is neither void nor an array. */
    lemma OneAt(btf: seq<B.Type>, head: B.Label, c: nat)
      requires EmittedIn(btf, head) && c < |table| && !IsVoid(table, c) && !table[c].value.ArrayTag?
      ensures Head(cfg, table[c].value).Some?
      ensures 0 < Map(c) <= |btf| && B.TypeById(btf, Map(c)) == EmitOne(cfg, table[c].value, MapRefs(c))
    {
      hide Closed, AllEncodable, EmitOne, Head, TagRefs, EmitArray, MapIds, Types, IndexIn;
      EntrySlice(btf, head, c);
      OneMeans(c);
      var slice := btf[off + IdsBefore(table, c)..off + IdsBefore(table, c + 1)];
      assert |slice| == 1 && slice == [EmitOne(cfg, table[c].value, MapRefs(c))];
      assert Map(c) == off + IdsBefore(table, c + 1) == off + IdsBefore(table, c) + 1;
      assert slice[0] == btf[off + IdsBefore(table, c)] == B.TypeById(btf, Map(c));
    }

    /** The chain of an array. */
    lemma ChainAt(btf: seq<B.Type>, head: B.Label, c: nat)
      requires EmittedIn(btf, head) && c < |table| && !IsVoid(table, c) && table[c].value.ArrayTag?
      ensures table[c].value.ref < |table| && IndexIn(btf, head)
      ensures var dims, next := Dims(table[c].value.dims), off + IdsBefore(table, c) + 1;
              && Map(c) == next + |dims| - 1 <= |btf|
              && btf[next - 1..next - 1 + |dims|] == EmitArray(dims, Map(table[c].value.ref), index, next)
    {
      hide Closed, AllEncodable, EmitOne, Head, TagRefs, EmitArray, MapIds, Types, IndexIn;
      EntrySlice(btf, head, c);
      ElemRef(c);
      HasArrayAt(table, |table|, c);
    }

    /** The emitted graph means what the table means: every id, every depth, through any cycle. */
    lemma {:induction false} SameMeaning(btf: seq<B.Type>, head: B.Label, c: nat, k: nat)
      requires EmittedIn(btf, head) && c < |table|
      ensures B.Unfold(btf, Map(c), k) == Unfold(cfg, table, head, c, k)
      decreases k, 2
    {
      hide EmittedIn, IndexIn, Closed, AllEncodable, EmitOne, Head, BaseToBtf, B.LabelOf, B.Refs, EmitArray, IdsBefore, TagRefs;
      if k > 0 && !IsVoid(table, c) {
        var t := table[c].value;
        if t.ArrayTag? {
          ChainAt(btf, head, c);
          SameArray(btf, head, Dims(t.dims), t.ref, off + IdsBefore(table, c) + 1, k);
        } else {
          OneAt(btf, head, c);
          SameOne(btf, head, c, k);
        }
      }
    }

    lemma {:induction false} SameOne(btf: seq<B.Type>, head: B.Label, c: nat, k: nat)
      requires EmittedIn(btf, head) && 0 < c < |table| && !IsVoid(table, c) && !table[c].value.ArrayTag? && k > 0
      requires 0 < Map(c) <= |btf| && B.TypeById(btf, Map(c)) == EmitOne(cfg, table[c].value, MapRefs(c))
      ensures B.Unfold(btf, Map(c), k) == Unfold(cfg, table, head, c, k)
      decreases k, 1
    {
      hide B.LabelOf, B.Refs, Head, TagRefs, EmitOne, Closed, AllEncodable, BaseToBtf;
      OneMeans(c);
      SameRefs(btf, head, c, k);
      hide MapIds, EmittedIn;
    }

    lemma {:induction false} SameRefs(btf: seq<B.Type>, head: B.Label, c: nat, k: nat)
      requires Valid() && EmittedIn(btf, head) && 0 < c < |table| && table[c].Some? && k > 0
      ensures B.UnfoldAll(btf, MapRefs(c), k - 1) == UnfoldAll(cfg, table, head, TagRefs(table[c].value), k - 1)
      decreases k, 0
    {
      hide B.LabelOf, B.Refs, Head, TagRefs, EmitOne, AllEncodable, BaseToBtf, EmittedIn, Closed, MapIds;
      hide B.Unfold, Unfold, B.UnfoldAll, UnfoldAll, MapId;
      var refs, ids := TagRefs(table[c].value), MapRefs(c);
      var us, vs := B.UnfoldAll(btf, ids, k - 1), UnfoldAll(cfg, table, head, refs, k - 1);
      forall j | 0 <= j < |refs| ensures us[j] == vs[j] {
        RefAt(btf, head, c, j);
        SameMeaning(btf, head, refs[j], k - 1);
      }
    }

    lemma RefAt(btf: seq<B.Type>, head: B.Label, c: nat, j: nat)
      requires EmittedIn(btf, head) && 0 < c < |table| && table[c].Some? && j < |TagRefs(table[c].value)|
      ensures Valid() && TagRefs(table[c].value)[j] < |table|
      ensures MapRefs(c)[j] == Map(TagRefs(table[c].value)[j])
    {
      hide B.LabelOf, B.Refs, Head, TagRefs, EmitOne, AllEncodable;
      var refs := TagRefs(table[c].value);
      assert refs[j] in refs;
    }

    lemma ElemRef(c: nat)
      requires Valid() && 0 < c < |table| && table[c].Some? && table[c].value.ArrayTag?
      ensures |MapRefs(c)| == 1 && table[c].value.ref < |table| && MapRefs(c)[0] == Map(table[c].value.ref)
    {
      var refs := TagRefs(table[c].value);
      assert refs[0] in refs;
    }

    lemma OneMeans(c: nat)
      requires Valid() && 0 < c < |table| && !IsVoid(table, c) && !table[c].value.ArrayTag?
      ensures Head(cfg, table[c].value).Some?
      ensures var t := table[c].value;
              B.LabelOf(EmitOne(cfg, t, MapRefs(c))) == Head(cfg, t).value && B.Refs(EmitOne(cfg, t, MapRefs(c))) == MapRefs(c)
    {
      var t := table[c].value;
      var refs := TagRefs(t);
      if t.Subroutine? && t.unspec {
        assert refs[|refs| - 1] == 0;
        assert refs[|refs| - 1] in refs;
      }
      EmitOneMeans(cfg, t, MapRefs(c));
    }

    /** The outermost array of a chain, one step unfolded. */
    lemma ArrayTop(btf: seq<B.Type>, dims: seq<nat>, elem: nat, next: nat, k: nat)
      requires dims != [] && k > 0 && 0 < next && next - 1 + |dims| <= |btf|
      requires btf[next - 1..next - 1 + |dims|] == EmitArray(dims, elem, index, next)
      ensures var inner := if |dims| == 1 then elem else next + |dims| - 2;
              && B.Unfold(btf, next + |dims| - 1, k) == B.Node(B.LArray(dims[0]), [B.Unfold(btf, inner, k - 1), B.Unfold(btf, index, k - 1)])
              && (k == 1 ==> B.Unfold(btf, inner, k - 1) == B.Cut)
      ensures |dims| > 1 ==> btf[next - 1..next - 1 + |dims[1..]|] == EmitArray(dims[1..], elem, index, next)
    {
      hide B.LabelOf, B.Refs, B.UnfoldAll;
      ChainTop(btf, dims, elem, index, next);
      hide EmitArray;
      B.UnfoldOneArray(btf, next + |dims| - 1, k);
    }

    /** A chain of one-dimensional arrays means the multi-dimensional one. */
    lemma {:induction false} SameArray(btf: seq<B.Type>, head: B.Label, dims: seq<nat>, elem: nat, next: nat, k: nat)
      requires EmittedIn(btf, head) && IndexIn(btf, head) && dims != [] && elem < |table| && k > 0
      requires 0 < next && next - 1 + |dims| <= |btf|
      requires btf[next - 1..next - 1 + |dims|] == EmitArray(dims, Map(elem), index, next)
      ensures B.Unfold(btf, next + |dims| - 1, k) == UnfoldArray(cfg, table, head, dims, elem, k)
      decreases k, 0
    {
      hide B.LabelOf, B.Refs, EmittedIn, IndexIn, Closed, AllEncodable, EmitOne, Head, TagRefs, EmitArray, MapId, IdsBefore;
      hide B.Unfold, B.UnfoldAll, Unfold, UnfoldAll, UnfoldIndex;
      ArrayTop(btf, dims, Map(elem), next, k);
      if |dims| == 1 {
        SameMeaning(btf, head, elem, k - 1);
      } else if k > 1 {
        SameArray(btf, head, dims[1..], elem, next, k - 1);
      }
      SameIndex(btf, head, k - 1);
    }

    lemma SameIndex(btf: seq<B.Type>, head: B.Label, k: nat)
      requires IndexIn(btf, head)
      ensures B.Unfold(btf, index, k) == UnfoldIndex(head, k)
    {
    }

    // ----- the emitted types refer to nothing beyond this CU, except the index type -----

    ghost predicate RefsFine(types: seq<B.Type>) {
      forall t :: t in types ==> forall r :: r in B.Refs(t) ==>
        r <= off + IdsBefore(table, |table|) || (r == index && HasArray(table, |table|))
    }

    lemma MapBounded(c: nat)
      requires c < |table|
      ensures Map(c) <= off + IdsBefore(table, |table|)
    {
      IdsBeforeMonotone(table, c + 1, |table|);
    }

    lemma {:induction false} ArrayRefsFine(dims: seq<nat>, elem: nat, next: nat)
      requires dims != [] && HasArray(table, |table|)
      requires elem <= off + IdsBefore(table, |table|) && next + |dims| - 1 <= off + IdsBefore(table, |table|)
      ensures RefsFine(EmitArray(dims, elem, index, next))
    {
      if |dims| > 1 {
        ArrayRefsFine(dims[1..], elem, next);
      }
    }

    lemma EmitRefsFine(c: nat)
      requires Valid() && 0 < c < |table|
      ensures RefsFine(Emit(c))
    {
      hide Closed, AllEncodable, EmitOne, Head, EmitArray, MapIds, TagRefs, RefsFine, HasArray, IdsBefore, Unit.Map;
      if EntryIds(table[c]) == 0 {
        NoRefs();
      } else if table[c].value.ArrayTag? {
        ArrayEntryFine(c);
      } else {
        OneEntryFine(c);
      }
    }

    lemma NoRefs()
      ensures RefsFine([])
    {
    }

    lemma ArrayEntryFine(c: nat)
      requires Valid() && 0 < c < |table| && table[c].Some? && table[c].value.ArrayTag?
      ensures RefsFine(EmitArray(Dims(table[c].value.dims), MapRefs(c)[0], index, off + IdsBefore(table, c) + 1))
    {
      hide Closed, AllEncodable, EmitArray, MapId, MapIds, TagRefs, RefsFine;
      TypesSlice(|table|, c);
      IdsBeforeMonotone(table, c + 1, |table|);
      ElemRef(c);
      MapBounded(table[c].value.ref);
      HasArrayAt(table, |table|, c);
      ArrayRefsFine(Dims(table[c].value.dims), MapRefs(c)[0], off + IdsBefore(table, c) + 1);
    }

    lemma OneEntryFine(c: nat)
      requires Valid() && 0 < c < |table| && !IsVoid(table, c) && !table[c].value.ArrayTag?
      ensures Head(cfg, table[c].value).Some? && RefsFine([EmitOne(cfg, table[c].value, MapRefs(c))])
    {
      hide Closed, AllEncodable, EmitOne, Head, MapId, MapIds, TagRefs, HasArray, IdsBefore;
      OneMeans(c);
      RefsBounded(c);
    }

    lemma RefsBounded(c: nat)
      requires Valid() && 0 < c < |table| && table[c].Some?
      ensures forall r :: r in MapRefs(c) ==> r <= off + IdsBefore(table, |table|)
    {
      hide TagRefs, AllEncodable, Closed, IdsBefore, MapIds;
      forall r | r in MapRefs(c) ensures r <= off + IdsBefore(table, |table|) {
        var j :| 0 <= j < |MapRefs(c)| && MapRefs(c)[j] == r;
        RefBounded(c, j);
      }
    }

    lemma RefBounded(c: nat, j: nat)
      requires Valid() && 0 < c < |table| && table[c].Some? && j < |TagRefs(table[c].value)|
      ensures MapRefs(c)[j] <= off + IdsBefore(table, |table|)
    {
      hide TagRefs, AllEncodable;
      var refs := TagRefs(table[c].value);
      assert refs[j] in refs;
      MapBounded(refs[j]);
    }

    lemma {:induction false} TypesRefsFine(n: nat)
      requires Valid() && n <= |table|
      ensures RefsFine(Types(n))
    {
      hide B.Refs, Emit;
      if n > 1 {
        TypesRefsFine(n - 1);
        EmitRefsFine(n - 1);
      }
    }
  }
}
