/** What BTF type each tag of a types table becomes, told field by field. */
module BtfForms {
  import opened Wrappers
  import opened Dwarf
  import opened BtfIds
  import B = Btf

  /** Where a reference of the table leads: void stays void. */
  function To(ids: seq<nat>, r: nat): nat {
    if 0 < r < |ids| then ids[r] else 0
  }

  /** The least number of bytes that holds so many bits. */
  predicate Holds(bytes: nat, bits: nat) {
    bits <= 8 * bytes < bits + 8
  }

  /** `b` is what a tag becomes that is neither an array nor passed over, `ids` being where the entries of the table went. */
  ghost predicate Formed(cfg: Config, t: Tag, b: B.Type, ids: seq<nat>)
  {
    match t
    case BaseType(name, bits, signed, isBool, floatType) =>
      if cfg.genFloats && floatType != 0 && !signed && !isBool
      then b.Float? && b.name == name && Holds(b.size, bits) && floatType in {1, 2, 6}
      else
        && b.Int? && b.encoding == (if signed then 1 else if isBool then 4 else 0)
        && if exists s :: s in {1, 2, 4, 8, 16} && Holds(s, bits)
           then b.name == name && Holds(b.size, bits)
           else b.name == "__SANITIZED_FAKE_INT__" && b.size == 4
    case RefTag(kind, r) => b == B.Ref(kind, To(ids, r))
    case TypedefTag(name, r) => b == B.Typedef(name, To(ids, r))
    case Annotation(value, r) => b == B.TypeTag(value, To(ids, r))
    case ClassTag(form, name, declaration, size, members) =>
      if declaration then b == B.Fwd(name, form == Union)
      else
        && b.Composite? && b.isUnion == (form == Union) && b.name == name && b.size == size && |b.members| == |members|
        && forall k :: 0 <= k < |members| ==>
             b.members[k] == B.Member(members[k].name, To(ids, members[k].ref), members[k].bitfieldSize, members[k].bitOffset)
    case EnumTag(name, bits, signed, values) =>
      if bits <= 32 || cfg.skipEnum64
      then
        && b.Enum? && b.name == name && Holds(b.size, bits) && |b.values| == |values|
        && forall k :: 0 <= k < |values| ==> b.values[k].name == values[k].name && SameValue(cfg.skipEnum64, b.values[k].value, values[k].value)
      else b.Enum64? && b.name == name && Holds(b.size, bits) && b.signed == signed && b.values == values
    case Subroutine(ret, params, unspec) =>
      && b.FuncProto? && b.ret == To(ids, ret) && |b.params| == |params| + (if unspec then 1 else 0)
      && (forall k :: 0 <= k < |params| ==>
            b.params[k] == B.Param(params[k].name, To(ids, params[k].ref)))
      && (unspec ==> b.params[|params|] == B.Param("", 0))
    case _ => false
  }

  /** An enumerator's value: as it is, or cut to 32 bits. */
  predicate SameValue(cut: bool, written: int, value: int) {
    if cut then 0 <= written < 0x1_0000_0000 && (written - value) % 0x1_0000_0000 == 0 else written == value
  }

  lemma RoundedHolds(bits: nat)
    ensures Holds(RoundupBytes(bits), bits)
    ensures forall s: nat :: Holds(s, bits) ==> s == RoundupBytes(bits)
  {
  }

  /** The references translated one by one. */
  ghost predicate Translated(t: Tag, refs: seq<nat>, ids: seq<nat>) {
    |refs| == |TagRefs(t)| && forall k :: 0 <= k < |refs| ==> refs[k] == To(ids, TagRefs(t)[k])
  }

  /** What is emitted for a tag is what it should become. */
  lemma EmitOneFormed(cfg: Config, t: Tag, refs: seq<nat>, ids: seq<nat>)
    requires !t.ArrayTag? && !t.Unspecified? && Head(cfg, t).Some? && Translated(t, refs, ids)
    ensures Formed(cfg, t, EmitOne(cfg, t, refs), ids)
  {
    match t
    case BaseType(_, _, _, _, _) => NumberFormed(cfg, t, refs, ids);
    case EnumTag(_, bits, _, _) => RoundedHolds(bits);
    case ClassTag(_, _, declaration, _, members) =>
      if !declaration {
        assert forall k :: 0 <= k < |members| ==> TagRefs(t)[k] == members[k].ref;
      }
    case Subroutine(_, _, _) => ProtoFormed(cfg, t, refs, ids);
    case _ =>
  }

  lemma NumberFormed(cfg: Config, t: Tag, refs: seq<nat>, ids: seq<nat>)
    requires t.BaseType? && Head(cfg, t).Some? && |refs| == |TagRefs(t)|
    ensures Formed(cfg, t, EmitOne(cfg, t, refs), ids)
  {
    hide RoundupBytes;
    RoundedHolds(t.bits);
  }

  lemma ProtoFormed(cfg: Config, t: Tag, refs: seq<nat>, ids: seq<nat>)
    requires t.Subroutine? && Translated(t, refs, ids)
    ensures Formed(cfg, t, EmitOne(cfg, t, refs), ids)
  {
    assert TagRefs(t)[0] == t.ret;
    assert forall k :: 0 <= k < |t.params| ==> TagRefs(t)[k + 1] == t.params[k].ref;
    var b := EmitOne(cfg, t, refs);
    assert forall k :: 0 <= k < |t.params| ==> refs[1..|t.params| + 1][k] == To(ids, t.params[k].ref);
  }

  /** Which tags cannot be written: a form the encoder has no case for, or a float that is not a plain one. */
  lemma EncodableExactly(cfg: Config, t: Tag)
    ensures Encodable(cfg, t) <==>
            !t.Unsupported? && !(t.BaseType? && cfg.genFloats && !t.signed && !t.isBool && t.floatType !in {0, 1, 2, 6})
  {
  }

  // ----- arrays -----

  /** The node of dimension `k`, `last` being the id of the outermost one: its element is the next inner node or the array's own. */
  ghost predicate NodeAt(dims: seq<nat>, elem: nat, btf: seq<B.Type>, last: nat, k: nat)
    requires k < last <= |btf|
  {
    var node := btf[last - 1 - k];
    && node.Array? && node.nelems == (if k < |dims| then dims[k] else 0)
    && node.elem == if k + 1 < |dims| then last - 1 - k else elem
  }

  /** One node per dimension; an array without any counts as one of no elements. */
  ghost predicate ArrayFormed(dims: seq<nat>, elem: nat, btf: seq<B.Type>, last: nat) {
    var n := if dims == [] then 1 else |dims|;
    n <= last <= |btf| && forall k: nat :: k < n ==> NodeAt(dims, elem, btf, last, k)
  }

  lemma {:induction false} EmitArrayAt(dims: seq<nat>, elem: nat, index: nat, next: nat, k: nat)
    requires k < |dims| && next > 0
    ensures EmitArray(dims, elem, index, next)[|dims| - 1 - k] ==
            B.Array(if k == |dims| - 1 then elem else next + |dims| - 2 - k, index, dims[k])
  {
    if k > 0 {
      EmitArrayAt(dims[1..], elem, index, next, k - 1);
    }
  }

  lemma EmitArrayFormed(btf: seq<B.Type>, dims: seq<nat>, elem: nat, index: nat, next: nat)
    requires next > 0 && next - 1 + |Dims(dims)| <= |btf|
    requires btf[next - 1..next - 1 + |Dims(dims)|] == EmitArray(Dims(dims), elem, index, next)
    ensures ArrayFormed(dims, elem, btf, next + |Dims(dims)| - 1)
  {
    hide EmitArray;
    var n, last := |Dims(dims)|, next + |Dims(dims)| - 1;
    forall k: nat | k < n ensures NodeAt(dims, elem, btf, last, k) {
      EmitArrayAt(Dims(dims), elem, index, next, k);
      assert btf[last - 1 - k] == btf[next - 1..last][n - 1 - k];
    }
  }

  // ----- a whole table -----

  /** The entry has its type, or its chain of arrays, at its id; holes and unspecified types have none. */
  ghost predicate EntryFormed(cfg: Config, table: Table, btf: seq<B.Type>, ids: seq<nat>, c: nat)
    requires c < |table| == |ids|
  {
    if table[c].None? || table[c].value.Unspecified? then ids[c] == 0
    else
      && 0 < ids[c] <= |btf|
      && if table[c].value.ArrayTag? then ArrayFormed(table[c].value.dims, To(ids, table[c].value.ref), btf, ids[c])
         else Formed(cfg, table[c].value, btf[ids[c] - 1], ids)
  }

  ghost predicate AllFormed(cfg: Config, table: Table, btf: seq<B.Type>, ids: seq<nat>) {
    |ids| == |table| && forall c: nat :: 0 < c < |table| ==> EntryFormed(cfg, table, btf, ids, c)
  }

  lemma EntryIsFormed(u: Unit, btf: seq<B.Type>, head: B.Label, ids: seq<nat>, c: nat)
    requires u.EmittedIn(btf, head) && |ids| == |u.table| && forall k :: 0 <= k < |ids| ==> ids[k] == u.Map(k)
    requires 0 < c < |u.table| && !IsVoid(u.table, c)
    ensures EntryFormed(u.cfg, u.table, btf, ids, c)
  {
    hide Unit.IndexIn, EmitOne, EmitArray, Head, Formed, ArrayFormed, Closed, AllEncodable, MapId, TagRefs;
    var t := u.table[c].value;
    MapsVoid(u);
    if t.ArrayTag? {
      u.ChainAt(btf, head, c);
      EmitArrayFormed(btf, t.dims, u.Map(t.ref), u.index, u.off + IdsBefore(u.table, c) + 1);
    } else {
      u.OneAt(btf, head, c);
      forall k | 0 <= k < |TagRefs(t)| ensures u.MapRefs(c)[k] == To(ids, TagRefs(t)[k]) {
        u.RefAt(btf, head, c, k);
      }
      EmitOneFormed(u.cfg, t, u.MapRefs(c), ids);
    }
  }

  lemma MapsVoid(u: Unit)
    ensures u.table != [] ==> u.Map(0) == 0
    ensures forall c :: 0 < c < |u.table| && IsVoid(u.table, c) ==> u.Map(c) == 0
  {
  }

  lemma UnitFormed(u: Unit, btf: seq<B.Type>, head: B.Label, ids: seq<nat>)
    requires u.EmittedIn(btf, head) && |ids| == |u.table| && forall k :: 0 <= k < |ids| ==> ids[k] == u.Map(k)
    ensures AllFormed(u.cfg, u.table, btf, ids)
  {
    hide Unit.EmittedIn, Formed, ArrayFormed, MapId;
    MapsVoid(u);
    forall c: nat | 0 < c < |u.table| ensures EntryFormed(u.cfg, u.table, btf, ids, c) {
      if !IsVoid(u.table, c) {
        EntryIsFormed(u, btf, head, ids, c);
      }
    }
  }

  lemma FormedStays(cfg: Config, table: Table, btf: seq<B.Type>, more: seq<B.Type>, ids: seq<nat>)
    requires AllFormed(cfg, table, btf, ids)
    ensures AllFormed(cfg, table, btf + more, ids)
  {
    hide Formed;
    forall c: nat | 0 < c < |table| ensures EntryFormed(cfg, table, btf + more, ids, c) {
      assert EntryFormed(cfg, table, btf, ids, c);
      if table[c].Some? && table[c].value.ArrayTag? {
        ArrayStays(table[c].value.dims, To(ids, table[c].value.ref), btf, more, ids[c]);
      }
    }
  }

  lemma ArrayStays(dims: seq<nat>, elem: nat, btf: seq<B.Type>, more: seq<B.Type>, last: nat)
    requires ArrayFormed(dims, elem, btf, last)
    ensures ArrayFormed(dims, elem, btf + more, last)
  {
    var n := if dims == [] then 1 else |dims|;
    forall k: nat | k < n ensures NodeAt(dims, elem, btf + more, last, k) {
      assert NodeAt(dims, elem, btf, last, k);
    }
  }
}
