/** The loader's per-CU types table, and what its entries mean in BTF's vocabulary. */
module Dwarf {
  import opened Wrappers
  import B = Btf

  /** DW_TAG_structure_type, DW_TAG_union_type, DW_TAG_class_type. */
  datatype ClassForm = Struct | Union | Class

  datatype Tag =
    | BaseType(name: string, bits: nat, signed: bool, isBool: bool, floatType: nat)
    | RefTag(kind: B.RefKind, ref: nat)
    | TypedefTag(name: string, ref: nat)
    | Annotation(value: string, ref: nat)
    | ClassTag(form: ClassForm, name: string, declaration: bool, size: nat, members: seq<B.Member>)
    | ArrayTag(ref: nat, dims: seq<nat>)
    | EnumTag(name: string, bits: nat, signed: bool, values: seq<B.Value>)
    | Subroutine(ret: nat, params: seq<B.Param>, unspec: bool)
    | Unspecified
    | Unsupported(tag: nat, ref: nat)

  /** Index 0 is void; None is a hole left by pruning. */
  type Table = seq<Option<Tag>>

  /** gen_floats and skip_encoding_btf_enum64. */
  datatype Config = Config(genFloats: bool, skipEnum64: bool)

  const FP_SINGLE := 1
  const FP_DOUBLE := 2
  const FP_LDBL := 6

  function RoundupBytes(bits: nat): nat {
    bits / 8 + (if bits % 8 != 0 then 1 else 0)
  }

  /** Integer sizes the kernel accepts. */
  predicate RegularIntSize(bytes: nat) {
    bytes in {1, 2, 4, 8, 16}
  }

  /** The BTF type for a base type; None for complex, interval and imaginary floats. */
  function BaseToBtf(cfg: Config, b: Tag): Option<B.Type>
    requires b.BaseType?
  {
    if !b.signed && !b.isBool && b.floatType != 0 && cfg.genFloats then
      if b.floatType in {FP_SINGLE, FP_DOUBLE, FP_LDBL} then Some(B.Float(b.name, RoundupBytes(b.bits))) else None
    else
      var encoding := if b.signed then B.INT_SIGNED else if b.isBool then B.INT_BOOL else 0;
      if RegularIntSize(RoundupBytes(b.bits)) then Some(B.Int(b.name, RoundupBytes(b.bits), encoding))
      else Some(B.Int("__SANITIZED_FAKE_INT__", 4, encoding))
  }

  /** How an enumerator's value is written, given whether 64-bit enums are off. */
  function EnumValues(cfg: Config, values: seq<B.Value>): (r: seq<B.Value>)
    ensures |r| == |values|
  {
    if cfg.skipEnum64
    then seq(|values|, k requires 0 <= k < |values| => values[k].(value := values[k].value % 0x1_0000_0000))
    else values
  }

  predicate IsEnum32(cfg: Config, bits: nat) {
    RoundupBytes(bits) <= 4 || cfg.skipEnum64
  }

  /** The head of a tag that is neither an array nor unspecified. */
  function Head(cfg: Config, t: Tag): Option<B.Label>
    requires !t.ArrayTag? && !t.Unspecified?
  {
    match t
    case BaseType(_, _, _, _, _) =>
      (match BaseToBtf(cfg, t)
       case Some(b) => Some(B.LabelOf(b))
       case None => None)
    case RefTag(kind, _) => Some(B.LRef(kind))
    case TypedefTag(name, _) => Some(B.LTypedef(name))
    case Annotation(value, _) => Some(B.LTypeTag(value))
    case ClassTag(form, name, declaration, size, members) =>
      if declaration then Some(B.LFwd(name, form == Union))
      else Some(B.LComposite(form == Union, name, size, B.MemberLabels(members)))
    case EnumTag(name, bits, signed, values) =>
      if IsEnum32(cfg, bits) then Some(B.LEnum(name, RoundupBytes(bits), EnumValues(cfg, values)))
      else Some(B.LEnum64(name, RoundupBytes(bits), signed, values))
    case Subroutine(_, params, unspec) =>
      Some(B.LFuncProto(B.ParamLabels(params) + (if unspec then [""] else [])))
    case Unsupported(_, _) => None
  }

  /** The table indices a tag refers to, in order. */
  function TagRefs(t: Tag): seq<nat> {
    match t
    case RefTag(_, r) => [r]
    case TypedefTag(_, r) => [r]
    case Annotation(_, r) => [r]
    case ClassTag(_, _, declaration, _, members) => if declaration then [] else B.MemberRefs(members)
    case ArrayTag(r, _) => [r]
    case Subroutine(r, params, unspec) => [r] + B.ParamRefs(params) + (if unspec then [0] else [])
    case _ => []
  }

  /** Malformed DWARF may give an array no dimension: it counts as one of no elements. */
  function Dims(dims: seq<nat>): (r: seq<nat>)
    ensures |r| > 0
  {
    if dims == [] then [0] else dims
  }

  /** Can this tag be written at all? */
  predicate Encodable(cfg: Config, t: Tag) {
    t.ArrayTag? || t.Unspecified? || Head(cfg, t).Some?
  }

  ghost predicate Closed(table: Table) {
    forall c :: 0 < c < |table| && table[c].Some? ==> forall r :: r in TagRefs(table[c].value) ==> r < |table|
  }

  ghost predicate AllEncodable(cfg: Config, table: Table) {
    forall c :: 0 < c < |table| && table[c].Some? ==> Encodable(cfg, table[c].value)
  }

  predicate IsVoid(table: Table, id: nat) {
    id == 0 || id >= |table| || table[id].None? || table[id].value.Unspecified?
  }

  /**
   What table entry `id` means, unfolded to depth `k`. Holes and unspecified types are void;
   a D-dimensional array is D nested one-dimensional ones, each indexed by a type with head `index`.
   */
  ghost function Unfold(cfg: Config, table: Table, index: B.Label, id: nat, k: nat): B.Meaning
    decreases k, 1
  {
    if k == 0 then B.Cut
    else if IsVoid(table, id) then B.Void
    else if table[id].value.ArrayTag? then
      UnfoldArray(cfg, table, index, Dims(table[id].value.dims), table[id].value.ref, k)
    else if Head(cfg, table[id].value).None? then B.Void
    else B.Node(Head(cfg, table[id].value).value, UnfoldAll(cfg, table, index, TagRefs(table[id].value), k - 1))
  }

  ghost function UnfoldArray(cfg: Config, table: Table, index: B.Label, dims: seq<nat>, elem: nat, k: nat): B.Meaning
    requires dims != []
    decreases k, 0
  {
    if k == 0 then B.Cut
    else
      var inner := if |dims| == 1 then Unfold(cfg, table, index, elem, k - 1)
                   else UnfoldArray(cfg, table, index, dims[1..], elem, k - 1);
      B.Node(B.LArray(dims[0]), [inner, UnfoldIndex(index, k - 1)])
  }

  ghost function UnfoldIndex(index: B.Label, k: nat): B.Meaning {
    if k == 0 then B.Cut else B.Node(index, [])
  }

  ghost function UnfoldAll(cfg: Config, table: Table, index: B.Label, ids: seq<nat>, k: nat): (r: seq<B.Meaning>)
    ensures |r| == |ids| && forall j :: 0 <= j < |ids| ==> r[j] == Unfold(cfg, table, index, ids[j], k)
    decreases k, 2, |ids|
  {
    if ids == [] then [] else [Unfold(cfg, table, index, ids[0], k)] + UnfoldAll(cfg, table, index, ids[1..], k)
  }
}
