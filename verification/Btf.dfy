/** BTF as libbpf hands it out: an append-only sequence of types, ids counting from 1, id 0 being void. */
module Btf {

  datatype Member = Member(name: string, ref: nat, bitfieldSize: nat, bitOffset: nat)
  datatype Param = Param(name: string, ref: nat)
  datatype Value = Value(name: string, value: int)

  datatype RefKind = Const | Pointer | Restrict | Volatile

  datatype Type =
    | Int(name: string, size: nat, encoding: nat)
    | Float(name: string, size: nat)
    | Ref(kind: RefKind, ref: nat)
    | Typedef(name: string, ref: nat)
    | TypeTag(name: string, ref: nat)
    | Fwd(name: string, isUnion: bool)
    | Array(elem: nat, index: nat, nelems: nat)
    | Composite(isUnion: bool, name: string, size: nat, members: seq<Member>)
    | Enum(name: string, size: nat, values: seq<Value>)
    | Enum64(name: string, size: nat, signed: bool, values: seq<Value>)
    | FuncProto(ret: nat, params: seq<Param>)
    | Var(name: string, linkage: nat, ref: nat)
    | DeclTag(name: string, component: int, ref: nat)
    | Other(what: nat, ref: nat) // any other kind: functions, sections

  const INT_SIGNED := 1
  const INT_BOOL := 4

  const KIND_VAR := 14
  const KIND_DECL_TAG := 17

  /** The type with this id; callers never ask for void or beyond the end. */
  function TypeById(btf: seq<Type>, id: nat): Type
    requires 0 < id <= |btf|
  {
    btf[id - 1]
  }

  function MemberRefs(members: seq<Member>): seq<nat> {
    seq(|members|, k requires 0 <= k < |members| => members[k].ref)
  }

  function ParamRefs(params: seq<Param>): seq<nat> {
    seq(|params|, k requires 0 <= k < |params| => params[k].ref)
  }

  /** The ids a type refers to, in order. */
  function Refs(t: Type): seq<nat> {
    match t
    case Ref(_, r) => [r]
    case Typedef(_, r) => [r]
    case TypeTag(_, r) => [r]
    case Array(e, i, _) => [e, i]
    case Composite(_, _, _, ms) => MemberRefs(ms)
    case FuncProto(r, ps) => [r] + ParamRefs(ps)
    case Var(_, _, r) => [r]
    case DeclTag(_, _, r) => [r]
    case Other(_, r) => [r]
    case _ => []
  }

  /** Everything about a type except which ids it refers to. */
  datatype Label =
    | LInt(name: string, size: nat, encoding: nat)
    | LFloat(name: string, size: nat)
    | LRef(kind: RefKind)
    | LTypedef(name: string)
    | LTypeTag(name: string)
    | LFwd(name: string, isUnion: bool)
    | LArray(nelems: nat)
    | LComposite(isUnion: bool, name: string, size: nat, members: seq<(string, nat, nat)>)
    | LEnum(name: string, size: nat, values: seq<Value>)
    | LEnum64(name: string, size: nat, signed: bool, values: seq<Value>)
    | LFuncProto(params: seq<string>)
    | LVar(name: string, linkage: nat)
    | LDeclTag(name: string, component: int)
    | LOther(what: nat)

  function MemberLabels(members: seq<Member>): seq<(string, nat, nat)> {
    seq(|members|, k requires 0 <= k < |members| => (members[k].name, members[k].bitfieldSize, members[k].bitOffset))
  }

  function ParamLabels(params: seq<Param>): seq<string> {
    seq(|params|, k requires 0 <= k < |params| => params[k].name)
  }

  function LabelOf(t: Type): Label {
    match t
    case Int(n, s, e) => LInt(n, s, e)
    case Float(n, s) => LFloat(n, s)
    case Ref(k, _) => LRef(k)
    case Typedef(n, _) => LTypedef(n)
    case TypeTag(n, _) => LTypeTag(n)
    case Fwd(n, u) => LFwd(n, u)
    case Array(_, _, n) => LArray(n)
    case Composite(u, n, s, ms) => LComposite(u, n, s, MemberLabels(ms))
    case Enum(n, s, vs) => LEnum(n, s, vs)
    case Enum64(n, s, g, vs) => LEnum64(n, s, g, vs)
    case FuncProto(_, ps) => LFuncProto(ParamLabels(ps))
    case Var(n, l, _) => LVar(n, l)
    case DeclTag(n, c, _) => LDeclTag(n, c)
    case Other(w, _) => LOther(w)
  }

  /** A type unfolded to a finite depth: what it means, however it is laid out in a table. */
  datatype Meaning = Cut | Void | Node(head: Label, kids: seq<Meaning>)

  /** Unfold the BTF graph from `id` to depth `k`. */
  ghost function Unfold(btf: seq<Type>, id: nat, k: nat): Meaning
    decreases k, 0
  {
    if k == 0 then Cut
    else if id == 0 || id > |btf| then Void
    else Node(LabelOf(TypeById(btf, id)), UnfoldAll(btf, Refs(TypeById(btf, id)), k - 1))
  }

  ghost function UnfoldAll(btf: seq<Type>, ids: seq<nat>, k: nat): (r: seq<Meaning>)
    ensures |r| == |ids| && forall j :: 0 <= j < |ids| ==> r[j] == Unfold(btf, ids[j], k)
    decreases k, 1, |ids|
  {
    if ids == [] then [] else [Unfold(btf, ids[0], k)] + UnfoldAll(btf, ids[1..], k)
  }

  /** No type refers beyond `n`. */
  ghost predicate RefsWithin(btf: seq<Type>, n: nat) {
    forall t :: t in btf ==> forall r :: r in Refs(t) ==> r <= n
  }

  lemma UnfoldOneArray(btf: seq<Type>, id: nat, k: nat)
    requires 0 < id <= |btf| && TypeById(btf, id).Array? && k > 0
    ensures var t := TypeById(btf, id);
            Unfold(btf, id, k) == Node(LArray(t.nelems), [Unfold(btf, t.elem, k - 1), Unfold(btf, t.index, k - 1)])
  {
    var t := TypeById(btf, id);
    var kids := UnfoldAll(btf, [t.elem, t.index], k - 1);
    assert kids == [kids[0], kids[1]];
  }

  lemma SameKids(a: seq<Type>, xs: seq<nat>, b: seq<Type>, ys: seq<nat>, k: nat)
    requires |xs| == |ys|
    requires forall j :: 0 <= j < |xs| ==> Unfold(a, xs[j], k) == Unfold(b, ys[j], k)
    ensures UnfoldAll(a, xs, k) == UnfoldAll(b, ys, k)
  {
    var us, vs := UnfoldAll(a, xs, k), UnfoldAll(b, ys, k);
    assert forall j :: 0 <= j < |us| ==> us[j] == vs[j];
  }

  lemma UnfoldStep(btf: seq<Type>, id: nat, k: nat)
    ensures Unfold(btf, id, k) ==
            if k == 0 then Cut
            else if id == 0 || id > |btf| then Void
            else Node(LabelOf(TypeById(btf, id)), UnfoldAll(btf, Refs(TypeById(btf, id)), k - 1))
  {
    hide LabelOf, Refs;
  }

  /** Appending types changes no meaning that was already there. */
  lemma {:induction false} UnfoldAppend(btf: seq<Type>, more: seq<Type>, id: nat, k: nat)
    requires RefsWithin(btf, |btf|) && id <= |btf|
    ensures Unfold(btf + more, id, k) == Unfold(btf, id, k)
    decreases k
  {
    hide LabelOf, Refs, Unfold, UnfoldAll;
    UnfoldStep(btf, id, k);
    UnfoldStep(btf + more, id, k);
    if k > 0 && id > 0 {
      var t := TypeById(btf, id);
      assert t in btf && TypeById(btf + more, id) == t;
      forall j | 0 <= j < |Refs(t)| ensures Unfold(btf + more, Refs(t)[j], k - 1) == Unfold(btf, Refs(t)[j], k - 1) {
        assert Refs(t)[j] in Refs(t);
        UnfoldAppend(btf, more, Refs(t)[j], k - 1);
      }
      SameKids(btf + more, Refs(t), btf, Refs(t), k - 1);
    }
  }
}
