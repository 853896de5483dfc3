/** types__match: loose equality of BTF types, and the normal form it decides. */
module TypesMatch {
  import opened Btf

  /** fwd__kind: kinds as the comparison sees them, a forward declaration being what it declares. */
  datatype Kind = KInt | KFloat | KRef(kind: RefKind) | KTypedef | KTypeTag | KStruct | KUnion | KArray | KEnum | KEnum64 | KProto | KOther(what: nat)

  function FwdKind(t: Type): Kind {
    match t
    case Int(_, _, _) => KInt
    case Float(_, _) => KFloat
    case Ref(k, _) => KRef(k)
    case Typedef(_, _) => KTypedef
    case TypeTag(_, _) => KTypeTag
    case Fwd(_, isUnion) => if isUnion then KUnion else KStruct
    case Array(_, _, _) => KArray
    case Composite(isUnion, _, _, _) => if isUnion then KUnion else KStruct
    case Enum(_, _, _) => KEnum
    case Enum64(_, _, _, _) => KEnum64
    case FuncProto(_, _) => KProto
    case Var(_, _, _) => KOther(KIND_VAR)
    case DeclTag(_, _, _) => KOther(KIND_DECL_TAG)
    case Other(what, _) => KOther(what)
  }

  function NameOf(t: Type): string {
    match t
    case Int(n, _, _) => n
    case Float(n, _) => n
    case Typedef(n, _) => n
    case TypeTag(n, _) => n
    case Fwd(n, _) => n
    case Composite(_, n, _, _) => n
    case Enum(n, _, _) => n
    case Enum64(n, _, _, _) => n
    case _ => ""
  }

  /** The references the comparison follows. */
  function Chain(t: Type): seq<nat> {
    match t
    case Ref(_, r) => [r]
    case TypeTag(_, r) => [r]
    case Array(e, _, _) => [e]
    case FuncProto(r, ps) => [r] + ParamRefs(ps)
    case _ => []
  }

  /** All references are inside the table and rank below `bound`. */
  ghost predicate Descends(refs: seq<nat>, rank: seq<nat>, bound: nat) {
    forall k :: 0 <= k < |refs| ==> refs[k] < |rank| && rank[refs[k]] < bound
  }

  /** A BTF object: its types, and its identity (two pointers are equal iff the tags are). */
  datatype Graph = Graph(tag: nat, types: seq<Type>, rank: seq<nat>) {
    /** Pointer, modifier, array and prototype chains end; `rank` witnesses it. */
    ghost predicate Valid() {
      && |rank| == |types| + 1
      && forall k :: 0 <= k < |types| ==> Descends(Chain(types[k]), rank, rank[k + 1])
    }

    function At(id: nat): Type
      requires 0 < id <= |types|
    {
      types[id - 1]
    }
  }

  /** Types up to what the comparison ignores. Constness survives only in front of void. */
  datatype Normal =
    | NVoid(consts: nat)
    | NInt(name: string, size: nat, encoding: nat)
    | NFloat(name: string, size: nat)
    | NNamed(kind: Kind, name: string)
    | NWrap(kind: Kind, inner: Normal)
    | NArray(nelems: nat, elem: Normal)
    | NProto(parts: seq<Normal>)
    | NOther(tag: nat, id: nat)

  ghost function Constant(n: Normal): Normal {
    if n.NVoid? then NVoid(n.consts + 1) else n
  }

  ghost function NF(g: Graph, id: nat): Normal
    requires g.Valid() && id <= |g.types|
    decreases g.rank[id], 1
  {
    if id == 0 then NVoid(0)
    else
      var t := g.At(id);
      assert Descends(Chain(g.types[id - 1]), g.rank, g.rank[id]);
      match t
      case Int(n, s, e) => NInt(n, s, e)
      case Float(n, s) => NFloat(n, s)
      case Ref(k, r) =>
        assert Chain(t)[0] == r;
        if k == Const then Constant(NF(g, r)) else NWrap(KRef(k), NF(g, r))
      case TypeTag(_, r) =>
        assert Chain(t)[0] == r;
        NWrap(KTypeTag, NF(g, r))
      case Array(e, _, n) =>
        assert Chain(t)[0] == e;
        NArray(n, NF(g, e))
      case FuncProto(_, _) => NProto(NFs(g, Chain(t), g.rank[id]))
      case Var(_, _, _) => NOther(g.tag, id)
      case DeclTag(_, _, _) => NOther(g.tag, id)
      case Other(_, _) => NOther(g.tag, id)
      case _ => NNamed(FwdKind(t), NameOf(t))
  }

  ghost function NFs(g: Graph, ids: seq<nat>, bound: nat): (r: seq<Normal>)
    requires g.Valid() && Descends(ids, g.rank, bound)
    ensures |r| == |ids| && forall k :: 0 <= k < |ids| ==> r[k] == NF(g, ids[k])
    decreases bound, 0, |ids|
  {
    if ids == [] then [] else
      assert forall k :: 0 <= k < |ids[1..]| ==> ids[1..][k] == ids[k + 1];
      [NF(g, ids[0])] + NFs(g, ids[1..], bound)
  }

  /** Only a run of consts ending in void is normalised to void. */
  lemma VoidOnlyByConst(g: Graph, id: nat)
    requires g.Valid() && id <= |g.types| && NF(g, id).NVoid?
    ensures id == 0 || g.At(id) == Ref(Const, g.At(id).ref)
    ensures id != 0 ==> NF(g, id).consts > 0
  {
  }

  /** Two graphs with the same tag are the same object. */
  ghost predicate SameObject(a: Graph, b: Graph) { a.tag == b.tag ==> a == b }

  /** Different kinds, the first being const: looking through it decides the same question. */
  lemma StripConst(a: Graph, i: nat, b: Graph, j: nat)
    requires a.Valid() && b.Valid() && 0 < i <= |a.types| && 0 < j <= |b.types|
    requires FwdKind(a.At(i)) == KRef(Const) != FwdKind(b.At(j))
    ensures a.At(i).ref <= |a.types| && a.rank[a.At(i).ref] < a.rank[i]
    ensures NF(a, i) == NF(b, j) <==> NF(a, a.At(i).ref) == NF(b, j)
  {
    assert Descends(Chain(a.types[i - 1]), a.rank, a.rank[i]);
    assert Chain(a.At(i))[0] == a.At(i).ref;
    if NF(b, j).NVoid? {
      VoidOnlyByConst(b, j);
    }
  }

  /** The normal form of a type with exactly one reference to follow. */
  lemma OneReference(g: Graph, i: nat)
    requires g.Valid() && 0 < i <= |g.types|
    requires g.At(i).Ref? || g.At(i).TypeTag? || g.At(i).Array?
    ensures |Chain(g.At(i))| == 1
    ensures var r := Chain(g.At(i))[0];
            && r <= |g.types| && g.rank[r] < g.rank[i]
            && NF(g, i) ==
               if g.At(i).Array? then NArray(g.At(i).nelems, NF(g, r))
               else if FwdKind(g.At(i)) == KRef(Const) then Constant(NF(g, r))
               else NWrap(FwdKind(g.At(i)), NF(g, r))
  {
    assert Descends(Chain(g.types[i - 1]), g.rank, g.rank[i]);
  }

  /** Same kind with one reference: the references decide, given that array lengths agree. */
  lemma FollowBoth(a: Graph, i: nat, b: Graph, j: nat)
    requires a.Valid() && b.Valid() && 0 < i <= |a.types| && 0 < j <= |b.types|
    requires FwdKind(a.At(i)) == FwdKind(b.At(j))
    requires a.At(i).Ref? || a.At(i).TypeTag? || (a.At(i).Array? && a.At(i).nelems == b.At(j).nelems)
    ensures |Chain(a.At(i))| == |Chain(b.At(j))| == 1
    ensures var r, s := Chain(a.At(i))[0], Chain(b.At(j))[0];
            && r <= |a.types| && s <= |b.types| && a.rank[r] < a.rank[i] && b.rank[s] < b.rank[j]
            && (NF(a, i) == NF(b, j) <==> NF(a, r) == NF(b, s))
  {
    hide NF;
    OneReference(a, i);
    OneReference(b, j);
  }

  /** Kinds that differ, with no const to look through, differ in normal form. */
  lemma KindsDiffer(a: Graph, i: nat, b: Graph, j: nat)
    requires a.Valid() && b.Valid() && 0 < i <= |a.types| && 0 < j <= |b.types|
    requires FwdKind(a.At(i)) != FwdKind(b.At(j))
    requires FwdKind(a.At(i)) != KRef(Const) && FwdKind(b.At(j)) != KRef(Const)
    requires SameObject(a, b)
    ensures NF(a, i) != NF(b, j)
  {
  }

  /** types__match decides equality of normal forms. */
  method Match(a: Graph, id1: nat, b: Graph, id2: nat) returns (matches: bool)
    requires a.Valid() && b.Valid() && SameObject(a, b) && id1 <= |a.types| && id2 <= |b.types|
    ensures matches <==> NF(a, id1) == NF(b, id2)
    decreases a.rank[id1] + b.rank[id2]
  {
    hide NF, Constant;
    var i: nat, j: nat := id1, id2;
    while true
      invariant i <= |a.types| && j <= |b.types|
      invariant a.rank[i] + b.rank[j] <= a.rank[id1] + b.rank[id2]
      invariant NF(a, i) == NF(b, j) <==> NF(a, id1) == NF(b, id2)
      decreases a.rank[i] + b.rank[j]
    {
      if a.tag == b.tag && i == j {
        return true;
      }
      if i == 0 || j == 0 {
        VoidAlone(a, i);
        VoidAlone(b, j);
        return i == j;
      }
      var t1, t2 := a.At(i), b.At(j);
      var k1, k2 := FwdKind(t1), FwdKind(t2);
      if k1 != k2 {
        // loose: const and non-const match
        if k1 == KRef(Const) {
          StripConst(a, i, b, j);
          i := t1.ref;
          continue;
        }
        if k2 == KRef(Const) {
          StripConst(b, j, a, i);
          j := t2.ref;
          continue;
        }
        KindsDiffer(a, i, b, j);
        return false;
      }
      if k1.KRef? || k1.KTypeTag? {
        FollowBoth(a, i, b, j);
        i, j := t1.ref, t2.ref;
      } else if k1.KArray? {
        if t1.nelems != t2.nelems {
          LeafMatch(a, i, b, j);
          return false;
        }
        FollowBoth(a, i, b, j);
        i, j := t1.elem, t2.elem;
      } else if k1.KProto? {
        matches := MatchProto(a, i, b, j);
        return;
      } else {
        LeafMatch(a, i, b, j);
        return match k1
          case KInt => t1.size == t2.size && t1.encoding == t2.encoding && NameOf(t1) == NameOf(t2)
          case KFloat => t1.size == t2.size && NameOf(t1) == NameOf(t2)
          case KOther(_) => false
          case _ => NameOf(t1) == NameOf(t2);
      }
    }
  }

  /** Return types, then parameters in order. */
  method MatchProto(a: Graph, i: nat, b: Graph, j: nat) returns (matches: bool)
    requires a.Valid() && b.Valid() && SameObject(a, b) && 0 < i <= |a.types| && 0 < j <= |b.types|
    requires a.At(i).FuncProto? && b.At(j).FuncProto?
    ensures matches <==> NF(a, i) == NF(b, j)
    decreases a.rank[i] + b.rank[j], 0
  {
    hide NF, Constant;
    var t1, t2 := a.At(i), b.At(j);
    ghost var c1, c2 := Chain(t1), Chain(t2);
    ProtoParts(a, i, b, j);
    if |t1.params| != |t2.params| {
      return false;
    }
    assert c1[0] == t1.ret && c2[0] == t2.ret;
    matches := Match(a, t1.ret, b, t2.ret);
    if !matches {
      return false;
    }
    for k := 0 to |t1.params|
      invariant forall n :: 0 <= n <= k ==> NF(a, c1[n]) == NF(b, c2[n])
    {
      assert c1[k + 1] == t1.params[k].ref && c2[k + 1] == t2.params[k].ref;
      matches := Match(a, t1.params[k].ref, b, t2.params[k].ref);
      if !matches {
        return false;
      }
    }
    return true;
  }

  lemma VoidAlone(g: Graph, id: nat)
    requires g.Valid() && id <= |g.types|
    ensures NF(g, id) == NVoid(0) <==> id == 0
  {
    if NF(g, id).NVoid? {
      VoidOnlyByConst(g, id);
    }
  }

  /** Same kind, nothing more to follow, or arrays of different length. */
  lemma LeafMatch(a: Graph, i: nat, b: Graph, j: nat)
    requires a.Valid() && b.Valid() && SameObject(a, b) && 0 < i <= |a.types| && 0 < j <= |b.types|
    requires FwdKind(a.At(i)) == FwdKind(b.At(j)) && (a.tag != b.tag || i != j)
    ensures a.At(i).Array? && a.At(i).nelems != b.At(j).nelems ==> NF(a, i) != NF(b, j)
    ensures a.At(i).Int? ==>
              (NF(a, i) == NF(b, j) <==> a.At(i).size == b.At(j).size && a.At(i).encoding == b.At(j).encoding && NameOf(a.At(i)) == NameOf(b.At(j)))
    ensures a.At(i).Float? ==>
              (NF(a, i) == NF(b, j) <==> a.At(i).size == b.At(j).size && NameOf(a.At(i)) == NameOf(b.At(j)))
    ensures FwdKind(a.At(i)).KOther? ==> NF(a, i) != NF(b, j)
    ensures FwdKind(a.At(i)) in {KTypedef, KStruct, KUnion, KEnum, KEnum64} ==>
              (NF(a, i) == NF(b, j) <==> NameOf(a.At(i)) == NameOf(b.At(j)))
  {
  }

  lemma ProtoParts(a: Graph, i: nat, b: Graph, j: nat)
    requires a.Valid() && b.Valid() && 0 < i <= |a.types| && 0 < j <= |b.types|
    requires a.At(i).FuncProto? && b.At(j).FuncProto?
    ensures var c, d := Chain(a.At(i)), Chain(b.At(j));
            && (forall k :: 0 <= k < |c| ==> c[k] <= |a.types| && a.rank[c[k]] < a.rank[i])
            && (forall k :: 0 <= k < |d| ==> d[k] <= |b.types| && b.rank[d[k]] < b.rank[j])
            && (NF(a, i) == NF(b, j) <==> |c| == |d| && forall k :: 0 <= k < |c| ==> NF(a, c[k]) == NF(b, d[k]))
  {
    var c, d := Chain(a.At(i)), Chain(b.At(j));
    assert Descends(Chain(a.types[i - 1]), a.rank, a.rank[i]) && Descends(Chain(b.types[j - 1]), b.rank, b.rank[j]);
    var p, q := NFs(a, c, a.rank[i]), NFs(b, d, b.rank[j]);
    if |c| == |d| && forall k :: 0 <= k < |c| ==> NF(a, c[k]) == NF(b, d[k]) {
      assert p == q;
    }
    if p == q {
      forall k | 0 <= k < |c| ensures NF(a, c[k]) == NF(b, d[k]) {
        assert p[k] == q[k];
      }
    }
  }

  // ----- what matches, told from the types alone -----

  /** Structs and unions, declared or defined, match by what they are and their name, whatever their size and members. */
  lemma StructsMatch(a: Graph, i: nat, b: Graph, j: nat)
    requires a.Valid() && b.Valid() && 0 < i <= |a.types| && 0 < j <= |b.types|
    requires (a.At(i).Fwd? || a.At(i).Composite?) && (b.At(j).Fwd? || b.At(j).Composite?)
    ensures NF(a, i) == NF(b, j) <==> a.At(i).isUnion == b.At(j).isUnion && a.At(i).name == b.At(j).name
  {
    assert NF(a, i).NNamed? && NF(b, j).NNamed?;
  }

  /** Typedefs and enumerations of either width match by name; numbers by everything they have. */
  lemma LeavesMatch(a: Graph, i: nat, b: Graph, j: nat)
    requires a.Valid() && b.Valid() && 0 < i <= |a.types| && 0 < j <= |b.types|
    ensures a.At(i).Typedef? && b.At(j).Typedef? ==> (NF(a, i) == NF(b, j) <==> a.At(i).name == b.At(j).name)
    ensures a.At(i).Enum? && b.At(j).Enum? ==> (NF(a, i) == NF(b, j) <==> a.At(i).name == b.At(j).name)
    ensures a.At(i).Enum64? && b.At(j).Enum64? ==> (NF(a, i) == NF(b, j) <==> a.At(i).name == b.At(j).name)
    ensures a.At(i).Int? && b.At(j).Int? ==> (NF(a, i) == NF(b, j) <==> a.At(i) == b.At(j))
    ensures a.At(i).Float? && b.At(j).Float? ==> (NF(a, i) == NF(b, j) <==> a.At(i) == b.At(j))
  {
    var t, u := a.At(i), b.At(j);
    if (t.Typedef? && u.Typedef?) || (t.Enum? && u.Enum?) || (t.Enum64? && u.Enum64?) {
      assert NF(a, i) == NNamed(FwdKind(t), t.name) && NF(b, j) == NNamed(FwdKind(u), u.name);
    }
  }

  /** Pointers, qualifiers, type tags and arrays match when what they refer to does; an array's length counts, its index type does not. */
  lemma ReferencesMatch(a: Graph, i: nat, b: Graph, j: nat)
    requires a.Valid() && b.Valid() && 0 < i <= |a.types| && 0 < j <= |b.types|
    ensures a.At(i).Ref? && b.At(j).Ref? && a.At(i).kind == b.At(j).kind ==>
              && a.At(i).ref <= |a.types| && b.At(j).ref <= |b.types|
              && (NF(a, i) == NF(b, j) <==> NF(a, a.At(i).ref) == NF(b, b.At(j).ref))
    ensures a.At(i).TypeTag? && b.At(j).TypeTag? ==>
              && a.At(i).ref <= |a.types| && b.At(j).ref <= |b.types|
              && (NF(a, i) == NF(b, j) <==> NF(a, a.At(i).ref) == NF(b, b.At(j).ref))
    ensures a.At(i).Array? && b.At(j).Array? ==>
              && a.At(i).elem <= |a.types| && b.At(j).elem <= |b.types|
              && (NF(a, i) == NF(b, j) <==> a.At(i).nelems == b.At(j).nelems && NF(a, a.At(i).elem) == NF(b, b.At(j).elem))
  {
    hide NF;
    if a.At(i).Ref? || a.At(i).TypeTag? || a.At(i).Array? {
      OneReference(a, i);
    }
    if b.At(j).Ref? || b.At(j).TypeTag? || b.At(j).Array? {
      OneReference(b, j);
    }
  }

  /** Prototypes match when return types do, and as many parameters, one by one. */
  lemma ProtosMatch(a: Graph, i: nat, b: Graph, j: nat)
    requires a.Valid() && b.Valid() && 0 < i <= |a.types| && 0 < j <= |b.types|
    requires a.At(i).FuncProto? && b.At(j).FuncProto?
    ensures var t, u := a.At(i), b.At(j);
            && t.ret <= |a.types| && u.ret <= |b.types|
            && (forall k :: 0 <= k < |t.params| ==> t.params[k].ref <= |a.types|)
            && (forall k :: 0 <= k < |u.params| ==> u.params[k].ref <= |b.types|)
            && (NF(a, i) == NF(b, j) <==>
                  && NF(a, t.ret) == NF(b, u.ret) && |t.params| == |u.params|
                  && forall k :: 0 <= k < |t.params| ==> NF(a, t.params[k].ref) == NF(b, u.params[k].ref))
  {
    hide NF, Chain, Graph.Valid;
    ProtoParts(a, i, b, j);
    var t, u := a.At(i), b.At(j);
    var c, d := Chain(t), Chain(u);
    ProtoChain(t);
    ProtoChain(u);
    if |c| == |d| && NF(a, t.ret) == NF(b, u.ret) && forall k :: 0 <= k < |t.params| ==> NF(a, t.params[k].ref) == NF(b, u.params[k].ref) {
      forall k | 0 <= k < |c| ensures NF(a, c[k]) == NF(b, d[k]) {
        if k > 0 {
          assert c[k] == t.params[k - 1].ref && d[k] == u.params[k - 1].ref;
        }
      }
    }
  }

  lemma ProtoChain(t: Type)
    requires t.FuncProto?
    ensures |Chain(t)| == |t.params| + 1 && Chain(t)[0] == t.ret
    ensures forall k :: 0 <= k < |t.params| ==> t.params[k].ref == Chain(t)[k + 1]
  {
  }

  predicate IsConst(t: Type) { t.Ref? && t.kind == Const }

  /** A const type matches what is not const exactly when the type it qualifies does; nothing but void matches void. */
  lemma ConstsMatch(a: Graph, i: nat, b: Graph, j: nat)
    requires a.Valid() && b.Valid() && i <= |a.types| && 0 < j <= |b.types|
    ensures i > 0 && IsConst(a.At(i)) && !IsConst(b.At(j)) ==>
              a.At(i).ref <= |a.types| && (NF(a, i) == NF(b, j) <==> NF(a, a.At(i).ref) == NF(b, j))
    ensures NF(a, 0) != NF(b, j) && NF(a, 0) == NF(b, 0)
  {
    if i > 0 && IsConst(a.At(i)) && !IsConst(b.At(j)) {
      StripConst(a, i, b, j);
    }
    VoidAlone(b, j);
  }

  /** Beyond that, types of different kinds never match, nor do variables, declaration tags and other kinds, unless identical. */
  lemma OthersNeverMatch(a: Graph, i: nat, b: Graph, j: nat)
    requires a.Valid() && b.Valid() && SameObject(a, b) && 0 < i <= |a.types| && 0 < j <= |b.types|
    requires !IsConst(a.At(i)) && !IsConst(b.At(j)) && (a.tag != b.tag || i != j)
    ensures var t, u := a.At(i), b.At(j);
            NF(a, i) == NF(b, j) ==>
              || (t.Int? && u.Int?) || (t.Float? && u.Float?) || (t.Ref? && u.Ref? && t.kind == u.kind)
              || (t.Typedef? && u.Typedef?) || (t.TypeTag? && u.TypeTag?) || (t.Array? && u.Array?)
              || ((t.Fwd? || t.Composite?) && (u.Fwd? || u.Composite?))
              || (t.Enum? && u.Enum?) || (t.Enum64? && u.Enum64?) || (t.FuncProto? && u.FuncProto?)
  {
    if FwdKind(a.At(i)) != FwdKind(b.At(j)) {
      KindsDiffer(a, i, b, j);
    }
  }

  // ----- the relation the comparison computes -----

  ghost predicate Matches(g: Graph, i: nat, j: nat)
    requires g.Valid() && i <= |g.types| && j <= |g.types|
  {
    NF(g, i) == NF(g, j)
  }

  /** The normal form is a property of the types, not of the ranking that shows the chains end. */
  lemma {:induction false} NormalFormNeedsNoRank(g: Graph, h: Graph, id: nat)
    requires g.Valid() && h.Valid() && g.types == h.types && g.tag == h.tag && id <= |g.types|
    ensures NF(g, id) == NF(h, id)
    decreases g.rank[id]
  {
    if id > 0 {
      var t := g.At(id);
      var c := Chain(t);
      assert Descends(Chain(g.types[id - 1]), g.rank, g.rank[id]) && Descends(Chain(h.types[id - 1]), h.rank, h.rank[id]);
      forall k | 0 <= k < |c| ensures NF(g, c[k]) == NF(h, c[k]) {
        NormalFormNeedsNoRank(g, h, c[k]);
      }
      if t.FuncProto? {
        assert NFs(g, c, g.rank[id]) == NFs(h, c, h.rank[id]);
      } else if t.Ref? || t.TypeTag? || t.Array? {
        OneReference(g, id);
        OneReference(h, id);
      }
    }
  }

  /** A coarser reading of loose matching: any run of consts before void counts as one. */
  ghost function Collapse(n: Normal): Normal {
    match n
    case NVoid(k) => NVoid(if k > 0 then 1 else 0)
    case NWrap(kind, inner) => NWrap(kind, Collapse(inner))
    case NArray(len, elem) => NArray(len, Collapse(elem))
    case NProto(parts) => NProto(seq(|parts|, k requires 0 <= k < |parts| => Collapse(parts[k])))
    case _ => n
  }

  /** A const type that wraps a const type that wraps void. */
  ghost predicate ConstConstVoid(g: Graph) {
    exists id, inner :: 0 < id <= |g.types| && 0 < inner <= |g.types| &&
      g.At(id) == Ref(Const, inner) && g.At(inner) == Ref(Const, 0)
  }

  lemma {:induction false} ManyConsts(g: Graph, id: nat)
    requires g.Valid() && id <= |g.types| && NF(g, id).NVoid? && NF(g, id).consts > 1
    ensures ConstConstVoid(g)
    decreases g.rank[id]
  {
    VoidOnlyByConst(g, id);
    OneReference(g, id);
    var r := g.At(id).ref;
    VoidOnlyByConst(g, r);
    OneReference(g, r);
    var s := g.At(r).ref;
    if s == 0 {
      assert g.At(id) == Ref(Const, r) && g.At(r) == Ref(Const, 0);
    } else {
      VoidOnlyByConst(g, s);
      ManyConsts(g, r);
    }
  }

  /** Without const const void, no normal form mentions more than one const. */
  lemma {:induction false} CollapseIsIdentity(g: Graph, id: nat)
    requires g.Valid() && id <= |g.types| && !ConstConstVoid(g)
    ensures Collapse(NF(g, id)) == NF(g, id)
    decreases g.rank[id]
  {
    if id > 0 {
      var t := g.At(id);
      var c := Chain(t);
      assert Descends(Chain(g.types[id - 1]), g.rank, g.rank[id]);
      forall k | 0 <= k < |c| ensures Collapse(NF(g, c[k])) == NF(g, c[k]) {
        CollapseIsIdentity(g, c[k]);
      }
      if t.FuncProto? {
        var parts := NFs(g, c, g.rank[id]);
        assert Collapse(NF(g, id)).parts == parts;
      } else if t.Ref? || t.TypeTag? || t.Array? {
        OneReference(g, id);
        if NF(g, id).NVoid? && NF(g, id).consts > 1 {
          ManyConsts(g, id);
        }
      }
    }
  }

  /**
   types__match agrees with the coarser reading on all pairs of a graph exactly when
   the graph has no const const void.
   */
  lemma CoarserReadingExactlyWhen(g: Graph)
    requires g.Valid()
    ensures (forall i: nat, j: nat :: i <= |g.types| && j <= |g.types| ==>
               (Matches(g, i, j) <==> Collapse(NF(g, i)) == Collapse(NF(g, j))))
            <==> !ConstConstVoid(g)
  {
    if ConstConstVoid(g) {
      var id: nat, inner: nat :| 0 < id <= |g.types| && 0 < inner <= |g.types| &&
        g.At(id) == Ref(Const, inner) && g.At(inner) == Ref(Const, 0);
      OneReference(g, inner);
      OneReference(g, id);
      assert !Matches(g, id, inner) && Collapse(NF(g, id)) == Collapse(NF(g, inner));
    } else {
      forall i: nat, j: nat | i <= |g.types| && j <= |g.types|
        ensures Matches(g, i, j) <==> Collapse(NF(g, i)) == Collapse(NF(g, j))
      {
        CollapseIsIdentity(g, i);
        CollapseIsIdentity(g, j);
      }
    }
  }

  /** The input that tells the two readings apart: const const void against const void. */
  lemma ConstConstVoidIsNotConstVoid()
    ensures var g := Graph(0, [Ref(Const, 0), Ref(Const, 1)], [0, 1, 2]);
            g.Valid() && !Matches(g, 2, 1) && Collapse(NF(g, 2)) == Collapse(NF(g, 1))
  {
    var g := Graph(0, [Ref(Const, 0), Ref(Const, 1)], [0, 1, 2]);
    assert Descends(Chain(g.types[0]), g.rank, 1) && Descends(Chain(g.types[1]), g.rank, 2);
    OneReference(g, 1);
    OneReference(g, 2);
  }
}
