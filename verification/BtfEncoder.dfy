/** btf_encoder.c: predicting the BTF id of every type of a CU, then emitting the types. */
module BtfEncoder {
  import opened Wrappers
  import opened Dwarf
  import opened BtfIds
  import opened BtfCus
  import opened BtfForms
  import B = Btf

  // ----- the three running counts of the prediction -----

  ghost function Nulls(table: Table, n: nat): nat
    requires n < |table| || n == 0
  {
    if n == 0 then 0 else Nulls(table, n - 1) + (if table[n].None? then 1 else 0)
  }

  ghost function Skips(table: Table, n: nat): nat
    requires n <= |table|
  {
    if n <= 1 then 0
    else Skips(table, n - 1) + (if table[n - 1].Some? && NrIds(table[n - 1].value) == 0 then 1 else 0)
  }

  ghost function Extras(table: Table, n: nat): nat
    requires n <= |table|
  {
    if n <= 1 then 0 else Extras(table, n - 1) + (if EntryIds(table[n - 1]) > 1 then EntryIds(table[n - 1]) - 1 else 0)
  }

  /** Index arithmetic minus holes minus skipped plus extra is the number of ids taken. */
  lemma {:induction false} CountsAgree(table: Table, n: nat)
    requires 0 < n <= |table|
    ensures n - 1 - Nulls(table, n - 1) - Skips(table, n) + Extras(table, n) == IdsBefore(table, n)
  {
    if n > 1 {
      CountsAgree(table, n - 1);
    }
  }

  lemma NullsStep(table: Table, n: nat)
    requires n < |table|
    ensures Nulls(table, n) == if n == 0 then 0 else Nulls(table, n - 1) + (if table[n].None? then 1 else 0)
  {
  }

  lemma {:induction false} NullsMonotone(table: Table, m: nat, n: nat)
    requires m <= n < |table|
    ensures Nulls(table, m) <= Nulls(table, n) && Nulls(table, n) <= n
    decreases n
  {
    if m < n {
      NullsMonotone(table, m, n - 1);
    } else if n > 0 {
      NullsMonotone(table, n - 1, n - 1);
    }
  }

  ghost predicate WithinMap(idMap: seq<nat>, refs: seq<nat>) {
    forall k :: 0 <= k < |refs| ==> refs[k] < |idMap|
  }

  ghost function Lookup(idMap: seq<nat>, refs: seq<nat>): (r: seq<nat>)
    requires WithinMap(idMap, refs)
    ensures |r| == |refs|
  {
    seq(|refs|, k requires 0 <= k < |refs| => if refs[k] == 0 then 0 else idMap[refs[k]])
  }

  /** The reference list of a prototype, split into return type, parameters and "...". */
  lemma ProtoRefs(t: Tag, idMap: seq<nat>)
    requires t.Subroutine? && WithinMap(idMap, TagRefs(t))
    ensures WithinMap(idMap, [t.ret]) && WithinMap(idMap, B.ParamRefs(t.params))
    ensures Lookup(idMap, TagRefs(t))[0] == Lookup(idMap, [t.ret])[0]
    ensures Lookup(idMap, TagRefs(t))[1..|t.params| + 1] == Lookup(idMap, B.ParamRefs(t.params))
  {
    var refs, ps := TagRefs(t), B.ParamRefs(t.params);
    assert refs[0] == t.ret;
    assert forall k :: 0 <= k < |ps| ==> refs[k + 1] == ps[k];
    var a, b := Lookup(idMap, refs)[1..|t.params| + 1], Lookup(idMap, ps);
    assert forall k :: 0 <= k < |b| ==> a[k] == b[k];
  }

  ghost predicate EncodableBelow(cfg: Config, table: Table, n: nat)
    requires n <= |table|
  {
    forall c :: 0 < c < n && table[c].Some? ==> Encodable(cfg, table[c].value)
  }

  lemma EncodableStep(cfg: Config, table: Table, n: nat)
    requires 0 < n < |table|
    ensures EncodableBelow(cfg, table, n + 1) <==>
              EncodableBelow(cfg, table, n) && (table[n].None? || Encodable(cfg, table[n].value))
    ensures EncodableBelow(cfg, table, 1)
  {
  }

  lemma EncodableAll(cfg: Config, table: Table, n: nat)
    requires n <= |table|
    ensures AllEncodable(cfg, table) ==> EncodableBelow(cfg, table, n)
    ensures EncodableBelow(cfg, table, |table|) <==> AllEncodable(cfg, table)
    ensures EncodableBelow(cfg, table, if n == 0 then 0 else 1)
  {
  }

  /** The CU's own "int" is where the prediction says, and is a leaf. */
  lemma FoundIndex(unit: Unit, before: seq<B.Type>, after: seq<B.Type>, tail: seq<B.Type>)
    requires unit.Valid() && unit.off == |before| && after == before + unit.Types(|unit.table|) + tail
    requires var c := FindBase(unit.table, "int", 1);
             0 < c < |unit.table| && unit.index == unit.Map(c)
    ensures unit.IndexIn(after, FreshIndexHead(unit.cfg, unit.table))
  {
    hide Closed, AllEncodable, B.RefsWithin;
    var c := FindBase(unit.table, "int", 1);
    FindBaseSound(unit.table, "int", 1);
    SliceAt(unit, before, after, tail, c);
    unit.OneMeans(c);
    assert TagRefs(unit.table[c].value) == [];
  }

  lemma DefaultIndex(unit: Unit, after: seq<B.Type>)
    requires FindBase(unit.table, "int", 1) == 0
    requires 0 < unit.index <= |after| && B.TypeById(after, unit.index) == B.Int("int", 4, B.INT_SIGNED)
    ensures unit.IndexIn(after, FreshIndexHead(unit.cfg, unit.table))
  {
  }

  lemma SliceAt(unit: Unit, before: seq<B.Type>, after: seq<B.Type>, tail: seq<B.Type>, c: nat)
    requires unit.Valid() && unit.off == |before| && after == before + unit.Types(|unit.table|) + tail
    requires 0 < c < |unit.table| && unit.table[c].Some? && unit.table[c].value.BaseType?
    ensures 0 < unit.Map(c) <= |after| && B.TypeById(after, unit.Map(c)) == unit.Emit(c)[0]
  {
    hide Closed, AllEncodable, EmitOne, EmitArray, Head, TagRefs, MapIds, Unit.Types, Unit.MapRefs;
    unit.TypesSlice(|unit.table|, c);
    AppendedAt(before, unit.Types(|unit.table|), tail, IdsBefore(unit.table, c));
  }

  lemma AppendedAt(before: seq<B.Type>, types: seq<B.Type>, tail: seq<B.Type>, k: nat)
    requires k < |types|
    ensures (before + types + tail)[|before| + k] == types[k] == types[k..k + 1][0]
  {
  }

  /** Through `ids`, the BTF graph means what the table means, at every id and every depth. */
  ghost predicate Means(cfg: Config, btf: seq<B.Type>, ids: seq<nat>, table: Table, head: B.Label) {
    && |ids| == |table|
    && (forall c :: 0 <= c < |table| ==> ids[c] <= |btf|)
    && (forall c, k: nat :: 0 <= c < |table| ==> B.Unfold(btf, ids[c], k) == Unfold(cfg, table, head, c, k))
  }

  ghost predicate IdsOf(unit: Unit, ids: seq<nat>) {
    |ids| == |unit.table| && forall c :: 0 <= c < |unit.table| ==> ids[c] == unit.Map(c)
  }

  lemma UnitMeans(unit: Unit, btf: seq<B.Type>, ids: seq<nat>, head: B.Label)
    requires unit.EmittedIn(btf, head) && IdsOf(unit, ids)
    ensures Means(unit.cfg, btf, ids, unit.table, head)
  {
    forall c | 0 <= c < |unit.table| ensures ids[c] <= |btf| {
      unit.MapBounded(c);
    }
    forall c, k: nat | 0 <= c < |unit.table| ensures B.Unfold(btf, ids[c], k) == Unfold(unit.cfg, unit.table, head, c, k) {
      unit.SameMeaning(btf, head, c, k);
    }
  }

  /** Later appends do not disturb it. */
  lemma MeansStays(cfg: Config, btf: seq<B.Type>, more: seq<B.Type>, ids: seq<nat>, table: Table, head: B.Label)
    requires Means(cfg, btf, ids, table, head) && B.RefsWithin(btf, |btf|)
    ensures Means(cfg, btf + more, ids, table, head)
  {
    forall c, k: nat | 0 <= c < |table| ensures B.Unfold(btf + more, ids[c], k) == Unfold(cfg, table, head, c, k) {
      B.UnfoldAppend(btf, more, ids[c], k);
    }
  }

  /** Everything the encoder holds after a CU, from what it held before and what the CU emitted. */
  lemma AfterCu(unit: Unit, before: seq<B.Type>, after: seq<B.Type>, tail: seq<B.Type>, head: B.Label)
    requires unit.Valid() && unit.off == |before| && B.RefsWithin(before, |before|)
    requires after == before + unit.Types(|unit.table|) + tail
    requires forall t :: t in tail ==> B.Refs(t) == []
    requires HasArray(unit.table, |unit.table|) ==> unit.IndexIn(after, head)
    ensures B.RefsWithin(after, |after|) && unit.EmittedIn(after, head)
  {
    hide B.LabelOf, B.Refs, AllEncodable, Closed;
    var types := unit.Types(|unit.table|);
    unit.TypesRefsFine(|unit.table|);
    assert after[unit.off..unit.off + |types|] == types;
    forall t | t in after ensures forall r :: r in B.Refs(t) ==> r <= |after| {
      if t in before {
      } else if t in types {
      }
    }
  }

  lemma CuMeans(unit: Unit, before: seq<B.Type>, after: seq<B.Type>, tail: seq<B.Type>, ids: seq<nat>, head: B.Label)
    requires unit.Valid() && unit.off == |before| && B.RefsWithin(before, |before|)
    requires after == before + unit.Types(|unit.table|) + tail && IdsOf(unit, ids)
    requires forall t :: t in tail ==> B.Refs(t) == []
    requires HasArray(unit.table, |unit.table|) ==> unit.IndexIn(after, head)
    ensures B.RefsWithin(after, |after|) && before <= after && Means(unit.cfg, after, ids, unit.table, head)
    ensures AllFormed(unit.cfg, unit.table, after, ids)
  {
    hide B.LabelOf, B.Refs, AllEncodable, Closed, Means, IdsOf, B.RefsWithin, AllFormed;
    AfterCu(unit, before, after, tail, head);
    UnitMeans(unit, after, ids, head);
    IdsAreFormed(unit, after, ids, head);
  }

  lemma IdsAreFormed(unit: Unit, btf: seq<B.Type>, ids: seq<nat>, head: B.Label)
    requires unit.EmittedIn(btf, head) && IdsOf(unit, ids)
    ensures AllFormed(unit.cfg, unit.table, btf, ids)
  {
    hide AllFormed, Unit.EmittedIn, MapId;
    UnitFormed(unit, btf, head, ids);
  }

  /** Where a CU encoded after `off` types went: every id as predicted, and behind the types tags and variables. */
  ghost predicate Placed(cu: Cu, head: Option<B.Label>, off: nat, btf: seq<B.Type>, ids: seq<nat>)
    requires Complete(cu)
  {
    var n, at := |cu.table|, off + TypeIds(head, cu.table);
    var tags := TypeTags(cu, off, n);
    var vars := Vars(cu, off, at + |tags|, |cu.variables|);
    && |ids| == n && (forall c :: 0 <= c < n ==> ids[c] == MapId(cu.table, off, c))
    && at + |tags| + |vars| <= |btf| && btf[at..at + |tags| + |vars|] == tags + vars
  }

  /** One annotation's declaration tag, and one variable with its own, as they are to be found in the BTF. */
  ghost predicate VariableFormed(v: Variable, btf: seq<B.Type>, ids: seq<nat>, id: nat) {
    && 0 < id && id + |v.annots| <= |btf|
    && btf[id - 1] == B.Var(v.name, v.linkage, To(ids, v.ref))
    && forall a :: 0 <= a < |v.annots| ==> btf[id + a] == B.DeclTag(v.annots[a].value, v.annots[a].component, id)
  }

  /** One declaration tag per annotation of a struct, union or typedef, for the id of its entry, and nothing else. */
  ghost predicate TagsFormed(cu: Cu, tags: seq<B.Type>, ids: seq<nat>)
    requires |cu.annots| == |cu.table| == |ids|
  {
    && |tags| == TagCount(cu, |cu.table|)
    && forall x :: x in tags <==>
         exists c, k :: HasAnnot(cu, c, k) && x == B.DeclTag(cu.annots[c][k].value, cu.annots[c][k].component, ids[c])
  }

  lemma TagsPlaced(cu: Cu, off: nat, ids: seq<nat>)
    requires |cu.annots| == |cu.table| == |ids| && forall c :: 0 <= c < |ids| ==> ids[c] == MapId(cu.table, off, c)
    ensures TagsFormed(cu, TypeTags(cu, off, |cu.table|), ids)
  {
    hide MapId, TypeTags, HasAnnot;
    TypeTagsCounted(cu, off, |cu.table|);
    forall x ensures x in TypeTags(cu, off, |cu.table|) <==>
      exists c, k :: HasAnnot(cu, c, k) && x == B.DeclTag(cu.annots[c][k].value, cu.annots[c][k].component, ids[c])
    {
      TypeTagsExactly(cu, off, |cu.table|, x);
    }
  }

  lemma VariablePlaced(cu: Cu, off: nat, at: nat, btf: seq<B.Type>, ids: seq<nat>, k: nat)
    requires Complete(cu) && k < |cu.variables| && |ids| == |cu.table|
    requires forall c :: 0 <= c < |ids| ==> ids[c] == MapId(cu.table, off, c)
    requires var vars := Vars(cu, off, at, |cu.variables|); at + |vars| <= |btf| && btf[at..at + |vars|] == vars
    ensures VariableFormed(cu.variables[k], btf, ids, at + VarCount(cu.variables[..k]) + 1)
  {
    hide Closed, MapId, Vars;
    var vars, v, p := Vars(cu, off, at, |cu.variables|), cu.variables[k], VarCount(cu.variables[..k]);
    VarAt(cu, off, at, |cu.variables|, k);
    VoidMapsToVoid(cu.table, off);
    assert btf[at + p] == vars[p];
    var id := at + p + 1;
    forall a | 0 <= a < |v.annots| ensures btf[id + a] == B.DeclTag(v.annots[a].value, v.annots[a].component, id) {
      assert btf[at..at + |vars|][p + 1 + a] == vars[p + 1 + a];
    }
  }

  /** What that comes to: behind the types, at `at`, the declaration tags, and then every variable with its own. */
  lemma PlacedExactly(cu: Cu, head: Option<B.Label>, off: nat, btf: seq<B.Type>, ids: seq<nat>)
    requires Complete(cu) && Placed(cu, head, off, btf, ids)
    ensures var at, tags := off + TypeIds(head, cu.table), TagCount(cu, |cu.table|);
            && |ids| == |cu.table| && at + tags + VarCount(cu.variables) <= |btf|
            && TagsFormed(cu, btf[at..at + tags], ids)
            && (forall k :: 0 <= k < |cu.variables| ==>
                  VariableFormed(cu.variables[k], btf, ids, at + tags + VarCount(cu.variables[..k]) + 1))
  {
    hide Closed, MapId, TypeIds, Vars, TypeTags, TagsFormed, VariableFormed, VarCount, TagCount;
    var at, tags := off + TypeIds(head, cu.table), TypeTags(cu, off, |cu.table|);
    var vars := Vars(cu, off, at + |tags|, |cu.variables|);
    TypeTagsCounted(cu, off, |cu.table|);
    VarsCounted(cu, off, at + |tags|, |cu.variables|);
    assert cu.variables[..|cu.variables|] == cu.variables;
    Halves(btf, at, tags, vars);
    TagsPlaced(cu, off, ids);
    forall k | 0 <= k < |cu.variables|
      ensures VariableFormed(cu.variables[k], btf, ids, at + |tags| + VarCount(cu.variables[..k]) + 1)
    {
      VariablePlaced(cu, off, at + |tags|, btf, ids, k);
    }
  }

  lemma Halves<T>(xs: seq<T>, at: nat, a: seq<T>, b: seq<T>)
    requires at + |a| + |b| <= |xs| && xs[at..at + |a| + |b|] == a + b
    ensures xs[at..at + |a|] == a && xs[at + |a|..at + |a| + |b|] == b
  {
    var both := xs[at..at + |a| + |b|];
    assert both[..|a|] == a && both[|a|..] == b;
  }

  lemma VoidMapsToVoid(table: Table, off: nat)
    ensures table != [] ==> MapId(table, off, 0) == 0
  {
  }

  lemma PlacedStays(cu: Cu, head: Option<B.Label>, off: nat, btf: seq<B.Type>, more: seq<B.Type>, ids: seq<nat>)
    requires Complete(cu) && Placed(cu, head, off, btf, ids)
    ensures Placed(cu, head, off, btf + more, ids)
  {
    hide Closed, TypeTags, Vars, TypeIds, MapId;
    var at, tags := off + TypeIds(head, cu.table), TypeTags(cu, off, |cu.table|);
    var end := at + |tags| + |Vars(cu, off, at + |tags|, |cu.variables|)|;
    assert (btf + more)[at..end] == btf[at..end];
  }

  lemma NothingIn(cfg: Config, head: Option<B.Label>, cu: Cu, btf: seq<B.Type>)
    requires Complete(cu) && cu.table == []
    ensures Placed(cu, head, |btf|, btf, []) && AllIds(head, cu) == 0 && HeadAfter(cfg, head, cu.table) == head
    ensures Means(cfg, btf, [], cu.table, HeadFor(cfg, head, cu.table)) && AllEncodable(cfg, cu.table)
    ensures AllFormed(cfg, cu.table, btf, [])
  {
  }

  /** Declaration tags and variables refer to what is there. */
  lemma OthersFine(cu: Cu, off: nat, types: seq<B.Type>, tagged: seq<B.Type>, btf: seq<B.Type>)
    requires Complete(cu) && B.RefsWithin(types, |types|) && off + IdsBefore(cu.table, |cu.table|) <= |types|
    requires tagged == types + TypeTags(cu, off, |cu.table|)
    requires btf == tagged + Vars(cu, off, |tagged|, |cu.variables|)
    ensures B.RefsWithin(btf, |btf|) && |btf| == |types| + TagCount(cu, |cu.table|) + VarCount(cu.variables)
    ensures types <= btf && btf[|types|..] == TypeTags(cu, off, |cu.table|) + Vars(cu, off, |tagged|, |cu.variables|)
  {
    hide B.Refs, TypeTags, Vars;
    TypeTagsWithin(cu, off, |cu.table|);
    TypeTagsCounted(cu, off, |cu.table|);
    VarsWithin(cu, off, |tagged|, |cu.variables|);
    VarsCounted(cu, off, |tagged|, |cu.variables|);
    assert cu.variables[..|cu.variables|] == cu.variables;
  }

  lemma PlacedNow(cu: Cu, head: Option<B.Label>, off: nat, types: seq<B.Type>, btf: seq<B.Type>, ids: seq<nat>)
    requires Complete(cu) && |types| == off + TypeIds(head, cu.table) && types <= btf
    requires |ids| == |cu.table| && forall c :: 0 <= c < |cu.table| ==> ids[c] == MapId(cu.table, off, c)
    requires var tags := TypeTags(cu, off, |cu.table|);
             btf[|types|..] == tags + Vars(cu, off, |types| + |tags|, |cu.variables|)
    ensures Placed(cu, head, off, btf, ids)
  {
    hide Closed, TypeTags, Vars, TypeIds, MapId;
    assert btf[|types|..][..|btf| - |types|] == btf[|types|..];
  }

  datatype Outcome =
    | Encoded
    | CannotEncode(coreId: nat)
    | UnexpectedEmit(coreId: nat)
    | IdDrift(coreId: nat)

  class Encoder {
    const cfg: Config
    var btf: seq<B.Type>
    var typeIdOff: nat
    var nullAdj: seq<nat>   // [] stands for NULL
    var idMap: seq<nat>     // [] stands for NULL
    var idExtra: nat
    var idSkipped: nat
    var hasIndexType: bool
    var needIndexType: bool
    var arrayIndexId: nat

    constructor (cfg: Config)
      ensures this.cfg == cfg && btf == [] && !hasIndexType && !needIndexType && nullAdj == [] && idMap == []
    {
      this.cfg := cfg;
      btf, nullAdj, idMap := [], [], [];
      typeIdOff, idExtra, idSkipped, arrayIndexId := 0, 0, 0, 0;
      hasIndexType, needIndexType := false, false;
    }

    function Adj(i: nat): nat
      requires nullAdj == [] || i < |nullAdj|
      reads this`nullAdj
    {
      if nullAdj == [] then 0 else nullAdj[i]
    }

    /** btf_encoder__tag_type. */
    function TagType(t: nat): nat
      requires t < |idMap| || ((nullAdj == [] || t < |nullAdj|) && Adj(t) <= typeIdOff + t)
      reads this`idMap, this`nullAdj, this`typeIdOff
    {
      if t == 0 then 0
      else if t < |idMap| then idMap[t]
      else typeIdOff + t - Adj(t)
    }

    /** The prefix sums of holes; kept only when there is a hole. */
    method BuildNullAdj(table: Table)
      requires table != []
      modifies this`nullAdj
      ensures nullAdj != [] ==> |nullAdj| == |table| + 1
      ensures forall i :: 0 <= i < |table| ==> Adj(i) == Nulls(table, i)
      ensures Adj(|table|) == Nulls(table, |table| - 1)
    {
      hide Nulls;
      var adj: seq<nat> := [0];
      var nulls: nat := 0;
      NullsStep(table, 0);
      for i := 1 to |table|
        invariant |adj| == i && nulls == Nulls(table, i - 1)
        invariant forall j :: 0 <= j < i ==> adj[j] == Nulls(table, j)
      {
        NullsStep(table, i);
        if table[i].None? {
          nulls := nulls + 1;
        }
        adj := adj + [nulls];
      }
      adj := adj + [nulls];
      if nulls > 0 {
        nullAdj := adj;
      } else {
        nullAdj := [];
        forall i | 0 <= i < |table| ensures Nulls(table, i) == 0 {
          NullsMonotone(table, i, |table| - 1);
        }
      }
    }

    /** btf_encoder__precompute_btf_ids: the map holds exactly the ids the types will get. */
    method PrecomputeBtfIds(table: Table)
      requires table != []
      requires nullAdj != [] ==> |nullAdj| == |table| + 1
      requires forall i :: 0 <= i < |table| ==> Adj(i) == Nulls(table, i)
      modifies this`idMap, this`idExtra, this`idSkipped
      ensures |idMap| == |table|
      ensures forall c :: 0 <= c < |table| ==> idMap[c] == MapId(table, typeIdOff, c)
      ensures idExtra == Extras(table, |table|) && idSkipped == Skips(table, |table|)
    {
      idMap := seq(|table|, _ => 0);
      var extra: nat, skipped: nat := 0, 0;
      for cid := 1 to |table|
        invariant |idMap| == |table| && nullAdj == old(nullAdj) && typeIdOff == old(typeIdOff)
        invariant extra == Extras(table, cid) && skipped == Skips(table, cid)
        invariant forall c :: 0 <= c < cid ==> idMap[c] == MapId(table, typeIdOff, c)
        invariant forall c :: cid <= c < |table| ==> idMap[c] == 0
      {
        if table[cid].Some? {
          var nrIds := NrIds(table[cid].value);
          if nrIds == 0 {
            skipped := skipped + 1;
          } else {
            CountsAgree(table, cid + 1);
            CountsAgree(table, cid);
            var base := typeIdOff + cid - Adj(cid) - skipped + extra;
            idMap := idMap[cid := base + (nrIds - 1)];
            extra := extra + (nrIds - 1);
          }
        }
      }
      idExtra, idSkipped := extra, skipped;
    }

    /** Choose the array index type: the CU's own "int", else the id after its last type. */
    method PickIndexType(table: Table)
      requires table != [] && |idMap| == |table|
      requires forall c :: 0 <= c < |table| ==> idMap[c] == MapId(table, typeIdOff, c)
      requires nullAdj != [] ==> |nullAdj| == |table| + 1
      requires Adj(|table|) == Nulls(table, |table| - 1)
      requires idExtra == Extras(table, |table|) && idSkipped == Skips(table, |table|)
      modifies this`hasIndexType, this`arrayIndexId
      ensures old(hasIndexType) ==> hasIndexType && arrayIndexId == old(arrayIndexId)
      ensures !old(hasIndexType) ==>
                var c := FindBase(table, "int", 1);
                && (hasIndexType <==> c != 0)
                && (c != 0 ==> c < |table| && arrayIndexId == MapId(table, typeIdOff, c))
                && (c == 0 ==> arrayIndexId == typeIdOff + IdsBefore(table, |table|) + 1)
    {
      if !hasIndexType {
        var c := 1;
        while c < |table| && !(table[c].Some? && table[c].value.BaseType? && table[c].value.name == "int")
          invariant 1 <= c <= |table|
          invariant FindBase(table, "int", 1) == FindBase(table, "int", c)
        {
          c := c + 1;
        }
        if c < |table| {
          hasIndexType := true;
          arrayIndexId := TagType(c);
        } else {
          CountsAgree(table, |table|);
          hasIndexType := false;
          arrayIndexId := typeIdOff + |table| - Adj(|table|) - idSkipped + idExtra;
        }
      }
    }

    // ----- emission: libbpf appends, and later adds members to the newest type -----

    method Append(t: B.Type) returns (id: nat)
      modifies this`btf
      ensures btf == old(btf) + [t] && id == |btf|
    {
      btf := btf + [t];
      id := |btf|;
    }

    ghost predicate Mapped(refs: seq<nat>)
      reads this`idMap
    {
      WithinMap(idMap, refs)
    }

    /** btf_encoder__tag_type over a list of references. */
    ghost function Translate(refs: seq<nat>): (r: seq<nat>)
      requires Mapped(refs)
      reads this`idMap
      ensures |r| == |refs|
    {
      Lookup(idMap, refs)
    }

    /** btf_encoder__add_struct_type: the struct first, then field by field. */
    method AddStructType(isUnion: bool, name: string, size: nat, members: seq<B.Member>) returns (id: nat)
      requires Mapped(B.MemberRefs(members))
      modifies this`btf
      ensures id == |btf|
      ensures btf == old(btf) + [B.Composite(isUnion, name, size, EmitMembers(members, Translate(B.MemberRefs(members))))]
    {
      ghost var refs := B.MemberRefs(members);
      ghost var fields := EmitMembers(members, Translate(refs));
      id := Append(B.Composite(isUnion, name, size, []));
      for k := 0 to |members|
        invariant id == |btf| && btf == old(btf) + [B.Composite(isUnion, name, size, fields[..k])]
      {
        var pos := members[k];
        assert pos.ref == refs[k];
        var newest := btf[|btf| - 1];
        btf := btf[|btf| - 1 := newest.(members := newest.members + [pos.(ref := TagType(pos.ref))])];
        assert fields[..k + 1] == fields[..k] + [fields[k]];
        assert btf == old(btf) + [B.Composite(isUnion, name, size, fields[..k + 1])];
      }
      assert fields[..|members|] == fields;
    }

    /** btf_encoder__add_enum_type: 32 or 64 bit, then value by value. */
    method AddEnumType(name: string, bits: nat, signed: bool, values: seq<B.Value>) returns (id: nat)
      modifies this`btf
      ensures id == |btf|
      ensures btf == old(btf) + [if IsEnum32(cfg, bits) then B.Enum(name, RoundupBytes(bits), EnumValues(cfg, values))
                                 else B.Enum64(name, RoundupBytes(bits), signed, values)]
    {
      ghost var written := EnumValues(cfg, values);
      if IsEnum32(cfg, bits) {
        id := Append(B.Enum(name, RoundupBytes(bits), []));
      } else {
        id := Append(B.Enum64(name, RoundupBytes(bits), signed, []));
      }
      for k := 0 to |values|
        invariant id == |btf|
        invariant btf == old(btf) + [if IsEnum32(cfg, bits) then B.Enum(name, RoundupBytes(bits), written[..k])
                                     else B.Enum64(name, RoundupBytes(bits), signed, written[..k])]
      {
        var newest := btf[|btf| - 1];
        var value := if cfg.skipEnum64 then values[k].(value := values[k].value % 0x1_0000_0000) else values[k];
        btf := btf[|btf| - 1 := newest.(values := newest.values + [value])];
        assert written[..k + 1] == written[..k] + [written[k]];
      }
      assert written[..|values|] == written;
    }

    /** btf_encoder__add_func_proto_for_ftype: the return type, the parameters, and an unnamed void one for "...". */
    method AddFuncProto(ret: nat, params: seq<B.Param>, unspec: bool) returns (id: nat)
      requires Mapped([ret]) && Mapped(B.ParamRefs(params))
      modifies this`btf
      ensures id == |btf|
      ensures btf == old(btf) + [B.FuncProto(Translate([ret])[0], EmitParams(params, Translate(B.ParamRefs(params))) +
                                                         (if unspec then [B.Param("", 0)] else []))]
    {
      ghost var refs := B.ParamRefs(params);
      assert [ret][0] < |idMap|;
      ghost var written := EmitParams(params, Translate(refs));
      id := Append(B.FuncProto(TagType(ret), []));
      for k := 0 to |params|
        invariant id == |btf| && btf == old(btf) + [B.FuncProto(TagType(ret), written[..k])]
      {
        var param := params[k];
        assert param.ref == refs[k];
        var newest := btf[|btf| - 1];
        btf := btf[|btf| - 1 := newest.(params := newest.params + [param.(ref := TagType(param.ref))])];
        assert written[..k + 1] == written[..k] + [written[k]];
      }
      assert written[..|params|] == written == written + [];
      if unspec {
        var newest := btf[|btf| - 1];
        btf := btf[|btf| - 1 := newest.(params := newest.params + [B.Param("", 0)])];
      }
    }

    /** The array case: one type per dimension, innermost first, each pointing at the one before. */
    method AddArrayType(elem: nat, dims: seq<nat>) returns (id: nat)
      modifies this`btf, this`needIndexType
      ensures needIndexType && id == |btf|
      ensures btf == old(btf) + EmitArray(Dims(dims), elem, arrayIndexId, |old(btf)| + 1)
    {
      needIndexType := true;
      if |dims| == 0 {
        id := Append(B.Array(elem, arrayIndexId, 0));
        return;
      }
      id := elem;
      var i := |dims|;
      while i > 0
        invariant 0 <= i <= |dims| && needIndexType
        invariant i == |dims| ==> id == elem && btf == old(btf)
        invariant i < |dims| ==>
                    id == |btf| && btf == old(btf) + EmitArray(dims[i..], elem, arrayIndexId, |old(btf)| + 1)
      {
        i := i - 1;
        assert i + 1 < |dims| ==> dims[i..][1..] == dims[i + 1..];
        id := Append(B.Array(id, arrayIndexId, dims[i]));
      }
      assert dims[0..] == dims;
    }

    /** btf_encoder__encode_tag: the id, Some(0) for a skipped tag, None for an error. */
    method EncodeTag(tag: Tag) returns (id: Option<nat>)
      requires Mapped(TagRefs(tag))
      modifies this`btf, this`needIndexType
      ensures id == if tag.Unspecified? then Some(0) else if Encodable(cfg, tag) then Some(|btf|) else None
      ensures id == None <==>
                tag.Unsupported? || (tag.BaseType? && cfg.genFloats && !tag.signed && !tag.isBool && tag.floatType !in {0, 1, 2, 6})
      ensures !tag.Unspecified? && !tag.ArrayTag? && id.Some? ==>
                |btf| == |old(btf)| + 1 && old(btf) <= btf && Formed(cfg, tag, btf[|btf| - 1], idMap)
      ensures tag.ArrayTag? ==>
                && |btf| == |old(btf)| + (if tag.dims == [] then 1 else |tag.dims|) && old(btf) <= btf
                && ArrayFormed(tag.dims, To(idMap, tag.ref), btf, |btf|)
      ensures tag.Unspecified? || !Encodable(cfg, tag) ==> btf == old(btf)
      ensures tag.ArrayTag? ==>
                btf == old(btf) + EmitArray(Dims(tag.dims), Translate(TagRefs(tag))[0], arrayIndexId, |old(btf)| + 1)
      ensures !tag.Unspecified? && !tag.ArrayTag? && Encodable(cfg, tag) ==>
                btf == old(btf) + [EmitOne(cfg, tag, Translate(TagRefs(tag)))]
      ensures needIndexType == (old(needIndexType) || tag.ArrayTag?)
    {
      hide Formed, ArrayFormed, RoundupBytes, EnumValues, EmitArray, To;
      assert forall k :: 0 <= k < |TagRefs(tag)| ==> TagRefs(tag)[k] < |idMap|;
      EncodableExactly(cfg, tag);
      var newId;
      match tag {
      case BaseType(_, _, _, _, _) =>
        var b := BaseToBtf(cfg, tag);
        if b.None? {
          return None;
        }
        newId := Append(b.value);
      case RefTag(kind, ref) =>
        newId := Append(B.Ref(kind, TagType(TagRefs(tag)[0])));
      case TypedefTag(name, ref) =>
        newId := Append(B.Typedef(name, TagType(TagRefs(tag)[0])));
      case Annotation(value, ref) =>
        newId := Append(B.TypeTag(value, TagType(TagRefs(tag)[0])));
      case ClassTag(form, name, declaration, size, members) =>
        if declaration {
          newId := Append(B.Fwd(name, form == Union));
        } else {
          newId := AddStructType(form == Union, name, size, members);
        }
      case ArrayTag(ref, dims) =>
        newId := AddArrayType(TagType(TagRefs(tag)[0]), dims);
      case EnumTag(name, bits, signed, values) =>
        newId := AddEnumType(name, bits, signed, values);
      case Subroutine(ret, params, unspec) =>
        ProtoRefs(tag, idMap);
        newId := AddFuncProto(ret, params, unspec);
      case Unspecified =>
        return Some(0);
      case Unsupported(_, _) =>
        return None;
      }
      TagFormed(tag, old(btf));
      return Some(newId);
    }

    /** What was appended for the tag is what it should become. */
    lemma TagFormed(tag: Tag, before: seq<B.Type>)
      requires Mapped(TagRefs(tag)) && !tag.Unspecified? && Encodable(cfg, tag)
      requires if tag.ArrayTag? then btf == before + EmitArray(Dims(tag.dims), Translate(TagRefs(tag))[0], arrayIndexId, |before| + 1)
               else btf == before + [EmitOne(cfg, tag, Translate(TagRefs(tag)))]
      ensures if tag.ArrayTag? then ArrayFormed(tag.dims, To(idMap, tag.ref), btf, |btf|)
              else Formed(cfg, tag, btf[|btf| - 1], idMap)
    {
      hide Formed, ArrayFormed, EmitOne, EmitArray, TagRefs, Head;
      RefsTranslated(tag, idMap);
      if tag.ArrayTag? {
        RefOfArray(tag);
        ArrayAppended(before, tag.dims, To(idMap, tag.ref), arrayIndexId);
      } else {
        EmitOneFormed(cfg, tag, Translate(TagRefs(tag)), idMap);
      }
    }

    static lemma RefsTranslated(tag: Tag, idMap: seq<nat>)
      requires WithinMap(idMap, TagRefs(tag))
      ensures Translated(tag, Lookup(idMap, TagRefs(tag)), idMap)
    {
      hide TagRefs;
    }

    static lemma ArrayAppended(before: seq<B.Type>, dims: seq<nat>, elem: nat, index: nat)
      ensures var btf := before + EmitArray(Dims(dims), elem, index, |before| + 1);
              ArrayFormed(dims, elem, btf, |btf|)
    {
      hide EmitArray, ArrayFormed, Dims;
      var chain := EmitArray(Dims(dims), elem, index, |before| + 1);
      assert (before + chain)[|before|..|before| + |chain|] == chain;
      EmitArrayFormed(before + chain, dims, elem, index, |before| + 1);
    }

    static lemma RefOfArray(tag: Tag)
      requires tag.ArrayTag?
      ensures TagRefs(tag) == [tag.ref]
    {
    }

    /** The unit a table forms on top of what is already emitted. */
    ghost function UnitOf(table: Table): Unit
      reads this`typeIdOff, this`arrayIndexId
    {
      Unit(cfg, table, typeIdOff, arrayIndexId)
    }

    /** The id map is the prediction. */
    ghost predicate Predicted(table: Table)
      reads this`idMap, this`typeIdOff
    {
      && |idMap| == |table| > 0
      && forall c :: 0 <= c < |table| ==> idMap[c] == MapId(table, typeIdOff, c)
    }

    /** What one entry contributes, given the prediction. */
    lemma EmitsUnit(table: Table, c: nat)
      requires Closed(table) && Predicted(table) && 0 < c < |table| && table[c].Some?
      ensures Mapped(TagRefs(table[c].value))
      ensures UnitOf(table).Valid() ==> Translate(TagRefs(table[c].value)) == UnitOf(table).MapRefs(c)
    {
      hide TagRefs, AllEncodable;
      var refs := TagRefs(table[c].value);
      forall k | 0 <= k < |refs| ensures refs[k] < |idMap| {
        assert refs[k] in refs;
      }
    }

    /** One turn of the emission loop, with the two consistency checks on the id it got. */
    method EncodeEntry(table: Table, coreId: nat) returns (outcome: Outcome)
      requires Closed(table) && Predicted(table) && 0 < coreId < |table|
      requires |btf| == typeIdOff + IdsBefore(table, coreId)
      modifies this`btf, this`needIndexType
      ensures outcome == if table[coreId].None? || Encodable(cfg, table[coreId].value) then Encoded else CannotEncode(coreId)
      ensures outcome.Encoded? ==> |btf| == typeIdOff + IdsBefore(table, coreId + 1)
      ensures outcome.Encoded? && UnitOf(table).Valid() ==> btf == old(btf) + UnitOf(table).Emit(coreId)
      ensures needIndexType == (old(needIndexType) || (table[coreId].Some? && table[coreId].value.ArrayTag?))
    {
      hide TagRefs, EmitOne, Head, Closed, AllEncodable, MapIds;
      if table[coreId].Some? {
        EmitsUnit(table, coreId);
        var id := EncodeTag(table[coreId].value);
        if id.None? {
          return CannotEncode(coreId);
        }
        if id.value != 0 {
          var expected := idMap[coreId];
          if expected == 0 {
            return UnexpectedEmit(coreId);
          }
          if id.value != expected {
            return IdDrift(coreId);
          }
        }
      }
      return Encoded;
    }

    static lemma TypesStep(unit: Unit, before: seq<B.Type>, now: seq<B.Type>, c: nat)
      requires unit.Valid() && 0 < c < |unit.table| && now == before + unit.Types(c)
      ensures now + unit.Emit(c) == before + unit.Types(c + 1)
    {
      hide EmitOne, EmitArray, Closed, AllEncodable;
    }

    /**
     The emission loop of btf_encoder__encode_cu. Neither the drift check nor the unexpected-emit
     check can fire; the only failure is a tag that has no BTF form.
     */
    method EncodeTypes(table: Table) returns (outcome: Outcome)
      requires table != [] && Closed(table) && Predicted(table) && |btf| == typeIdOff
      modifies this`btf, this`needIndexType
      ensures outcome.Encoded? || outcome.CannotEncode?
      ensures outcome.Encoded? <==> AllEncodable(cfg, table)
      ensures outcome.Encoded? ==> btf == old(btf) + UnitOf(table).Types(|table|)
      ensures outcome.Encoded? ==> needIndexType == (old(needIndexType) || HasArray(table, |table|))
    {
      hide TagRefs, EmitOne, EmitArray, Head, Closed, MapIds, Encodable, AllEncodable, EncodableBelow, MapId, Predicted;
      ghost var unit := UnitOf(table);
      var coreId := 1;
      EncodableAll(cfg, table, 1);
      while coreId < |table|
        invariant 1 <= coreId <= |table|
        invariant |btf| == typeIdOff + IdsBefore(table, coreId)
        invariant EncodableBelow(cfg, table, coreId)
        invariant unit.Valid() ==> btf == old(btf) + unit.Types(coreId)
        invariant needIndexType == (old(needIndexType) || HasArray(table, coreId))
      {
        if unit.Valid() {
          TypesStep(unit, old(btf), btf, coreId);
        }
        outcome := EncodeEntry(table, coreId);
        EncodableStep(cfg, table, coreId);
        if !outcome.Encoded? {
          EncodableAll(cfg, table, coreId + 1);
          return;
        }
        coreId := coreId + 1;
      }
      EncodableAll(cfg, table, |table|);
      return Encoded;
    }

    // ----- a whole CU, and CU after CU -----

    ghost predicate Sound()
      reads this
    {
      && B.RefsWithin(btf, |btf|)
      && (hasIndexType ==> 0 < arrayIndexId <= |btf| && B.Refs(B.TypeById(btf, arrayIndexId)) == [])
      && (needIndexType ==> hasIndexType)
    }

    /** Between two CUs. */
    ghost predicate Valid()
      reads this
    {
      Sound() && nullAdj == [] && idMap == []
    }

    /** The head of the type arrays are indexed by, once that is settled. */
    ghost function IndexHead(): Option<B.Label>
      requires Sound()
      reads this
    {
      if hasIndexType then Some(B.LabelOf(B.TypeById(btf, arrayIndexId))) else None
    }

    /** Work before the first type of the CU is emitted. */
    method Prepare(table: Table)
      requires table != [] && Valid()
      modifies this
      ensures btf == old(btf) && typeIdOff == |btf| && needIndexType == old(needIndexType)
      ensures Predicted(table)
      ensures old(hasIndexType) ==> hasIndexType && arrayIndexId == old(arrayIndexId)
      ensures !old(hasIndexType) ==>
                var c := FindBase(table, "int", 1);
                && (hasIndexType <==> c != 0)
                && (c != 0 ==> c < |table| && arrayIndexId == MapId(table, typeIdOff, c))
                && (c == 0 ==> arrayIndexId == typeIdOff + IdsBefore(table, |table|) + 1)
    {
      typeIdOff := |btf|;
      BuildNullAdj(table);
      PrecomputeBtfIds(table);
      PickIndexType(table);
    }

    /** "int", appended when arrays need it and no CU provided it. */
    method AddIndexType()
      modifies this`btf, this`hasIndexType
      ensures old(needIndexType && !hasIndexType) ==>
                btf == old(btf) + [B.Int("int", 4, B.INT_SIGNED)] && hasIndexType
      ensures !old(needIndexType && !hasIndexType) ==> btf == old(btf) && hasIndexType == old(hasIndexType)
    {
      if needIndexType && !hasIndexType {
        var id := Append(B.Int("int", 4, B.INT_SIGNED));
        hasIndexType := true;
      }
    }

    /**
     The type loops of btf_encoder__encode_cu. When every tag has a BTF form, encoding succeeds, only
     appends, and every id of the CU means in the BTF graph what it meant in the types table:
     at every depth, forward references and cycles included.
     */
    method EncodeEntries(table: Table) returns (outcome: Outcome)
      requires Valid() && Closed(table) && table != []
      modifies this
      ensures outcome.Encoded? || outcome.CannotEncode?
      ensures outcome.Encoded? <==> AllEncodable(cfg, table)
      ensures outcome.Encoded? ==> Sound() && Predicted(table) && typeIdOff == |old(btf)| && old(btf) <= btf
      ensures outcome.Encoded? ==> Means(cfg, btf, idMap, table, HeadFor(cfg, old(IndexHead()), table))
      ensures outcome.Encoded? ==> AllFormed(cfg, table, btf, idMap)
      ensures outcome.Encoded? ==> |btf| == |old(btf)| + TypeIds(old(IndexHead()), table)
      ensures outcome.Encoded? ==> IndexHead() == HeadAfter(cfg, old(IndexHead()), table)
    {
      hide Closed, AllEncodable, B.RefsWithin, Means, FindBase, B.Refs, B.LabelOf, MapId, FreshIndexHead, HasArray,
           IdsBefore, AllFormed;
      ghost var head := HeadFor(cfg, IndexHead(), table);
      Prepare(table);
      ghost var ids := idMap;
      assert IdsOf(UnitOf(table), ids);
      hide IdsOf, Nulls, Skips, Extras;
      outcome := EncodeTypes(table);
      if outcome.Encoded? {
        ghost var unit := UnitOf(table);
        ghost var tail := FinishIndex(table, old(btf), old(hasIndexType), head);
        CuMeans(unit, old(btf), btf, tail, ids, head);
      }
    }

    /** Once the CU's types are out, the array index type exists or is appended. */
    method FinishIndex(table: Table, ghost before: seq<B.Type>, ghost had: bool,
            ghost head: B.Label) returns (ghost tail: seq<B.Type>)
      requires var unit := UnitOf(table);
               && unit.Valid() && |before| == typeIdOff && btf == before + unit.Types(|table|)
      requires had ==> hasIndexType && UnitOf(table).IndexIn(before, head)
      requires !had ==>
                 var c := FindBase(table, "int", 1);
                 && head == FreshIndexHead(cfg, table)
                 && (hasIndexType <==> c != 0)
                 && (c != 0 ==> c < |table| && arrayIndexId == MapId(table, typeIdOff, c))
                 && (c == 0 ==> arrayIndexId == typeIdOff + IdsBefore(table, |table|) + 1)
      modifies this`btf, this`hasIndexType
      ensures btf == before + UnitOf(table).Types(|table|) + tail
      ensures forall t :: t in tail ==> B.Refs(t) == []
      ensures |tail| == (if old(needIndexType && !hasIndexType) then 1 else 0)
      ensures hasIndexType == old(hasIndexType || needIndexType)
      ensures hasIndexType ==> UnitOf(table).IndexIn(btf, head)
    {
      hide Closed, AllEncodable, B.RefsWithin, FindBase, B.LabelOf, MapId, FreshIndexHead;
      ghost var unit, emitted := UnitOf(table), btf;
      AddIndexType();
      tail := btf[|emitted|..];
      assert btf == emitted + tail;
      if had {
        assert B.TypeById(btf, arrayIndexId) == B.TypeById(before, arrayIndexId);
      } else if FindBase(table, "int", 1) != 0 {
        FoundIndex(unit, before, btf, tail);
      } else if hasIndexType {
        DefaultIndex(unit, btf);
      }
    }

    /** One declaration tag per annotation. */
    method AddDeclTags(annots: seq<Annot>, ref: nat)
      modifies this`btf
      ensures btf == old(btf) + TagsFor(annots, ref)
    {
      ghost var tags := TagsFor(annots, ref);
      for k := 0 to |annots|
        invariant btf == old(btf) + tags[..k]
      {
        assert tags[..k + 1] == tags[..k] + [tags[k]];
        var _ := Append(B.DeclTag(annots[k].value, annots[k].component, ref));
      }
      assert tags[..|annots|] == tags;
    }

    /** The second loop over the types: annotations of structs, unions and typedefs. None is ever unmapped. */
    method AddTypeTags(cu: Cu)
      requires Complete(cu) && Predicted(cu.table)
      modifies this`btf
      ensures btf == old(btf) + TypeTags(cu, typeIdOff, |cu.table|)
    {
      hide Closed, MapId, TagsFor;
      for coreId := 1 to |cu.table|
        invariant btf == old(btf) + TypeTags(cu, typeIdOff, coreId)
      {
        var e := cu.table[coreId];
        if Annotated(e) {
          AnnotatedIsMapped(cu.table, typeIdOff, coreId);
          if idMap[coreId] != 0 {
            AddDeclTags(cu.annots[coreId], idMap[coreId]);
          }
        }
      }
    }

    static lemma MapsVoid(table: Table, off: nat)
      requires table != []
      ensures MapId(table, off, 0) == 0
    {
    }

    static lemma Joined<T>(a: seq<T>, b: seq<T>, x: T, c: seq<T>)
      ensures a + b + [x] + c == a + (b + [x] + c)
    {
    }

    /** btf_encoder__encode_cu_variables, from the variables the filters let through. */
    method AddVariables(cu: Cu)
      requires Complete(cu) && Predicted(cu.table)
      modifies this`btf
      ensures btf == old(btf) + Vars(cu, typeIdOff, |old(btf)|, |cu.variables|)
    {
      hide Closed, MapId, TagsFor;
      for k := 0 to |cu.variables|
        invariant btf == old(btf) + Vars(cu, typeIdOff, |old(btf)|, k)
      {
        var v := cu.variables[k];
        assert v in cu.variables;
        ghost var front := Vars(cu, typeIdOff, |old(btf)|, k);
        var id := Append(B.Var(v.name, v.linkage, TagType(v.ref)));
        AddDeclTags(v.annots, id);
        assert TagType(v.ref) == MapId(cu.table, typeIdOff, v.ref) by {
          MapsVoid(cu.table, typeIdOff);
        }
        Joined(old(btf), front, B.Var(v.name, v.linkage, TagType(v.ref)), TagsFor(v.annots, id));
      }
    }

    /**
     btf_encoder__encode_cu, functions left out. The types as above; then exactly one declaration tag per
     annotation of a struct, union or typedef, for the type it annotates, and the variables with theirs.
     */
    method EncodeCu(cu: Cu) returns (outcome: Outcome, ghost ids: seq<nat>)
      requires Valid() && Complete(cu)
      modifies this
      ensures outcome.Encoded? || outcome.CannotEncode?
      ensures outcome.Encoded? <==> AllEncodable(cfg, cu.table)
      ensures outcome.Encoded? ==> Valid() && old(btf) <= btf && IndexHead() == HeadAfter(cfg, old(IndexHead()), cu.table)
      ensures outcome.Encoded? ==> Means(cfg, btf, ids, cu.table, HeadFor(cfg, old(IndexHead()), cu.table))
      ensures outcome.Encoded? ==> AllFormed(cfg, cu.table, btf, ids)
      ensures outcome.Encoded? ==> Placed(cu, old(IndexHead()), |old(btf)|, btf, ids)
      ensures outcome.Encoded? ==> |btf| == |old(btf)| + AllIds(old(IndexHead()), cu)
    {
      hide Closed, B.RefsWithin, Means, FreshIndexHead, TypeTags, Vars, AllEncodable, HasArray, FindBase, B.Refs, B.LabelOf, MapId, Placed,
           HeadFor, HeadAfter, AddsIndex, IdsBefore, AllFormed;
      if cu.table == [] {
        NothingIn(cfg, IndexHead(), cu, btf);
        typeIdOff := |btf|;
        if !hasIndexType {
          arrayIndexId := typeIdOff;
        }
        return Encoded, [];
      }
      outcome := EncodeEntries(cu.table);
      if !outcome.Encoded? {
        return outcome, [];
      }
      ids := idMap;
      ghost var types := btf;
      AddTypeTags(cu);
      ghost var tagged := btf;
      AddVariables(cu);
      OthersFine(cu, typeIdOff, types, tagged, btf);
      PlacedNow(cu, old(IndexHead()), typeIdOff, types, btf, ids);
      ghost var head := HeadFor(cfg, old(IndexHead()), cu.table);
      MeansStays(cfg, types, btf[|types|..], ids, cu.table, head);
      FormedStays(cfg, cu.table, types, btf[|types|..], ids);
      assert btf == types + btf[|types|..];
      nullAdj, idMap, idExtra, idSkipped := [], [], 0, 0;
    }

    static lemma NoneYet(cfg: Config, head: Option<B.Label>, off: nat, cus: seq<Cu>)
      requires forall i :: 0 <= i < |cus| ==> Complete(cus[i])
      ensures HeadBefore(cfg, head, cus, 0) == head && OffsetOf(cfg, head, off, cus, 0) == off
    {
    }

    static lemma OneMore(cfg: Config, head: Option<B.Label>, off: nat, cus: seq<Cu>, n: nat)
      requires n < |cus| && forall i :: 0 <= i < |cus| ==> Complete(cus[i])
      ensures HeadBefore(cfg, head, cus, n + 1) == HeadAfter(cfg, HeadBefore(cfg, head, cus, n), cus[n].table)
      ensures OffsetOf(cfg, head, off, cus, n + 1) == OffsetOf(cfg, head, off, cus, n) + AllIds(HeadBefore(cfg, head, cus, n), cus[n])
    {
    }

    /** Any sequence of CUs, one encoder: at the end each CU still means what its table meant, at the ids predicted. */
    method EncodeCus(cus: seq<Cu>) returns (outcome: Outcome, ghost ids: seq<seq<nat>>)
      requires Valid() && forall i :: 0 <= i < |cus| ==> Complete(cus[i])
      modifies this
      ensures outcome.Encoded? || outcome.CannotEncode?
      ensures outcome.Encoded? <==> forall i :: 0 <= i < |cus| ==> AllEncodable(cfg, cus[i].table)
      ensures outcome.Encoded? ==> Valid() && old(btf) <= btf && |ids| == |cus|
      ensures outcome.Encoded? ==> var head, off := old(IndexHead()), |old(btf)|;
                && |btf| == OffsetOf(cfg, head, off, cus, |cus|) && IndexHead() == HeadBefore(cfg, head, cus, |cus|)
                && (forall i :: 0 <= i < |cus| ==>
                      Means(cfg, btf, ids[i], cus[i].table, HeadFor(cfg, HeadBefore(cfg, head, cus, i), cus[i].table)))
                && (forall i :: 0 <= i < |cus| ==> AllFormed(cfg, cus[i].table, btf, ids[i]))
                && (forall i :: 0 <= i < |cus| ==>
                      Placed(cus[i], HeadBefore(cfg, head, cus, i), OffsetOf(cfg, head, off, cus, i), btf, ids[i]))
    {
      hide Complete, AllEncodable, Means, AllFormed, B.Refs, B.RefsWithin, Placed, HeadAfter, HeadFor, AllIds, B.LabelOf, HeadBefore, OffsetOf;
      NoneYet(cfg, IndexHead(), |btf|, cus);
      ghost var head, off := IndexHead(), |btf|;
      ids := [];
      for i := 0 to |cus|
        invariant Valid() && old(btf) <= btf && |ids| == i
        invariant |btf| == OffsetOf(cfg, head, off, cus, i) && IndexHead() == HeadBefore(cfg, head, cus, i)
        invariant forall j :: 0 <= j < i ==> AllEncodable(cfg, cus[j].table)
        invariant forall j :: 0 <= j < i ==>
                    Means(cfg, btf, ids[j], cus[j].table, HeadFor(cfg, HeadBefore(cfg, head, cus, j), cus[j].table))
        invariant forall j :: 0 <= j < i ==> AllFormed(cfg, cus[j].table, btf, ids[j])
        invariant forall j :: 0 <= j < i ==>
                    Placed(cus[j], HeadBefore(cfg, head, cus, j), OffsetOf(cfg, head, off, cus, j), btf, ids[j])
      {
        ghost var before := btf;
        ghost var map';
        outcome, map' := EncodeCu(cus[i]);
        if !outcome.Encoded? {
          return;
        }
        OneMore(cfg, head, off, cus, i);
        assert btf == before + btf[|before|..];
        forall j | 0 <= j < i
          ensures Means(cfg, btf, ids[j], cus[j].table, HeadFor(cfg, HeadBefore(cfg, head, cus, j), cus[j].table))
          ensures AllFormed(cfg, cus[j].table, btf, ids[j])
          ensures Placed(cus[j], HeadBefore(cfg, head, cus, j), OffsetOf(cfg, head, off, cus, j), btf, ids[j])
        {
          FormedStays(cfg, cus[j].table, before, btf[|before|..], ids[j]);
          MeansStays(cfg, before, btf[|before|..], ids[j], cus[j].table, HeadFor(cfg, HeadBefore(cfg, head, cus, j), cus[j].table));
          PlacedStays(cus[j], HeadBefore(cfg, head, cus, j), OffsetOf(cfg, head, off, cus, j), before, btf[|before|..], ids[j]);
        }
        ids := ids + [map'];
      }
      return Encoded, ids;
    }
  }
}
