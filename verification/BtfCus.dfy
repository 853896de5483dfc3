/** What a CU adds to the BTF besides its types, and where each CU of a sequence ends up. */
module BtfCus {
  import opened Wrappers
  import opened Dwarf
  import opened BtfIds
  import B = Btf

  /** Position of the first base type of that name, 0 when there is none. */
  ghost function FindBase(table: Table, name: string, c: nat): nat
    requires 0 < c
    decreases |table| - c
  {
    if c >= |table| then 0
    else if table[c].Some? && table[c].value.BaseType? && table[c].value.name == name then c
    else FindBase(table, name, c + 1)
  }

  /** It is the first, and there is none when it is 0. */
  lemma {:induction false} FindBaseSound(table: Table, name: string, c: nat)
    requires 0 < c
    ensures var k := FindBase(table, name, c);
            k > 0 ==> c <= k < |table| && table[k].Some? && table[k].value.BaseType? && table[k].value.name == name
    ensures var k := FindBase(table, name, c);
            forall j :: c <= j < |table| && (k > 0 ==> j < k) ==>
              !(table[j].Some? && table[j].value.BaseType? && table[j].value.name == name)
    decreases |table| - c
  {
    if c < |table| {
      FindBaseSound(table, name, c + 1);
    }
  }

  /** The head of the array index type when no earlier CU settled it. */
  ghost function FreshIndexHead(cfg: Config, table: Table): B.Label {
    FindBaseSound(table, "int", 1);
    var c := FindBase(table, "int", 1);
    if c != 0 && Head(cfg, table[c].value).Some? then Head(cfg, table[c].value).value
    else B.LInt("int", 4, B.INT_SIGNED)
  }

  /** It is called "int", unless the CU's own "int" has a size the kernel refuses. */
  lemma IndexIsCalledInt(cfg: Config, table: Table)
    requires AllEncodable(cfg, table)
    ensures var c := FindBase(table, "int", 1);
            var head := FreshIndexHead(cfg, table);
            && (head.LInt? || head.LFloat?)
            && (c == 0 ==> head == B.LInt("int", 4, B.INT_SIGNED))
            && (c != 0 ==>
                  && c < |table| && table[c].Some? && table[c].value.BaseType?
                  && (head.name == "int" <==> head.LFloat? || RegularIntSize(RoundupBytes(table[c].value.bits))))
  {
    hide FindBase;
    FindBaseSound(table, "int", 1);
  }

  // ----- declaration tags and variables -----

  datatype Annot = Annot(value: string, component: int)

  datatype Variable = Variable(name: string, linkage: nat, ref: nat, annots: seq<Annot>)

  /**
   A CU as the encoder meets it: its types table, the annotations of each entry (a struct's, union's or
   typedef's; those of other entries are never read), and the variables its filters let through.
   */
  datatype Cu = Cu(table: Table, annots: seq<seq<Annot>>, variables: seq<Variable>)

  ghost predicate Complete(cu: Cu) {
    && Closed(cu.table) && |cu.annots| == |cu.table|
    && (forall v :: v in cu.variables ==> v.ref < |cu.table|)
    && (cu.table == [] ==> cu.variables == [])
  }

  /** Structs, unions and typedefs; a DW_TAG_class_type is passed over. */
  predicate Annotated(e: Option<Tag>) {
    e.Some? && (e.value.TypedefTag? || (e.value.ClassTag? && e.value.form != Class))
  }

  /** One declaration tag per annotation, all for the same type or variable. */
  function TagsFor(annots: seq<Annot>, ref: nat): (r: seq<B.Type>)
    ensures |r| == |annots|
  {
    seq(|annots|, k requires 0 <= k < |annots| => B.DeclTag(annots[k].value, annots[k].component, ref))
  }

  /** The declaration tags of the entries 1 .. n-1 of a CU encoded after `off` types. */
  ghost function TypeTags(cu: Cu, off: nat, n: nat): seq<B.Type>
    requires |cu.annots| == |cu.table| && n <= |cu.table|
  {
    if n <= 1 then []
    else
      TypeTags(cu, off, n - 1) +
      if Annotated(cu.table[n - 1]) then TagsFor(cu.annots[n - 1], MapId(cu.table, off, n - 1)) else []
  }

  /** The first `n` variables, the first of them getting id `at` + 1, each followed by its declaration tags. */
  ghost function Vars(cu: Cu, off: nat, at: nat, n: nat): seq<B.Type>
    requires n <= |cu.variables| && forall v :: v in cu.variables ==> v.ref < |cu.table|
  {
    if n == 0 then []
    else
      var front, v := Vars(cu, off, at, n - 1), cu.variables[n - 1];
      front + [B.Var(v.name, v.linkage, MapId(cu.table, off, v.ref))] + TagsFor(v.annots, at + |front| + 1)
  }

  /** How many they are does not depend on where they go. */
  function VarCount(vs: seq<Variable>): nat {
    if vs == [] then 0 else VarCount(vs[..|vs| - 1]) + 1 + |vs[|vs| - 1].annots|
  }

  function TagCount(cu: Cu, n: nat): nat
    requires |cu.annots| == |cu.table| && n <= |cu.table|
  {
    if n <= 1 then 0 else TagCount(cu, n - 1) + if Annotated(cu.table[n - 1]) then |cu.annots[n - 1]| else 0
  }

  lemma {:induction false} TypeTagsCounted(cu: Cu, off: nat, n: nat)
    requires |cu.annots| == |cu.table| && n <= |cu.table|
    ensures |TypeTags(cu, off, n)| == TagCount(cu, n)
  {
    if n > 1 {
      TypeTagsCounted(cu, off, n - 1);
    }
  }

  lemma {:induction false} VarsCounted(cu: Cu, off: nat, at: nat, n: nat)
    requires n <= |cu.variables| && forall v :: v in cu.variables ==> v.ref < |cu.table|
    ensures |Vars(cu, off, at, n)| == VarCount(cu.variables[..n])
  {
    if n > 0 {
      VarsCounted(cu, off, at, n - 1);
      assert cu.variables[..n][..n - 1] == cu.variables[..n - 1];
    }
  }

  /** The entry has this annotation, and annotations of such entries are written: structs, unions and typedefs. */
  ghost predicate HasAnnot(cu: Cu, c: int, k: int): (has: bool)
    requires |cu.annots| == |cu.table|
    ensures has ==> 0 < c < |cu.table| && 0 <= k < |cu.annots[c]|
  {
    && 0 < c < |cu.table| && 0 <= k < |cu.annots[c]| && cu.table[c].Some?
    && (cu.table[c].value.TypedefTag? || (cu.table[c].value.ClassTag? && cu.table[c].value.form in {Struct, Union}))
  }

  /** The declaration tags are those of these annotations, each for the id of its entry. */
  lemma {:induction false} TypeTagsExactly(cu: Cu, off: nat, n: nat, x: B.Type)
    requires |cu.annots| == |cu.table| && n <= |cu.table|
    ensures x in TypeTags(cu, off, n) <==>
            exists c, k :: HasAnnot(cu, c, k) && c < n &&
              x == B.DeclTag(cu.annots[c][k].value, cu.annots[c][k].component, MapId(cu.table, off, c))
  {
    hide MapId, HasAnnot, TagsFor, Annotated;
    if n > 1 {
      TypeTagsExactly(cu, off, n - 1, x);
      EntryTagsExactly(cu, off, n - 1, x);
    } else {
      AnnotsFrom1(cu);
    }
  }

  lemma AnnotsFrom1(cu: Cu)
    requires |cu.annots| == |cu.table|
    ensures forall c, k :: HasAnnot(cu, c, k) ==> 1 <= c
  {
  }

  lemma EntryTagsExactly(cu: Cu, off: nat, c: nat, x: B.Type)
    requires |cu.annots| == |cu.table| && 0 < c < |cu.table|
    ensures (Annotated(cu.table[c]) && x in TagsFor(cu.annots[c], MapId(cu.table, off, c))) <==>
            exists k :: HasAnnot(cu, c, k) && x == B.DeclTag(cu.annots[c][k].value, cu.annots[c][k].component, MapId(cu.table, off, c))
  {
    hide MapId;
    var tags := TagsFor(cu.annots[c], MapId(cu.table, off, c));
    if Annotated(cu.table[c]) && x in tags {
      var k :| 0 <= k < |tags| && tags[k] == x;
      assert HasAnnot(cu, c, k);
    }
    if k :| HasAnnot(cu, c, k) && x == B.DeclTag(cu.annots[c][k].value, cu.annots[c][k].component, MapId(cu.table, off, c)) {
      assert tags[k] == x;
    }
  }

  /** At `p` there is `x`, and right behind it its declaration tags, for id `id`. */
  ghost predicate TaggedAt(vs: seq<B.Type>, p: nat, x: B.Type, annots: seq<Annot>, id: nat) {
    && p + |annots| < |vs| && vs[p] == x
    && forall a :: 0 <= a < |annots| ==> vs[p + 1 + a] == B.DeclTag(annots[a].value, annots[a].component, id)
  }

  lemma TaggedStays(vs: seq<B.Type>, more: seq<B.Type>, p: nat, x: B.Type, annots: seq<Annot>, id: nat)
    requires TaggedAt(vs, p, x, annots, id)
    ensures TaggedAt(vs + more, p, x, annots, id)
  {
  }

  lemma TaggedLast(front: seq<B.Type>, x: B.Type, annots: seq<Annot>, id: nat)
    ensures TaggedAt(front + ([x] + TagsFor(annots, id)), |front|, x, annots, id)
  {
  }

  /** A variable's place, and its declaration tags right behind it, for its own id. */
  lemma {:induction false} VarAt(cu: Cu, off: nat, at: nat, n: nat, k: nat)
    requires k < n <= |cu.variables| && forall v :: v in cu.variables ==> v.ref < |cu.table|
    ensures var p, v := VarCount(cu.variables[..k]), cu.variables[k];
            && v in cu.variables
            && TaggedAt(Vars(cu, off, at, n), p, B.Var(v.name, v.linkage, MapId(cu.table, off, v.ref)), v.annots, at + p + 1)
  {
    hide MapId, Vars, VarCount, TaggedAt, TagsFor;
    var v, last := cu.variables[k], cu.variables[n - 1];
    assert v in cu.variables && last in cu.variables;
    VarsStep(cu, off, at, n);
    var front, x := Vars(cu, off, at, n - 1), B.Var(v.name, v.linkage, MapId(cu.table, off, v.ref));
    var more := [B.Var(last.name, last.linkage, MapId(cu.table, off, last.ref))] + TagsFor(last.annots, at + |front| + 1);
    if k < n - 1 {
      VarAt(cu, off, at, n - 1, k);
      var p := VarCount(cu.variables[..k]);
      TaggedStays(front, more, p, x, v.annots, at + p + 1);
    } else {
      VarsCounted(cu, off, at, k);
      TaggedLast(front, x, v.annots, at + |front| + 1);
    }
  }

  lemma VarsStep(cu: Cu, off: nat, at: nat, n: nat)
    requires 0 < n <= |cu.variables| && forall v :: v in cu.variables ==> v.ref < |cu.table|
    ensures var front, v := Vars(cu, off, at, n - 1), cu.variables[n - 1];
            && v in cu.variables
            && Vars(cu, off, at, n) ==
               front + ([B.Var(v.name, v.linkage, MapId(cu.table, off, v.ref))] + TagsFor(v.annots, at + |front| + 1))
  {
    hide MapId, TagsFor;
  }

  /** A struct, union or typedef is always mapped: no annotation is ever passed over for want of an id. */
  lemma AnnotatedIsMapped(table: Table, off: nat, c: nat)
    requires 0 < c < |table| && Annotated(table[c])
    ensures 0 < MapId(table, off, c) <= off + IdsBefore(table, |table|)
  {
    IdsBeforeMonotone(table, c + 1, |table|);
  }

  lemma MapIdBounded(table: Table, off: nat, c: nat)
    requires c < |table|
    ensures MapId(table, off, c) <= off + IdsBefore(table, |table|)
  {
    IdsBeforeMonotone(table, c + 1, |table|);
  }

  lemma {:induction false} TypeTagsWithin(cu: Cu, off: nat, n: nat)
    requires |cu.annots| == |cu.table| && n <= |cu.table|
    ensures B.RefsWithin(TypeTags(cu, off, n), off + IdsBefore(cu.table, |cu.table|))
  {
    hide MapId, IdsBefore, Annotated;
    if n > 1 {
      TypeTagsWithin(cu, off, n - 1);
      MapIdBounded(cu.table, off, n - 1);
    }
  }

  lemma {:induction false} VarsWithin(cu: Cu, off: nat, at: nat, n: nat)
    requires n <= |cu.variables| && forall v :: v in cu.variables ==> v.ref < |cu.table|
    requires off + IdsBefore(cu.table, |cu.table|) <= at
    ensures B.RefsWithin(Vars(cu, off, at, n), at + |Vars(cu, off, at, n)|)
  {
    hide MapId, IdsBefore;
    if n > 0 {
      VarsWithin(cu, off, at, n - 1);
      MapIdBounded(cu.table, off, cu.variables[n - 1].ref);
    }
  }

  // ----- CU after CU -----

  /** The head of the array index type after a CU, None as long as nothing settled it. */
  ghost function HeadAfter(cfg: Config, head: Option<B.Label>, table: Table): Option<B.Label> {
    if head.Some? then head
    else if FindBase(table, "int", 1) != 0 || HasArray(table, |table|) then Some(FreshIndexHead(cfg, table))
    else None
  }

  /** The head a CU's arrays are indexed with. */
  ghost function HeadFor(cfg: Config, head: Option<B.Label>, table: Table): B.Label {
    if head.Some? then head.value else FreshIndexHead(cfg, table)
  }

  /** Is "int" appended for this CU's arrays? */
  ghost predicate AddsIndex(head: Option<B.Label>, table: Table) {
    head.None? && FindBase(table, "int", 1) == 0 && HasArray(table, |table|)
  }

  /** Ids a CU takes for its types, the array index type included. */
  ghost function TypeIds(head: Option<B.Label>, table: Table): nat {
    IdsBefore(table, |table|) + if AddsIndex(head, table) then 1 else 0
  }

  ghost function AllIds(head: Option<B.Label>, cu: Cu): nat
    requires |cu.annots| == |cu.table|
  {
    TypeIds(head, cu.table) + TagCount(cu, |cu.table|) + VarCount(cu.variables)
  }

  /** What is settled before CU `n`, and how many types are there by then. */
  ghost function HeadBefore(cfg: Config, head: Option<B.Label>, cus: seq<Cu>, n: nat): Option<B.Label>
    requires n <= |cus|
  {
    if n == 0 then head else HeadAfter(cfg, HeadBefore(cfg, head, cus, n - 1), cus[n - 1].table)
  }

  ghost function OffsetOf(cfg: Config, head: Option<B.Label>, off: nat, cus: seq<Cu>, n: nat): nat
    requires n <= |cus| && forall i :: 0 <= i < |cus| ==> Complete(cus[i])
  {
    if n == 0 then off
    else OffsetOf(cfg, head, off, cus, n - 1) + AllIds(HeadBefore(cfg, head, cus, n - 1), cus[n - 1])
  }

  /** Starting from nothing, the first CU with an "int" or an array settles the head. */
  lemma {:induction false} SettledBy(cfg: Config, cus: seq<Cu>, n: nat) returns (from: nat)
    requires n <= |cus| && HeadBefore(cfg, None, cus, n).Some?
    ensures from < n && HeadBefore(cfg, None, cus, from).None?
    ensures FindBase(cus[from].table, "int", 1) != 0 || HasArray(cus[from].table, |cus[from].table|)
    ensures HeadBefore(cfg, None, cus, n).value == FreshIndexHead(cfg, cus[from].table)
  {
    hide FreshIndexHead, FindBase;
    if HeadBefore(cfg, None, cus, n - 1).Some? {
      from := SettledBy(cfg, cus, n - 1);
    } else {
      from := n - 1;
    }
  }

  /** The table's own "int", if it has one, is of a size the kernel accepts. */
  ghost predicate IntIsRegular(table: Table) {
    var c := FindBase(table, "int", 1);
    c != 0 ==> c < |table| && table[c].Some? && table[c].value.BaseType? && RegularIntSize(RoundupBytes(table[c].value.bits))
  }

  /**
   In every CU of a file, arrays are indexed by a number type, called "int" unless a CU so far has an
   "int" of a size the kernel refuses.
   */
  lemma EveryIndexIsCalledInt(cfg: Config, cus: seq<Cu>, n: nat)
    requires n < |cus| && forall i :: 0 <= i < |cus| ==> AllEncodable(cfg, cus[i].table)
    ensures var head := HeadFor(cfg, HeadBefore(cfg, None, cus, n), cus[n].table);
            && (head.LInt? || head.LFloat?)
            && ((forall i :: 0 <= i <= n ==> IntIsRegular(cus[i].table)) ==> head.name == "int")
  {
    hide FindBase, HeadBefore, HasArray;
    var from := n;
    if HeadBefore(cfg, None, cus, n).Some? {
      from := SettledBy(cfg, cus, n);
    }
    IndexIsCalledInt(cfg, cus[from].table);
  }
}
