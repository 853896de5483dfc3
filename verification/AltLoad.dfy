/** Loading a CU that has a dwz alternate file: both files' DIEs, then the pruning. */
module AltLoad {
  import opened Wrappers
  import opened HashTags
  import opened AltUnits
  import opened AltEvents
  import opened AltPruning

  class DwarfCu {
    const altPus: AltPus
    const altTypes: HashTable
    const altTags: HashTable
    const mainTypes: HashTable
    const mainTags: HashTable
    var processingAlt: bool
    var typesTable: Slots
    var tagsTable: Slots
    var functionsTable: Slots
    var functions: set<DTag>

    ghost predicate Separate() {
      && altTypes.Valid() && altTags.Valid() && mainTypes.Valid() && mainTags.Valid()
      && altTypes.heads != altTags.heads && altTypes.heads != mainTypes.heads && altTypes.heads != mainTags.heads
      && altTags.heads != mainTypes.heads && altTags.heads != mainTags.heads && mainTypes.heads != mainTags.heads
      && altTypes.bits == altTags.bits == mainTypes.bits == mainTags.bits
    }

    ghost function Now(): Tables
      reads this, altTypes.heads, altTags.heads, mainTypes.heads, mainTags.heads
    {
      Tables(altTypes.bits, altTypes.heads[..], altTags.heads[..], mainTypes.heads[..], mainTags.heads[..],
             typesTable, tagsTable, functionsTable, functions)
    }

    ghost predicate Valid()
      reads this, altPus, altPus.pus, altTypes.heads, altTags.heads, mainTypes.heads, mainTags.heads
    {
      Separate() && altPus.Valid() && Now().Valid()
    }

    ghost function Pus(): seq<AltPu>
      requires altPus.nr <= altPus.pus.Length
      reads altPus, altPus.pus
    {
      altPus.pus[..altPus.nr]
    }

    constructor (bits: nat)
      requires bits <= 64
      ensures Valid() && Now() == Empty(bits) && altTypes.bits == bits
      ensures altPus.nr == 0 && altPus.marked == {} && !processingAlt
      ensures fresh(altPus) && fresh(altPus.pus) && fresh(altTypes.heads) && fresh(altTags.heads)
      ensures fresh(mainTypes.heads) && fresh(mainTags.heads)
    {
      altPus := new AltPus();
      altTypes := new HashTable(bits);
      altTags := new HashTable(bits);
      mainTypes := new HashTable(bits);
      mainTags := new HashTable(bits);
      processingAlt := false;
      typesTable, tagsTable, functionsTable, functions := [None], [], [], {};
      new;
      EmptyValid(bits);
      assert Now() == Empty(bits);
    }

    /** cu__table_add_tag and cu__hash: a slot if the kind has one, and an entry in the right table. */
    method AddTag(id: nat, kind: Kind) returns (tag: DTag)
      requires Valid()
      modifies `typesTable, `tagsTable, `functionsTable, `functions, altTypes.heads, altTags.heads, mainTypes.heads, mainTags.heads
      ensures Valid() && tag.id == id && tag.kind == kind && Now() == old(Now()).Add(processingAlt, id, kind)
      ensures typesTable == old(typesTable) + if kind == Typed then [Some(tag)] else []
      ensures functionsTable == old(functionsTable) + if kind == Function then [Some(tag)] else []
      ensures tagsTable == old(tagsTable) + if kind == Other then [Some(tag)] else []
      ensures tag.smallId == match kind case Typed => |old(typesTable)| case Function => |old(functionsTable)|
                                        case Other => |old(tagsTable)| case _ => 0
      ensures functions == old(functions) + if kind == Function then {tag} else {}
      ensures id != 0 ==>
                var heads := if kind in {Typed, Unspecified} then (if processingAlt then altTypes else mainTypes).heads
                             else (if processingAlt then altTags else mainTags).heads;
                Found(altTypes.bits, heads[..], id) == Some(tag)
    {
      hide Bucket, Found, HitExactly, Sorted, Tables.Valid;
      ghost var was := Now();
      AddValid(was, processingAlt, id, kind);
      var smallId := 0;
      match kind {
        case Typed => smallId := |typesTable|;
        case Function => smallId := |functionsTable|;
        case Other => smallId := |tagsTable|;
        case _ =>
      }
      tag := DTag(id, smallId, kind);
      match kind {
        case Typed => typesTable := typesTable + [Some(tag)];
        case Function =>
          functionsTable := functionsTable + [Some(tag)];
          functions := functions + {tag};
        case Other => tagsTable := tagsTable + [Some(tag)];
        case _ =>
      }
      var target := if IsType(kind) then (if processingAlt then altTypes else mainTypes)
                    else if processingAlt then altTags else mainTags;
      target.Hash(tag);
      assert Now() == was.Add(processingAlt, id, kind);
      FoundHashed(target.bits, old(target.heads[..]), tag, id);
    }

    /**
     dwarf_tag__set_attr_type: only references that leave for the alternate file mark their target;
     inside it, plain references are noted as alternate ones but mark nothing.
     */
    method SetAttrType(link: Link) returns (fromAlt: bool)
      requires Valid()
      modifies altPus.pus, altPus`marked
      ensures Valid() && SameRanges(old(Pus()), Pus()) && Now() == old(Now())
      ensures fromAlt == (link.isAlt || processingAlt)
      ensures altPus.marked == old(altPus.marked) + (if link.isAlt then {link.offset} else {})
    {
      hide HitExactly, Sorted, Tables.Valid;
      fromAlt := link.isAlt || processingAlt;
      if link.isAlt {
        altPus.MarkHit(link.offset);
      }
    }

    /** die__process_imported_unit, up to the point where a same-file unit is read inline. */
    method ProcessImportedUnit(link: Link, partial: bool, depth: nat) returns (inLine: bool)
      requires Valid()
      modifies altPus.pus, altPus`marked
      ensures Valid() && SameRanges(old(Pus()), Pus()) && Now() == old(Now())
      ensures inLine <==> partial && depth < 64 && !link.isAlt && !processingAlt
      ensures altPus.marked == old(altPus.marked) + if partial && depth < 64 && (link.isAlt || processingAlt) then {link.offset} else {}
    {
      hide HitExactly, Sorted, Tables.Valid;
      if !partial || depth >= MAX_IMPORTED_UNIT_DEPTH {
        return false;
      }
      if link.isAlt || processingAlt {
        altPus.MarkHit(link.offset);
        return false;
      }
      inLine := true;
    }

    /** One turn of the loop below. */
    method AddAnnotation(link: Link)
      requires Valid()
      modifies this, altPus.pus, altPus`marked, altTypes.heads, altTags.heads, mainTypes.heads, mainTags.heads
      ensures Valid() && SameRanges(old(Pus()), Pus()) && processingAlt == (old(processingAlt) || link.isAlt)
      ensures altPus.marked == old(altPus.marked) + if processingAlt then {link.offset} else {}
      ensures Now() == old(Now()).Add(processingAlt, link.offset, Typed)
    {
      hide HitExactly, Sorted, Tables.Valid, Tables.Add, Found, Bucket, Tables.SmallId;
      if link.isAlt || processingAlt {
        altPus.MarkHit(link.offset);
        processingAlt := true;
      }
      var _ := AddTag(link.offset, Typed);
    }

    /** The GNU annotation loop: once in the alternate file, the rest of the chain is read there. */
    method AddAnnotations(chain: seq<Link>)
      requires Valid()
      modifies this, altPus.pus, altPus`marked, altTypes.heads, altTags.heads, mainTypes.heads, mainTags.heads
      ensures Valid() && SameRanges(old(Pus()), Pus()) && processingAlt == old(processingAlt)
      ensures altPus.marked == old(altPus.marked) + ChainMarks(chain, processingAlt)
      ensures forall m :: m in altPus.marked <==>
                m in old(altPus.marked) ||
                exists j, k :: 0 <= j <= k < |chain| && (chain[j].isAlt || processingAlt) && chain[k].offset == m
      ensures Now() == old(Now()).AddChain(processingAlt, chain)
    {
      hide HitExactly, Sorted, Tables.Valid, Tables.Add, Tables.AddChain, ChainMarks, Found, Bucket, Tables.SmallId;
      var wasAlt := processingAlt;
      assert chain[0..] == chain;
      for i := 0 to |chain|
        invariant Valid() && SameRanges(old(Pus()), Pus())
        invariant altPus.marked + ChainMarks(chain[i..], processingAlt) == old(altPus.marked) + ChainMarks(chain, wasAlt)
        invariant Now().AddChain(processingAlt, chain[i..]) == old(Now()).AddChain(wasAlt, chain)
      {
        ChainStep(Now(), processingAlt, chain, i);
        AddAnnotation(chain[i]);
      }
      ChainEnd(Now(), processingAlt, chain);
      processingAlt := wasAlt;
      MarkedByChain(chain, wasAlt);
    }

    method Process(e: Event)
      requires Valid()
      modifies this, altPus.pus, altPus`marked, altTypes.heads, altTags.heads, mainTypes.heads, mainTags.heads
      ensures Valid() && SameRanges(old(Pus()), Pus()) && processingAlt == old(processingAlt)
      ensures altPus.marked == old(altPus.marked) + Marks(processingAlt, e)
      ensures Now() == old(Now()).After(processingAlt, e)
    {
      hide HitExactly, Sorted, Tables.Valid, Tables.Add;
      match e {
        case Ref(link) => var _ := SetAttrType(link);
        case Import(link, partial, depth) => var _ := ProcessImportedUnit(link, partial, depth);
        case Annotations(chain) => AddAnnotations(chain);
        case Tag(id, kind) => var _ := AddTag(id, kind);
      }
    }

    method ProcessAll(es: seq<Event>)
      requires Valid()
      modifies this, altPus.pus, altPus`marked, altTypes.heads, altTags.heads, mainTypes.heads, mainTags.heads
      ensures Valid() && SameRanges(old(Pus()), Pus()) && processingAlt == old(processingAlt)
      ensures altPus.marked == old(altPus.marked) + AllMarks(processingAlt, es)
      ensures Now() == old(Now()).AfterAll(processingAlt, es)
    {
      hide HitExactly, Sorted, Tables.Valid, Tables.After, Marks;
      for i := 0 to |es|
        invariant Valid() && SameRanges(old(Pus()), Pus()) && processingAlt == old(processingAlt)
        invariant altPus.marked == old(altPus.marked) + AllMarks(processingAlt, es[..i])
        invariant Now() == old(Now()).AfterAll(processingAlt, es[..i])
      {
        assert es[..i + 1][..i] == es[..i];
        Process(es[i]);
      }
      assert es[..|es|] == es;
    }

    /** Register the alternate file's units, then process its DIEs and the main file's. */
    method LoadDies(headers: seq<Header>, altDies: seq<Event>, mainDies: seq<Event>)
      requires Valid() && Contiguous(headers) && Now() == Empty(altTypes.bits)
      requires altPus.nr == 0 && altPus.marked == {} && !processingAlt
      modifies this, altPus, altPus.pus, altTypes.heads, altTags.heads, mainTypes.heads, mainTags.heads
      ensures Valid() && SameRanges(Registered(headers), Pus())
      ensures altPus.marked == AllMarks(true, altDies) + AllMarks(false, mainDies)
      ensures forall m :: m in altPus.marked <==>
                || (exists link: Link :: (Ref(link) in altDies || Ref(link) in mainDies) && link.isAlt && link.offset == m)
                || (exists link: Link, depth: nat :: depth < 64 && link.offset == m &&
                      (Import(link, true, depth) in altDies || (Import(link, true, depth) in mainDies && link.isAlt)))
                || (exists chain: seq<Link>, j, k :: 0 <= j <= k < |chain| && chain[k].offset == m &&
                      (Annotations(chain) in altDies || (Annotations(chain) in mainDies && chain[j].isAlt)))
      ensures Now() == Loaded(altTypes.bits, altDies, mainDies)
    {
      hide HitExactly, Sorted, Tables.Valid, Tables.AfterAll, Registered, AllMarks, Contiguous;
      altPus.Register(headers);
      processingAlt := true;
      ProcessAll(altDies);
      processingAlt := false;
      ProcessAll(mainDies);
      hide Marks;
      MarkedByEvents(altDies, mainDies);
    }

    /** The types of one bucket. */
    method PruneTypesIn(b: nat)
      requires Separate() && altPus.Valid() && b < altTypes.heads.Length && altPus.nr > 0
      requires forall d :: d in altTypes.heads[b] ==> d.smallId < |typesTable|
      modifies `typesTable, altTypes.heads
      ensures altTypes.heads[..] == old(altTypes.heads[..])[b := Kept(old(altTypes.heads[b]), Pus())]
      ensures NulledBy(old(typesTable), typesTable, Dead(old(altTypes.heads[b]), Pus()))
      ensures |typesTable| == old(|typesTable|)
    {
      hide HitExactly, NulledBy, Live, Survives, Kept, Dead, Walk, Functions, Others;
      ghost var pus, was, chain := Pus(), altTypes.heads[..], altTypes.heads[b];
      ghost var k := 0;
      var pos := 0;
      WalkStart(chain, pus);
      NulledNone(typesTable);
      while pos < |altTypes.heads[b]|
        invariant altTypes.heads[..] == was[b := altTypes.heads[b]]
        invariant 0 <= pos <= |altTypes.heads[b]| && k <= |chain| && |typesTable| == old(|typesTable|)
        invariant Walk(chain, altTypes.heads[b], pus, pos, k)
        invariant NulledBy(old(typesTable), typesTable, Dead(chain[..k], pus))
        decreases |chain| - k
      {
        WalkStep(chain, altTypes.heads[b], pus, pos, k);
        var d := altTypes.heads[b][pos];
        var hit := altPus.IsHit(d.id);
        SurvivesIsHit(pus, d.id);
        if !hit {
          NulledStep(old(typesTable), typesTable, Dead(chain[..k], pus), d);
          altTypes.Delete(b, pos);
          typesTable := typesTable[d.smallId := None];
        } else {
          pos := pos + 1;
        }
        k := k + 1;
      }
      WalkEnd(chain, altTypes.heads[b], pus, k);
    }

    /** The tags of one bucket. Not ok: tags_table was never allocated, and a slot of it would be written. */
    method PruneTagsIn(b: nat) returns (ok: bool)
      requires Separate() && altPus.Valid() && b < altTags.heads.Length && altPus.nr > 0
      requires forall d :: d in altTags.heads[b] ==> TagFits(d, tagsTable, functionsTable)
      modifies `tagsTable, `functionsTable, `functions, altTags.heads
      ensures ok <==> !(old(tagsTable) == [] && HasChild(Dead(old(altTags.heads[b]), Pus())))
      ensures ok ==> altTags.heads[..] == old(altTags.heads[..])[b := Kept(old(altTags.heads[b]), Pus())]
      ensures ok ==> var gone := Dead(old(altTags.heads[b]), Pus());
              && NulledBy(old(functionsTable), functionsTable, Functions(gone))
              && NulledBy(old(tagsTable), tagsTable, Others(gone))
              && functions == old(functions) - Functions(gone)
    {
      hide HitExactly, NulledBy, Live, Survives, Kept, Dead, Walk, Functions, Others, HasChild;
      ghost var pus, was, chain := Pus(), altTags.heads[..], altTags.heads[b];
      ghost var k, gone: set<DTag> := 0, {};
      var pos := 0;
      WalkStart(chain, pus);
      NulledNone(functionsTable);
      NulledNone(tagsTable);
      NobodyYet([], pus);
      ChildSplit({}, {});
      while pos < |altTags.heads[b]|
        invariant altTags.heads[..] == was[b := altTags.heads[b]]
        invariant 0 <= pos <= |altTags.heads[b]| && k <= |chain|
        invariant |tagsTable| == old(|tagsTable|) && |functionsTable| == old(|functionsTable|)
        invariant Walk(chain, altTags.heads[b], pus, pos, k) && gone == Dead(chain[..k], pus)
        invariant NulledBy(old(functionsTable), functionsTable, Functions(gone))
        invariant NulledBy(old(tagsTable), tagsTable, Others(gone))
        invariant functions == old(functions) - Functions(gone)
        invariant tagsTable == [] ==> !HasChild(gone)
        decreases |chain| - k
      {
        WalkStep(chain, altTags.heads[b], pus, pos, k);
        var d := altTags.heads[b][pos];
        var hit := altPus.IsHit(d.id);
        SurvivesIsHit(pus, d.id);
        if !hit {
          altTags.Delete(b, pos);
          SplitOne(gone, d);
          ChildSplit(gone, {d});
          OneChild(d);
          if d.kind == Function {
            functions := functions - {d};
            NulledStep(old(functionsTable), functionsTable, Functions(gone), d);
            functionsTable := functionsTable[d.smallId := None];
          } else if d.smallId >= |tagsTable| {
            DeadGrows(chain, pus, k + 1);
            return false;
          } else {
            NulledStep(old(tagsTable), tagsTable, Others(gone), d);
            tagsTable := tagsTable[d.smallId := None];
          }
          gone := gone + {d};
        } else {
          pos := pos + 1;
        }
        k := k + 1;
      }
      WalkEnd(chain, altTags.heads[b], pus, k);
      ok := true;
    }

    /**
     dwarf_cu__prune_unreferenced_alt_pus. Not ok: it would write slot 0 of a tags_table that was never
     allocated, which takes a member or enumerator that does not survive.
     */
    method Prune() returns (ok: bool)
      requires Valid()
      modifies `typesTable, `tagsTable, `functionsTable, `functions, altTypes.heads, altTags.heads
      ensures ok <==> !(old(tagsTable) == [] && ChildDies(old(altTags.heads[..]), Pus()))
      ensures ok ==> AllKept(old(altTypes.heads[..]), altTypes.heads[..], Pus())
      ensures ok ==> AllKept(old(altTags.heads[..]), altTags.heads[..], Pus())
      ensures ok ==> NulledBy(old(typesTable), typesTable, AllDead(old(altTypes.heads[..]), Pus()))
      ensures ok ==> var gone := AllDead(old(altTags.heads[..]), Pus());
              && NulledBy(old(functionsTable), functionsTable, Functions(gone))
              && NulledBy(old(tagsTable), tagsTable, Others(gone))
              && functions == old(functions) - Functions(gone)
    {
      hide HitExactly, Tables.Valid, NulledBy, Live, Survives, Kept, Dead, AllDead, Functions, Others, HasChild, TagFits;
      ghost var pus, types, tags := Pus(), altTypes.heads[..], altTags.heads[..];
      NulledNone(typesTable);
      NulledNone(functionsTable);
      NulledNone(tagsTable);
      ChildSplit({}, {});
      if altPus.nr == 0 {
        NothingDies(types, pus);
        NothingDies(tags, pus);
        return true;
      }
      NobodyYet(types, pus);
      NobodyYet(tags, pus);
      SmallIdsFit(Now());
      for i := 0 to altTypes.heads.Length
        invariant forall b :: 0 <= b < i ==> altTypes.heads[b] == Kept(types[b], pus) && altTags.heads[b] == Kept(tags[b], pus)
        invariant forall b :: i <= b < altTypes.heads.Length ==> altTypes.heads[b] == types[b] && altTags.heads[b] == tags[b]
        invariant |typesTable| == old(|typesTable|) && |tagsTable| == old(|tagsTable|) && |functionsTable| == old(|functionsTable|)
        invariant NulledBy(old(typesTable), typesTable, AllDead(types[..i], pus))
        invariant var gone := AllDead(tags[..i], pus);
                  && NulledBy(old(functionsTable), functionsTable, Functions(gone))
                  && NulledBy(old(tagsTable), tagsTable, Others(gone))
                  && functions == old(functions) - Functions(gone)
        invariant tagsTable == [] ==> !HasChild(AllDead(tags[..i], pus))
      {
        ghost var typesNow, tagsNow, functionsNow := typesTable, tagsTable, functionsTable;
        AllDeadStep(types, pus, i);
        AllDeadStep(tags, pus, i);
        SplitStep(AllDead(tags[..i], pus), Dead(tags[i], pus));
        ChildSplit(AllDead(tags[..i], pus), Dead(tags[i], pus));
        FitsKept(tags[i], old(tagsTable), old(functionsTable), tagsTable, functionsTable);
        PruneTypesIn(i);
        ok := PruneTagsIn(i);
        if !ok {
          AllDeadGrows(tags, pus, i + 1);
          return;
        }
        NulledTwice(old(typesTable), typesNow, typesTable, AllDead(types[..i], pus), Dead(types[i], pus));
        NulledTwice(old(functionsTable), functionsNow, functionsTable,
                    Functions(AllDead(tags[..i], pus)), Functions(Dead(tags[i], pus)));
        NulledTwice(old(tagsTable), tagsNow, tagsTable, Others(AllDead(tags[..i], pus)), Others(Dead(tags[i], pus)));
      }
      assert types[..|types|] == types && tags[..|tags|] == tags;
      ok := true;
    }

    /**
     The alternate file's share of loading a CU, pruning included. Not ok exactly when pruning writes
     through a null pointer. Otherwise a lookup gives the latest tag the alternate file has at the offset
     if the offset shares a unit with a marked one, the very tag it gave before, and else nothing; so
     everything an explicit reference aims at is still found. Slots are emptied accordingly, slot 0 of
     tags_table excepted; the main file's tables keep their tags.
     */
    method Load(headers: seq<Header>, altDies: seq<Event>, mainDies: seq<Event>) returns (ok: bool)
      requires Valid() && Contiguous(headers) && Now() == Empty(altTypes.bits)
      requires altPus.nr == 0 && altPus.marked == {} && !processingAlt
      modifies this, altPus, altPus.pus, altTypes.heads, altTags.heads, mainTypes.heads, mainTags.heads
      ensures Separate() && altPus.nr <= altPus.pus.Length
      ensures ok <==> !NullWrite(headers, altDies, mainDies)
      ensures SparesSurvive(Pus(), headers, altDies, mainDies)
      ensures var t, now, xs := Loaded(altTypes.bits, altDies, mainDies), Now(), AltEntries(altDies, mainDies);
              ok ==>
                && FindsLatest(t.bits, now.altTypes, xs, true, Pus()) && FindsLatest(t.bits, now.altTags, xs, false, Pus())
                && FindsSurvivors(t.bits, t.altTypes, now.altTypes, Pus())
                && FindsSurvivors(t.bits, t.altTags, now.altTags, Pus())
                && now.mainTypes == t.mainTypes && now.mainTags == t.mainTags
      ensures var t, now := Loaded(altTypes.bits, altDies, mainDies), Now();
              ok ==>
                && Emptied(t.bits, t.altTypes, t.types, now.types, Pus())
                && Emptied(t.bits, t.altTags, t.functions, now.functions, Pus())
                && TagsEmptied(t.bits, t.altTags, t.tags, now.tags, Pus())
                && (ChildDies(t.altTags, Pus()) <==> ChildNotSpared(headers, altDies, mainDies))
                && now.tree == t.tree - Functions(AllDead(t.altTags, Pus()))
      ensures forall link: Link :: (Ref(link) in altDies || Ref(link) in mainDies) && link.isAlt && InUnit(Registered(headers), link.offset) ==>
                Live(Pus(), link.offset) && (ok ==> StaysAt(Loaded(altTypes.bits, altDies, mainDies), Now(), Pus(), link.offset))
      ensures forall link: Link, depth: nat ::
                && (Import(link, true, depth) in altDies || (Import(link, true, depth) in mainDies && link.isAlt))
                && depth < 64 && InUnit(Registered(headers), link.offset) ==>
                  Live(Pus(), link.offset) && (ok ==> StaysAt(Loaded(altTypes.bits, altDies, mainDies), Now(), Pus(), link.offset))
      ensures forall chain: seq<Link>, j, k ::
                && 0 <= j <= k < |chain| && InUnit(Registered(headers), chain[k].offset)
                && (Annotations(chain) in altDies || (Annotations(chain) in mainDies && chain[j].isAlt)) ==>
                  Live(Pus(), chain[k].offset) && (ok ==> StaysAt(Loaded(altTypes.bits, altDies, mainDies), Now(), Pus(), chain[k].offset))
      ensures ok ==> forall id :: Registered(headers) != [] && !Live(Pus(), id) ==>
                Found(altTypes.bits, Now().altTypes, id) == Found(altTypes.bits, Now().altTags, id) == None
    {
      hide HitExactly, Sorted, Tables.Valid, Loaded, Empty, AltEntries, AllMarks, Contiguous, AllKept, NulledBy, Emptied, TagsEmptied,
           SparesSurvive, FindsSurvivors, FindsLatest, ChildDies, ChildNotSpared, AllDead, Functions, Others,
           Children, TakesTagSlot, Found;
      LoadDies(headers, altDies, mainDies);
      ghost var t, xs := Now(), AltEntries(altDies, mainDies);
      AllSparedSurvive(Pus(), headers, altDies, mainDies);
      LookupIsLatest(altTypes.bits, altDies, mainDies);
      ChildDiesExactly(t, Pus(), headers, altDies, mainDies);
      ok := Prune();
      if ok {
        SurvivorsFound(t.bits, t.altTypes, Now().altTypes, Pus());
        SurvivorsFound(t.bits, t.altTags, Now().altTags, Pus());
        LatestFound(t.bits, t.altTypes, Now().altTypes, xs, true, Pus());
        LatestFound(t.bits, t.altTags, Now().altTags, xs, false, Pus());
        TypeFate(t, typesTable, Pus());
        FunctionFate(t, functionsTable, Pus());
        TagFate(t, tagsTable, Pus());
        DeadIsGone(t, Now(), Pus());
      }
      forall m | InUnit(Registered(headers), m) && (Aims(true, altDies, m) || Aims(false, mainDies, m))
        ensures Live(Pus(), m) && (ok ==> StaysAt(t, Now(), Pus(), m))
      {
        AimedIsHit(Pus(), headers, altDies, mainDies, m);
        if ok {
          LiveStays(t, Now(), Pus(), m);
        }
      }
      AimedOne(altDies, mainDies);
    }
  }

  /** An alternate file of one unit, and in it one enumeration with one enumerator, which is hashed first. */
  const ONE_UNIT: seq<Header> := [Header(0, 11, 32, true)]
  const ONE_ENUMERATION: seq<Event> := [Tag(16, Child), Tag(12, Typed)]

  /** The null write does happen: nobody refers to that unit, and no tag of either file takes a slot. */
  method NullWriteExample(bits: nat) returns (ok: bool)
    requires bits <= 64
    ensures !ok
  {
    hide Empty, Loaded, HitExactly, Sorted, InBuckets, TypeSlots, TagSlots, FindsLatest, FindsSurvivors, StaysAt, Emptied, TagsEmptied,
         Registered, Spared, ChildNotSpared;
    var cu := new DwarfCu(bits);
    EnumeratorNotSpared([]);
    ok := cu.Load(ONE_UNIT, ONE_ENUMERATION, []);
  }

  /** With one such tag in the main file that tag is lost. */
  method MainTagLostExample(bits: nat) returns (tags: Slots)
    requires bits <= 64
    ensures tags == [None]
  {
    hide Empty, Loaded, HitExactly, Sorted, InBuckets, TypeSlots, TagSlots, FindsLatest, FindsSurvivors, StaysAt, Emptied,
         Registered, Spared;
    var cu := new DwarfCu(bits);
    ghost var mainDies := [Tag(12, Other)];
    EnumeratorNotSpared(mainDies);
    assert TakesTagSlot(mainDies[0]) && mainDies[0] in ONE_ENUMERATION + mainDies;
    var ok := cu.Load(ONE_UNIT, ONE_ENUMERATION, [Tag(12, Other)]);
    OneTag(bits, mainDies);
    tags := cu.tagsTable;
  }

  lemma EnumeratorNotSpared(mainDies: seq<Event>)
    requires mainDies == [] || mainDies == [Tag(12, Other)]
    ensures ChildNotSpared(ONE_UNIT, ONE_ENUMERATION, mainDies)
  {
    var altDies, child := ONE_ENUMERATION, [Tag(16, Child)];
    assert altDies[..1] == child && child[..0] == [] && (mainDies != [] ==> mainDies[..0] == []);
    assert AllMarks(true, child) == AllMarks(true, altDies) == AllMarks(false, mainDies) == {};
    assert AllEntries(true, child) == [Entry(16, Child)] && AllEntries(true, altDies) == [Entry(16, Child), Entry(12, Typed)];
    assert AllEntries(false, mainDies) == [];
    assert Entry(16, Child) in AltEntries(altDies, mainDies);
    hide AllEntries, Shares, Registered, Spared;
    NothingShares(16);
    SparedShares(ONE_UNIT, altDies, mainDies, 16);
    assert AllMarks(true, altDies) + AllMarks(false, mainDies) == {};
  }

  lemma NothingShares(offset: nat)
    ensures !Shares(Registered(ONE_UNIT), {}, offset)
  {
    assert ONE_UNIT[..0] == [];
    assert Registered(ONE_UNIT) == [AltPu(11, 32, false)];
  }

  lemma OneTag(bits: nat, mainDies: seq<Event>)
    requires bits <= 64 && mainDies == [Tag(12, Other)]
    ensures Loaded(bits, ONE_ENUMERATION, mainDies).tags == [Some(DTag(12, 0, Other))]
  {
    hide Hashed;
    assert mainDies[..0] == [];
    TagSlotsTaken(Empty(bits), true, ONE_ENUMERATION);
    var t := Empty(bits).AfterAll(true, ONE_ENUMERATION);
    assert t.tags == [];
    assert t.AfterAll(false, []) == t;
  }
}
