/**
 What reading the DIEs of a CU and of its alternate file does: which offsets it marks, and what
 it puts into the hash tables and slots.
 */
module AltEvents {
  import opened Words
  import opened Wrappers
  import opened HashTags

  const MAX_IMPORTED_UNIT_DEPTH: nat := 64

  type Slots = seq<Option<DTag>>
  type Heads = seq<seq<DTag>>

  datatype Link = Link(offset: nat, isAlt: bool)

  /** What processing a DIE does, as far as units and tables go. */
  datatype Event =
    | Ref(link: Link) // a type, origin, containing type or specification attribute
    | Import(link: Link, partial: bool, depth: nat)
    | Annotations(chain: seq<Link>) // a chain of GNU type tag annotations
    | Tag(id: nat, kind: Kind)

  // ----- what gets marked -----

  /** From the first link into the alternate file on, the whole chain is read there. */
  function ChainMarks(chain: seq<Link>, alt: bool): set<nat> {
    if chain == [] then {}
    else
      var alt' := alt || chain[0].isAlt;
      (if alt' then {chain[0].offset} else {}) + ChainMarks(chain[1..], alt')
  }

  /** The offsets an event marks, `alt` telling whether it comes from the alternate file itself. */
  function Marks(alt: bool, e: Event): set<nat> {
    match e
    case Ref(link) => if link.isAlt then {link.offset} else {}
    case Import(link, partial, depth) =>
      if partial && depth < MAX_IMPORTED_UNIT_DEPTH && (link.isAlt || alt) then {link.offset} else {}
    case Annotations(chain) => ChainMarks(chain, alt)
    case Tag(_, _) => {}
  }

  function AllMarks(alt: bool, es: seq<Event>): set<nat> {
    if es == [] then {} else AllMarks(alt, es[..|es| - 1]) + Marks(alt, es[|es| - 1])
  }

  /** Something in this file aims at `m` in the alternate one: a reference, an import or an annotation that leads there. */
  ghost predicate Aims(alt: bool, es: seq<Event>, m: nat) {
    || (exists link :: Ref(link) in es && link.isAlt && link.offset == m)
    || (exists link: Link, depth: nat :: Import(link, true, depth) in es && depth < MAX_IMPORTED_UNIT_DEPTH && (link.isAlt || alt) && link.offset == m)
    || (exists chain: seq<Link>, j, k :: Annotations(chain) in es && 0 <= j <= k < |chain| && (chain[j].isAlt || alt) && chain[k].offset == m)
  }

  /** A chain marks every link from the first one that leads to the alternate file on. */
  lemma {:induction false} ChainMarked(chain: seq<Link>, alt: bool, m: nat)
    ensures m in ChainMarks(chain, alt) <==> exists j, k :: 0 <= j <= k < |chain| && (chain[j].isAlt || alt) && chain[k].offset == m
  {
    if chain != [] {
      var rest, alt' := chain[1..], alt || chain[0].isAlt;
      ChainMarked(rest, alt', m);
      if j, k :| 0 <= j <= k < |rest| && (rest[j].isAlt || alt') && rest[k].offset == m {
        assert rest[k] == chain[k + 1] && rest[j] == chain[j + 1] && 0 <= 0 <= k + 1;
      }
      if j, k :| 0 <= j <= k < |chain| && (chain[j].isAlt || alt) && chain[k].offset == m && k > 0 {
        assert rest[k - 1] == chain[k];
        assert j > 0 ==> rest[j - 1] == chain[j];
        assert (if j > 0 then rest[j - 1].isAlt || alt' else rest[k - 1].isAlt || alt') && rest[k - 1].offset == m;
      }
    }
  }

  lemma OneMarks(alt: bool, e: Event, m: nat)
    ensures m in Marks(alt, e) <==> Aims(alt, [e], m)
  {
    assert e in [e];
    match e
    case Ref(link) =>
    case Import(link, partial, depth) =>
    case Annotations(chain) => ChainMarked(chain, alt, m);
    case Tag(_, _) =>
  }

  lemma AimsOfMore(alt: bool, es: seq<Event>, e: Event, m: nat)
    ensures Aims(alt, es + [e], m) <==> Aims(alt, es, m) || Aims(alt, [e], m)
  {
    assert forall x :: x in es + [e] <==> x in es || x in [e];
  }

  /** Exactly what is aimed at is marked. */
  lemma {:induction false} MarkedExactly(alt: bool, es: seq<Event>, m: nat)
    ensures m in AllMarks(alt, es) <==> Aims(alt, es, m)
  {
    hide Marks, Aims;
    if es == [] {
      assert !Aims(alt, es, m) by { NothingAims(alt, m); }
    } else {
      var front, e := es[..|es| - 1], es[|es| - 1];
      assert es == front + [e];
      MarkedExactly(alt, front, m);
      OneMarks(alt, e, m);
      AimsOfMore(alt, front, e, m);
    }
  }

  lemma NothingAims(alt: bool, m: nat)
    ensures !Aims(alt, [], m)
  {
  }

  lemma MarkedByChain(chain: seq<Link>, alt: bool)
    ensures forall m :: m in ChainMarks(chain, alt) <==>
              exists j, k :: 0 <= j <= k < |chain| && (chain[j].isAlt || alt) && chain[k].offset == m
  {
    forall m ensures m in ChainMarks(chain, alt) <==>
                exists j, k :: 0 <= j <= k < |chain| && (chain[j].isAlt || alt) && chain[k].offset == m
    {
      ChainMarked(chain, alt, m);
    }
  }

  /** What both files mark, told from their DIEs. */
  lemma MarkedByEvents(altDies: seq<Event>, mainDies: seq<Event>)
    ensures forall m :: m in AllMarks(true, altDies) + AllMarks(false, mainDies) <==>
              || (exists link: Link :: (Ref(link) in altDies || Ref(link) in mainDies) && link.isAlt && link.offset == m)
              || (exists link: Link, depth: nat :: depth < MAX_IMPORTED_UNIT_DEPTH && link.offset == m &&
                    (Import(link, true, depth) in altDies || (Import(link, true, depth) in mainDies && link.isAlt)))
              || (exists chain: seq<Link>, j, k :: 0 <= j <= k < |chain| && chain[k].offset == m &&
                    (Annotations(chain) in altDies || (Annotations(chain) in mainDies && chain[j].isAlt)))
  {
    hide AllMarks;
    forall m ensures m in AllMarks(true, altDies) + AllMarks(false, mainDies) <==> Aims(true, altDies, m) || Aims(false, mainDies, m) {
      MarkedExactly(true, altDies, m);
      MarkedExactly(false, mainDies, m);
    }
  }

  /** What it is to aim at an offset, event by event. */
  lemma AimedOne(altDies: seq<Event>, mainDies: seq<Event>)
    ensures forall link: Link :: (Ref(link) in altDies || Ref(link) in mainDies) && link.isAlt ==>
              Aims(true, altDies, link.offset) || Aims(false, mainDies, link.offset)
    ensures forall link: Link, depth: nat ::
              && (Import(link, true, depth) in altDies || (Import(link, true, depth) in mainDies && link.isAlt))
              && depth < MAX_IMPORTED_UNIT_DEPTH ==>
                Aims(true, altDies, link.offset) || Aims(false, mainDies, link.offset)
    ensures forall chain: seq<Link>, j, k ::
              && 0 <= j <= k < |chain|
              && (Annotations(chain) in altDies || (Annotations(chain) in mainDies && chain[j].isAlt)) ==>
                Aims(true, altDies, chain[k].offset) || Aims(false, mainDies, chain[k].offset)
  {
  }

  // ----- hash tables and slots -----

  ghost predicate HasSlot(slots: Slots, d: DTag) {
    d.smallId < |slots| && slots[d.smallId] == Some(d)
  }

  predicate IsIn(bits: nat, heads: Heads, d: DTag)
    requires bits <= 64 && |heads| == Pow2(bits)
  {
    d in heads[Bucket(bits, d.id)]
  }

  ghost predicate InBuckets(bits: nat, heads: Heads)
    requires bits <= 64
  {
    forall b, d :: 0 <= b < |heads| && d in heads[b] ==> Bucket(bits, d.id) == b
  }

  /** Every hashed type has its slot; slot 0 is void's. */
  ghost predicate TypeSlots(heads: Heads, types: Slots) {
    && types != [] && types[0] == None
    && forall c, d :: c in heads && d in c ==>
         if d.kind == Typed then HasSlot(types, d) else d.kind == Unspecified && d.smallId == 0
  }

  ghost predicate TagSlots(heads: Heads, tags: Slots, functions: Slots, tree: set<DTag>) {
    forall c, d :: c in heads && d in c ==>
      match d.kind
      case Function => HasSlot(functions, d) && d in tree
      case Other => HasSlot(tags, d)
      case Child => d.smallId == 0
      case _ => false
  }

  /** What is in a slot knows which, and is of the table's kind. */
  ghost predicate Owned(slots: Slots, kind: Kind) {
    forall j :: 0 <= j < |slots| && slots[j].Some? ==> slots[j].value.smallId == j && slots[j].value.kind == kind
  }

  predicate IsType(kind: Kind) { kind in {Typed, Unspecified} }

  function Hashed(bits: nat, heads: Heads, d: DTag): Heads
    requires bits <= 64 && |heads| == Pow2(bits)
  {
    heads[Bucket(bits, d.id) := [d] + heads[Bucket(bits, d.id)]]
  }

  /** Everything the loader keeps about tags: four hash tables, three slot tables, the functions by address. */
  datatype Tables = Tables(
    bits: nat, altTypes: Heads, altTags: Heads, mainTypes: Heads, mainTags: Heads,
    types: Slots, tags: Slots, functions: Slots, tree: set<DTag>) {

    predicate Sized() {
      bits <= 64 && |altTypes| == |altTags| == |mainTypes| == |mainTags| == Pow2(bits)
    }

    ghost predicate Valid() {
      && Sized() && InBuckets(bits, altTypes) && InBuckets(bits, altTags)
      && TypeSlots(altTypes, types) && TagSlots(altTags, tags, functions, tree)
      && Owned(types, Typed) && Owned(tags, Other) && Owned(functions, Function)
    }

    /** The next free slot of the kind's table; 0 for the kinds that have none. */
    function SmallId(kind: Kind): nat {
      match kind
      case Typed => |types|
      case Function => |functions|
      case Other => |tags|
      case _ => 0
    }

    /** cu__table_add_tag and cu__hash, `alt` telling which file the tag is read from. */
    function Add(alt: bool, id: nat, kind: Kind): (t: Tables)
      requires Sized()
      ensures t.Sized() && t.bits == bits
    {
      var d := DTag(id, SmallId(kind), kind);
      Tables(bits,
             if alt && IsType(kind) then Hashed(bits, altTypes, d) else altTypes,
             if alt && !IsType(kind) then Hashed(bits, altTags, d) else altTags,
             if !alt && IsType(kind) then Hashed(bits, mainTypes, d) else mainTypes,
             if !alt && !IsType(kind) then Hashed(bits, mainTags, d) else mainTags,
             if kind == Typed then types + [Some(d)] else types,
             if kind == Other then tags + [Some(d)] else tags,
             if kind == Function then functions + [Some(d)] else functions,
             if kind == Function then tree + {d} else tree)
    }

    /** The annotation tags of a chain, in the alternate tables from the first link there on. */
    function AddChain(alt: bool, chain: seq<Link>): (t: Tables)
      requires Sized()
      ensures t.Sized() && t.bits == bits
      decreases |chain|
    {
      if chain == [] then this
      else
        var alt' := alt || chain[0].isAlt;
        Add(alt', chain[0].offset, Typed).AddChain(alt', chain[1..])
    }

    function After(alt: bool, e: Event): (t: Tables)
      requires Sized()
      ensures t.Sized() && t.bits == bits
    {
      match e
      case Tag(id, kind) => Add(alt, id, kind)
      case Annotations(chain) => AddChain(alt, chain)
      case _ => this
    }

    function AfterAll(alt: bool, es: seq<Event>): (t: Tables)
      requires Sized()
      ensures t.Sized() && t.bits == bits
    {
      if es == [] then this else AfterAll(alt, es[..|es| - 1]).After(alt, es[|es| - 1])
    }
  }

  function Empty(bits: nat): (t: Tables)
    requires bits <= 64
    ensures t.Sized() && t.bits == bits
  {
    var none := seq(Pow2(bits), _ => []);
    Tables(bits, none, none, none, none, [None], [], [], {})
  }

  /** The tables once both files are read: the alternate one first. */
  function Loaded(bits: nat, altDies: seq<Event>, mainDies: seq<Event>): (t: Tables)
    requires bits <= 64
    ensures t.Sized() && t.bits == bits
  {
    Empty(bits).AfterAll(true, altDies).AfterAll(false, mainDies)
  }

  lemma ChainStep(t: Tables, alt: bool, chain: seq<Link>, i: nat)
    requires t.Sized() && i < |chain|
    ensures var alt' := alt || chain[i].isAlt;
            && t.AddChain(alt, chain[i..]) == t.Add(alt', chain[i].offset, Typed).AddChain(alt', chain[i + 1..])
            && ChainMarks(chain[i..], alt) == (if alt' then {chain[i].offset} else {}) + ChainMarks(chain[i + 1..], alt')
  {
    hide Tables.Add;
    assert chain[i..][1..] == chain[i + 1..] && chain[i..][0] == chain[i];
  }

  lemma ChainEnd(t: Tables, alt: bool, chain: seq<Link>)
    requires t.Sized()
    ensures t.AddChain(alt, chain[|chain|..]) == t && ChainMarks(chain[|chain|..], alt) == {}
  {
  }

  lemma EmptyValid(bits: nat)
    requires bits <= 64
    ensures Empty(bits).Valid()
  {
  }

  lemma SlotsGrow(t: Tables, tag: DTag)
    requires t.Valid()
    ensures TypeSlots(t.altTypes, t.types + [Some(tag)])
    ensures TagSlots(t.altTags, t.tags + [Some(tag)], t.functions, t.tree)
    ensures TagSlots(t.altTags, t.tags, t.functions + [Some(tag)], t.tree + {tag})
  {
  }

  lemma HashedBuckets(bits: nat, heads: Heads, d: DTag)
    requires bits <= 64 && |heads| == Pow2(bits) && InBuckets(bits, heads)
    ensures InBuckets(bits, Hashed(bits, heads, d))
    ensures forall c, e :: c in Hashed(bits, heads, d) && e in c ==> e == d || exists c' :: c' in heads && e in c'
  {
    hide Bucket;
    var now := Hashed(bits, heads, d);
    forall b, e | 0 <= b < |now| && e in now[b] ensures e == d || e in heads[b] {
    }
  }

  lemma AddValid(t: Tables, alt: bool, id: nat, kind: Kind)
    requires t.Valid()
    ensures t.Add(alt, id, kind).Valid()
  {
    hide Bucket, InBuckets, Hashed;
    var d := DTag(id, t.SmallId(kind), kind);
    SlotsGrow(t, d);
    HashedBuckets(t.bits, t.altTypes, d);
    HashedBuckets(t.bits, t.altTags, d);
  }

  // ----- what a lookup in the alternate tables finds -----

  datatype Entry = Entry(id: nat, kind: Kind)

  /** What a chain, an event, a list of events puts into the alternate tables, in order. */
  function ChainEntries(alt: bool, chain: seq<Link>): seq<Entry>
    decreases |chain|
  {
    if chain == [] then []
    else
      var alt' := alt || chain[0].isAlt;
      (if alt' then [Entry(chain[0].offset, Typed)] else []) + ChainEntries(alt', chain[1..])
  }

  function Entries(alt: bool, e: Event): seq<Entry> {
    match e
    case Tag(id, kind) => if alt then [Entry(id, kind)] else []
    case Annotations(chain) => ChainEntries(alt, chain)
    case _ => []
  }

  function AllEntries(alt: bool, es: seq<Event>): seq<Entry> {
    if es == [] then [] else AllEntries(alt, es[..|es| - 1]) + Entries(alt, es[|es| - 1])
  }

  function AltEntries(altDies: seq<Event>, mainDies: seq<Event>): seq<Entry> {
    AllEntries(true, altDies) + AllEntries(false, mainDies)
  }

  /** A tag of this offset and kind is read into the alternate tables: a DIE of that file, or an annotation from the first link there on. */
  ghost predicate Enters(alt: bool, es: seq<Event>, x: Entry) {
    || (alt && Tag(x.id, x.kind) in es)
    || (x.kind == Typed && exists chain: seq<Link>, j, k ::
          Annotations(chain) in es && 0 <= j <= k < |chain| && (chain[j].isAlt || alt) && chain[k].offset == x.id)
  }

  lemma {:induction false} ChainEntered(alt: bool, chain: seq<Link>, x: Entry)
    ensures x in ChainEntries(alt, chain) <==> x.kind == Typed && x.id in ChainMarks(chain, alt)
    decreases |chain|
  {
    if chain != [] {
      ChainEntered(alt || chain[0].isAlt, chain[1..], x);
    }
  }

  lemma OneEnters(alt: bool, e: Event, x: Entry)
    ensures x in Entries(alt, e) <==> Enters(alt, [e], x)
  {
    assert e in [e];
    if e.Annotations? {
      ChainEntered(alt, e.chain, x);
      ChainMarked(e.chain, alt, x.id);
    }
  }

  lemma EntersOfMore(alt: bool, es: seq<Event>, e: Event, x: Entry)
    ensures Enters(alt, es + [e], x) <==> Enters(alt, es, x) || Enters(alt, [e], x)
  {
    assert forall d :: d in es + [e] <==> d in es || d in [e];
  }

  lemma {:induction false} AllEntered(alt: bool, es: seq<Event>, x: Entry)
    ensures x in AllEntries(alt, es) <==> Enters(alt, es, x)
  {
    hide Entries, Enters;
    if es == [] {
      assert !Enters(alt, es, x) by { NothingEnters(alt, x); }
    } else {
      var front, e := es[..|es| - 1], es[|es| - 1];
      assert es == front + [e];
      AllEntered(alt, front, x);
      OneEnters(alt, e, x);
      EntersOfMore(alt, front, e, x);
    }
  }

  lemma NothingEnters(alt: bool, x: Entry)
    ensures !Enters(alt, [], x)
  {
  }

  /** The alternate tables' tags, told from the DIEs of the two files. */
  lemma EntriesExactly(altDies: seq<Event>, mainDies: seq<Event>, x: Entry)
    ensures x in AltEntries(altDies, mainDies) <==>
              || Tag(x.id, x.kind) in altDies
              || (x.kind == Typed && exists chain: seq<Link>, j, k ::
                    && 0 <= j <= k < |chain| && chain[k].offset == x.id
                    && (Annotations(chain) in altDies || (Annotations(chain) in mainDies && chain[j].isAlt)))
  {
    AllEntered(true, altDies, x);
    AllEntered(false, mainDies, x);
  }

  /** The kind of the latest type, or other tag, with this offset. */
  function Latest(xs: seq<Entry>, id: nat, types: bool): Option<Kind> {
    if xs == [] then None
    else
      var x := xs[|xs| - 1];
      if x.id == id && IsType(x.kind) == types then Some(x.kind) else Latest(xs[..|xs| - 1], id, types)
  }

  /** There is a latest one exactly when there is one. */
  lemma {:induction false} LatestExists(xs: seq<Entry>, id: nat, types: bool)
    ensures Latest(xs, id, types).Some? <==> exists x :: x in xs && x.id == id && IsType(x.kind) == types
  {
    if xs != [] {
      var front, x := xs[..|xs| - 1], xs[|xs| - 1];
      LatestExists(front, id, types);
      assert xs == front + [x];
    }
  }

  /** It is that of an entry behind which there is no other. */
  lemma {:induction false} LatestIsLast(xs: seq<Entry>, id: nat, types: bool)
    requires Latest(xs, id, types).Some?
    ensures exists i :: && 0 <= i < |xs| && xs[i].id == id && (xs[i].kind in {Typed, Unspecified}) == types
                        && xs[i].kind == Latest(xs, id, types).value
                        && forall j :: i < j < |xs| ==> xs[j].id != id || (xs[j].kind in {Typed, Unspecified}) != types
  {
    var front, n := xs[..|xs| - 1], |xs| - 1;
    if !(xs[n].id == id && IsType(xs[n].kind) == types) {
      LatestIsLast(front, id, types);
      var i :| && 0 <= i < |front| && front[i].id == id && IsType(front[i].kind) == types
               && front[i].kind == Latest(front, id, types).value
               && forall j :: i < j < |front| ==> front[j].id != id || IsType(front[j].kind) != types;
      assert xs[i] == front[i] && forall j :: i < j < n ==> xs[j] == front[j];
    }
  }

  /** A lookup of `id` that should give a tag of this kind. */
  predicate FoundAs(f: Option<DTag>, id: nat, kind: Option<Kind>) {
    if id == 0 || kind.None? then f == None else f.Some? && f.value.id == id && f.value.kind == kind.value
  }

  /** Lookups in the alternate tables give just what `xs` says. */
  ghost predicate Agrees(t: Tables, xs: seq<Entry>)
    requires t.Sized()
  {
    forall id :: && FoundAs(Found(t.bits, t.altTypes, id), id, Latest(xs, id, true))
                 && FoundAs(Found(t.bits, t.altTags, id), id, Latest(xs, id, false))
  }

  /** The members and enumerators in the alternate table are those of `xs`; they all have small id 0. */
  ghost predicate Children(t: Tables, xs: seq<Entry>)
    requires t.Sized()
  {
    forall id :: IsIn(t.bits, t.altTags, DTag(id, 0, Child)) <==> Entry(id, Child) in xs
  }

  lemma FoundHashed(bits: nat, heads: Heads, d: DTag, id: nat)
    requires bits <= 64 && |heads| == Pow2(bits)
    ensures Found(bits, Hashed(bits, heads, d), id) == if id != 0 && d.id == id then Some(d) else Found(bits, heads, id)
  {
    hide Bucket;
    var b := Bucket(bits, id);
    if b == Bucket(bits, d.id) {
      assert ([d] + heads[b])[1..] == heads[b];
    }
  }

  lemma IsInHashed(bits: nat, heads: Heads, d: DTag, e: DTag)
    requires bits <= 64 && |heads| == Pow2(bits)
    ensures IsIn(bits, Hashed(bits, heads, d), e) <==> e == d || IsIn(bits, heads, e)
  {
    hide Bucket;
  }

  lemma LatestOfMore(xs: seq<Entry>, x: Entry, id: nat, types: bool)
    ensures Latest(xs + [x], id, types) == if x.id == id && IsType(x.kind) == types then Some(x.kind) else Latest(xs, id, types)
  {
    assert (xs + [x])[..|xs|] == xs;
  }

  lemma AddAgrees(t: Tables, xs: seq<Entry>, id: nat, kind: Kind)
    requires t.Sized() && Agrees(t, xs) && Children(t, xs)
    ensures Agrees(t.Add(true, id, kind), xs + [Entry(id, kind)]) && Children(t.Add(true, id, kind), xs + [Entry(id, kind)])
  {
    hide Bucket, Found, Hashed, Latest, IsIn;
    var d, x := DTag(id, t.SmallId(kind), kind), Entry(id, kind);
    var t', xs' := t.Add(true, id, kind), xs + [x];
    forall i ensures && FoundAs(Found(t'.bits, t'.altTypes, i), i, Latest(xs', i, true))
                     && FoundAs(Found(t'.bits, t'.altTags, i), i, Latest(xs', i, false))
    {
      LatestOfMore(xs, x, i, true);
      LatestOfMore(xs, x, i, false);
      FoundHashed(t.bits, t.altTypes, d, i);
      FoundHashed(t.bits, t.altTags, d, i);
      assert FoundAs(Found(t.bits, t.altTypes, i), i, Latest(xs, i, true));
    }
    forall i ensures IsIn(t'.bits, t'.altTags, DTag(i, 0, Child)) <==> Entry(i, Child) in xs' {
      IsInHashed(t.bits, t.altTags, d, DTag(i, 0, Child));
    }
  }

  lemma {:induction false} ChainAgrees(t: Tables, xs: seq<Entry>, alt: bool, chain: seq<Link>)
    requires t.Sized() && Agrees(t, xs) && Children(t, xs)
    ensures Agrees(t.AddChain(alt, chain), xs + ChainEntries(alt, chain))
    ensures Children(t.AddChain(alt, chain), xs + ChainEntries(alt, chain))
    decreases |chain|
  {
    hide Agrees, Children;
    if chain == [] {
      assert xs + [] == xs;
    } else {
      var alt' := alt || chain[0].isAlt;
      var x := Entry(chain[0].offset, Typed);
      var t', rest := t.Add(alt', x.id, Typed), ChainEntries(alt', chain[1..]);
      if alt' {
        AddAgrees(t, xs, x.id, Typed);
        ChainAgrees(t', xs + [x], alt', chain[1..]);
        assert xs + [x] + rest == xs + ([x] + rest);
      } else {
        MainAgrees(t, xs, x.id, Typed);
        ChainAgrees(t', xs, alt', chain[1..]);
        assert [] + rest == rest;
      }
    }
  }

  lemma MainAgrees(t: Tables, xs: seq<Entry>, id: nat, kind: Kind)
    requires t.Sized() && Agrees(t, xs) && Children(t, xs)
    ensures Agrees(t.Add(false, id, kind), xs) && Children(t.Add(false, id, kind), xs)
  {
  }

  predicate TakesTagSlot(e: Event) { e.Tag? && e.kind == Other }

  lemma AfterAgrees(t: Tables, xs: seq<Entry>, alt: bool, e: Event)
    requires t.Sized() && Agrees(t, xs) && Children(t, xs)
    ensures Agrees(t.After(alt, e), xs + Entries(alt, e)) && Children(t.After(alt, e), xs + Entries(alt, e))
  {
    hide Agrees, Children;
    assert xs + [] == xs;
    match e
    case Tag(id, kind) =>
      if alt {
        AddAgrees(t, xs, id, kind);
      } else {
        MainAgrees(t, xs, id, kind);
      }
    case Annotations(chain) => ChainAgrees(t, xs, alt, chain);
    case _ =>
  }

  lemma {:induction false} AfterAllAgrees(t: Tables, xs: seq<Entry>, alt: bool, es: seq<Event>)
    requires t.Sized() && Agrees(t, xs) && Children(t, xs)
    ensures Agrees(t.AfterAll(alt, es), xs + AllEntries(alt, es)) && Children(t.AfterAll(alt, es), xs + AllEntries(alt, es))
  {
    hide Agrees, Children, Entries, Tables.After;
    if es == [] {
      assert xs + [] == xs;
    } else {
      var front, e := es[..|es| - 1], es[|es| - 1];
      AfterAllAgrees(t, xs, alt, front);
      AfterAgrees(t.AfterAll(alt, front), xs + AllEntries(alt, front), alt, e);
      assert xs + AllEntries(alt, front) + Entries(alt, e) == xs + (AllEntries(alt, front) + Entries(alt, e));
    }
  }

  /** tags_table stays empty exactly as long as nothing takes a slot in it. */
  lemma {:induction false} TagSlotsTaken(t: Tables, alt: bool, es: seq<Event>)
    requires t.Sized()
    ensures t.AfterAll(alt, es).tags == [] <==> t.tags == [] && forall e :: e in es ==> !TakesTagSlot(e)
  {
    hide Tables.After, TakesTagSlot;
    if es != [] {
      var front, e := es[..|es| - 1], es[|es| - 1];
      TagSlotsTaken(t, alt, front);
      SlotTaken(t.AfterAll(alt, front), alt, e);
      assert es == front + [e];
    }
  }

  lemma SlotTaken(t: Tables, alt: bool, e: Event)
    requires t.Sized()
    ensures t.After(alt, e).tags == [] <==> t.tags == [] && !TakesTagSlot(e)
  {
    if e.Annotations? {
      ChainTakesNone(t, alt, e.chain);
    }
  }

  lemma {:induction false} ChainTakesNone(t: Tables, alt: bool, chain: seq<Link>)
    requires t.Sized()
    ensures t.AddChain(alt, chain).tags == t.tags
    decreases |chain|
  {
    if chain != [] {
      var alt' := alt || chain[0].isAlt;
      ChainTakesNone(t.Add(alt', chain[0].offset, Typed), alt', chain[1..]);
    }
  }

  /**
   What both files leave in the alternate tables: a lookup of any offset but 0 gives the latest type, or the
   latest other tag, read there with that offset, and nothing if none was.
   */
  lemma LookupIsLatest(bits: nat, altDies: seq<Event>, mainDies: seq<Event>)
    requires bits <= 64
    ensures var t, xs := Loaded(bits, altDies, mainDies), AltEntries(altDies, mainDies);
            && Agrees(t, xs) && Children(t, xs)
            && (t.tags == [] <==> forall e :: e in altDies + mainDies ==> !TakesTagSlot(e))
  {
    hide Agrees, Children, Bucket;
    EmptyAgrees(bits);
    AfterAllAgrees(Empty(bits), [], true, altDies);
    assert [] + AllEntries(true, altDies) == AllEntries(true, altDies);
    AfterAllAgrees(Empty(bits).AfterAll(true, altDies), AllEntries(true, altDies), false, mainDies);
    TagSlotsTaken(Empty(bits), true, altDies);
    TagSlotsTaken(Empty(bits).AfterAll(true, altDies), false, mainDies);
  }

  lemma EmptyAgrees(bits: nat)
    requires bits <= 64
    ensures Agrees(Empty(bits), []) && Children(Empty(bits), [])
  {
  }

  /** In particular every tag read from the alternate file, unless a later one has its offset, is found with its kind. */
  lemma TagFound(bits: nat, altDies: seq<Event>, mainDies: seq<Event>, k: nat)
    requires bits <= 64 && k < |altDies| && altDies[k].Tag? && altDies[k].id != 0
    requires forall x :: x in AltEntries(altDies, mainDies) && x.id == altDies[k].id && IsType(x.kind) == IsType(altDies[k].kind)
                         ==> x.kind == altDies[k].kind
    ensures var t, e := Loaded(bits, altDies, mainDies), altDies[k];
            var f := Found(bits, if IsType(e.kind) then t.altTypes else t.altTags, e.id);
            f.Some? && f.value.id == e.id && f.value.kind == e.kind
  {
    hide Bucket, Found;
    var xs, e := AltEntries(altDies, mainDies), altDies[k];
    LookupIsLatest(bits, altDies, mainDies);
    EntriesExactly(altDies, mainDies, Entry(e.id, e.kind));
    LatestExists(xs, e.id, IsType(e.kind));
    LatestIn(xs, e.id, IsType(e.kind));
  }

  lemma {:induction false} LatestIn(xs: seq<Entry>, id: nat, types: bool)
    requires Latest(xs, id, types).Some?
    ensures IsType(Latest(xs, id, types).value) == types && Entry(id, Latest(xs, id, types).value) in xs
  {
    var x := xs[|xs| - 1];
    if !(x.id == id && IsType(x.kind) == types) {
      LatestIn(xs[..|xs| - 1], id, types);
    }
  }
}
