/** Dropping what no reference reaches from a dwz alternate file: what pruning leaves of the tables. */
module AltPruning {
  import opened Words
  import opened Wrappers
  import opened HashTags
  import opened AltUnits
  import opened AltEvents

  ghost function Kept(chain: seq<DTag>, pus: seq<AltPu>): seq<DTag> {
    if chain == [] then []
    else (if Survives(pus, chain[0].id) then [chain[0]] else []) + Kept(chain[1..], pus)
  }

  ghost function Dead(chain: seq<DTag>, pus: seq<AltPu>): set<DTag> {
    set d | d in chain && !Survives(pus, d.id)
  }

  ghost function AllDead(heads: Heads, pus: seq<AltPu>): set<DTag> {
    set c, d | c in heads && d in c && !Survives(pus, d.id) :: d
  }

  ghost function Functions(tags: set<DTag>): set<DTag> {
    set d | d in tags && d.kind == Function
  }

  ghost function Others(tags: set<DTag>): set<DTag> {
    set d | d in tags && d.kind != Function
  }

  /** The slots of the tags in `gone` emptied. */
  ghost predicate NulledBy(was: Slots, now: Slots, gone: set<DTag>) {
    |now| == |was| && forall j :: 0 <= j < |was| ==> now[j] == if (exists d :: d in gone && d.smallId == j) then None else was[j]
  }

  lemma SurvivesIsHit(pus: seq<AltPu>, offset: nat)
    requires pus != []
    ensures Survives(pus, offset) <==> Live(pus, offset)
  {
  }

  lemma DeadStep(chain: seq<DTag>, pus: seq<AltPu>, k: nat)
    requires k < |chain|
    ensures chain[k..][1..] == chain[k + 1..] && chain[k..][0] == chain[k]
    ensures Kept(chain[k..], pus) == (if Survives(pus, chain[k].id) then [chain[k]] else []) + Kept(chain[k + 1..], pus)
    ensures Dead(chain[..k + 1], pus) == Dead(chain[..k], pus) + (if Survives(pus, chain[k].id) then {} else {chain[k]})
  {
    assert chain[..k + 1] == chain[..k] + [chain[k]];
    assert chain[k..][1..] == chain[k + 1..];
  }

  /** The walk over a chain: `k` tags of it seen, `pos` of them still there. */
  ghost predicate Walk(chain: seq<DTag>, now: seq<DTag>, pus: seq<AltPu>, pos: nat, k: nat) {
    && pos <= |now| && k <= |chain| && now[pos..] == chain[k..]
    && now[..pos] + Kept(chain[k..], pus) == Kept(chain, pus)
  }

  lemma WalkStart(chain: seq<DTag>, pus: seq<AltPu>)
    ensures Walk(chain, chain, pus, 0, 0) && Dead(chain[..0], pus) == {}
  {
    assert chain[0..] == chain;
  }

  lemma WalkStep(chain: seq<DTag>, now: seq<DTag>, pus: seq<AltPu>, pos: nat, k: nat)
    requires Walk(chain, now, pus, pos, k) && pos < |now|
    ensures k < |chain| && now[pos] == chain[k] && now[pos] in chain
    ensures Survives(pus, now[pos].id) ==>
              Walk(chain, now, pus, pos + 1, k + 1) && Dead(chain[..k + 1], pus) == Dead(chain[..k], pus)
    ensures !Survives(pus, now[pos].id) ==>
              && Walk(chain, now[..pos] + now[pos + 1..], pus, pos, k + 1)
              && Dead(chain[..k + 1], pus) == Dead(chain[..k], pus) + {now[pos]}
  {
    hide Survives, Kept, Dead;
    assert now[pos..][0] == chain[k..][0] == chain[k] && now[pos..][0] == now[pos];
    DeadStep(chain, pus, k);
    assert now[pos..][1..] == now[pos + 1..];
    var cut := now[..pos] + now[pos + 1..];
    assert cut[..pos] == now[..pos] && cut[pos..] == now[pos + 1..];
    assert now[..pos + 1] == now[..pos] + [now[pos]];
    if Survives(pus, now[pos].id) {
      assert now[..pos + 1] + Kept(chain[k + 1..], pus) == now[..pos] + Kept(chain[k..], pus);
    } else {
      assert [] + Kept(chain[k + 1..], pus) == Kept(chain[k + 1..], pus);
    }
  }

  lemma WalkEnd(chain: seq<DTag>, now: seq<DTag>, pus: seq<AltPu>, k: nat)
    requires Walk(chain, now, pus, |now|, k)
    ensures now == Kept(chain, pus) && chain[..k] == chain
  {
    assert k == |chain| by { assert |chain[k..]| == 0; }
    assert now[..|now|] == now;
  }

  lemma SplitStep(gone: set<DTag>, more: set<DTag>)
    ensures Functions(gone + more) == Functions(gone) + Functions(more)
    ensures Others(gone + more) == Others(gone) + Others(more)
  {
  }

  lemma SplitOne(gone: set<DTag>, d: DTag)
    ensures Functions(gone + {d}) == (if d.kind == Function then Functions(gone) + {d} else Functions(gone))
    ensures Others(gone + {d}) == (if d.kind == Function then Others(gone) else Others(gone) + {d})
  {
  }

  lemma NothingDies(heads: Heads, pus: seq<AltPu>)
    requires pus == []
    ensures AllKept(heads, heads, pus) && AllDead(heads, pus) == {}
    ensures Functions({}) == Others({}) == {}
  {
    forall b | 0 <= b < |heads| ensures heads[b] == Kept(heads[b], pus) {
      AllStay(heads[b], pus);
    }
  }

  lemma {:induction false} AllStay(chain: seq<DTag>, pus: seq<AltPu>)
    requires pus == []
    ensures Kept(chain, pus) == chain
  {
    if chain != [] {
      AllStay(chain[1..], pus);
    }
  }

  /** A member or enumerator among them. */
  ghost predicate HasChild(tags: set<DTag>) {
    exists d :: d in tags && d.kind == Child
  }

  /** A member or enumerator of the alternate file does not survive. */
  ghost predicate ChildDies(heads: Heads, pus: seq<AltPu>) {
    HasChild(AllDead(heads, pus))
  }

  lemma ChildSplit(gone: set<DTag>, more: set<DTag>)
    ensures HasChild(gone + more) <==> HasChild(gone) || HasChild(more)
    ensures !HasChild({})
  {
    if d :| d in gone + more && d.kind == Child {
      assert d in gone || d in more;
    }
    if d :| d in gone && d.kind == Child {
      assert d in gone + more;
    }
    if d :| d in more && d.kind == Child {
      assert d in gone + more;
    }
  }

  lemma OneChild(d: DTag)
    ensures HasChild({d}) <==> d.kind == Child
  {
    assert d in {d};
  }

  lemma DeadGrows(chain: seq<DTag>, pus: seq<AltPu>, k: nat)
    requires k <= |chain| && HasChild(Dead(chain[..k], pus))
    ensures HasChild(Dead(chain, pus))
  {
    hide Survives;
    var d :| d in Dead(chain[..k], pus) && d.kind == Child;
    assert d in Dead(chain, pus);
  }

  lemma AllDeadGrows(heads: Heads, pus: seq<AltPu>, i: nat)
    requires i <= |heads| && HasChild(AllDead(heads[..i], pus))
    ensures ChildDies(heads, pus)
  {
    hide Survives;
    var d :| d in AllDead(heads[..i], pus) && d.kind == Child;
    assert d in AllDead(heads, pus);
  }

  lemma FitsKept(chain: seq<DTag>, tags: Slots, functions: Slots, tags': Slots, functions': Slots)
    requires forall d :: d in chain ==> TagFits(d, tags, functions)
    requires |tags'| == |tags| && |functions'| == |functions|
    ensures forall d :: d in chain ==> TagFits(d, tags', functions')
  {
  }

  /** No tag has a small id beyond its table, except that members and enumerators always have 0. */
  ghost predicate TagFits(d: DTag, tags: Slots, functions: Slots) {
    match d.kind
    case Function => d.smallId < |functions|
    case Child => d.smallId == 0
    case _ => d.smallId < |tags|
  }

  lemma SmallIdsFit(t: Tables)
    requires t.Valid()
    ensures forall b, d :: 0 <= b < |t.altTypes| && d in t.altTypes[b] ==> d.smallId < |t.types|
    ensures forall b, d :: 0 <= b < |t.altTags| && d in t.altTags[b] ==> TagFits(d, t.tags, t.functions)
  {
    hide InBuckets;
    forall b, d | 0 <= b < |t.altTags| && d in t.altTags[b] ensures TagFits(d, t.tags, t.functions) {
      assert t.altTags[b] in t.altTags;
    }
  }

  lemma NobodyYet(heads: Heads, pus: seq<AltPu>)
    ensures AllDead(heads[..0], pus) == {} && Functions({}) == Others({}) == {}
  {
  }

  ghost predicate AllKept(was: Heads, now: Heads, pus: seq<AltPu>) {
    |now| == |was| && forall b :: 0 <= b < |was| ==> now[b] == Kept(was[b], pus)
  }

  lemma {:induction false} KeptFirst(chain: seq<DTag>, pus: seq<AltPu>, id: nat)
    ensures FirstWith(Kept(chain, pus), id) == if Survives(pus, id) then FirstWith(chain, id) else None
  {
    if chain != [] {
      KeptFirst(chain[1..], pus, id);
      if Survives(pus, chain[0].id) {
        assert Kept(chain, pus)[1..] == Kept(chain[1..], pus);
      } else {
        assert Kept(chain, pus) == Kept(chain[1..], pus);
      }
    }
  }

  /** Lookups after pruning: as before for what survives, nothing for the rest. */
  lemma FoundAfter(bits: nat, was: Heads, now: Heads, pus: seq<AltPu>, id: nat)
    requires bits <= 64 && |was| == Pow2(bits) && AllKept(was, now, pus)
    ensures Found(bits, now, id) == if Survives(pus, id) then Found(bits, was, id) else None
  {
    KeptFirst(was[Bucket(bits, id)], pus, id);
  }

  /** Lookups find what survives as before, and nothing else. */
  ghost predicate FindsSurvivors(bits: nat, was: Heads, now: Heads, pus: seq<AltPu>) {
    && bits <= 64 && |was| == |now| == Pow2(bits)
    && forall id :: Found(bits, now, id) == if Survives(pus, id) then Found(bits, was, id) else None
  }

  lemma SurvivorsFound(bits: nat, was: Heads, now: Heads, pus: seq<AltPu>)
    requires bits <= 64 && |was| == Pow2(bits) && AllKept(was, now, pus)
    ensures FindsSurvivors(bits, was, now, pus)
  {
    hide Found, Survives;
    forall id ensures Found(bits, now, id) == if Survives(pus, id) then Found(bits, was, id) else None {
      FoundAfter(bits, was, now, pus, id);
    }
  }

  /** Given any unit at all, the offset lies in one together with a marked offset. */
  ghost predicate Shares(pus: seq<AltPu>, marked: set<nat>, offset: nat) {
    pus == [] || exists i, m :: 0 <= i < |pus| && InRange(pus[i], offset) && m in marked && InRange(pus[i], m)
  }

  /** The offsets pruning spares, told from the two files: those that share a unit with one that something aims at. */
  ghost predicate Spared(headers: seq<Header>, altDies: seq<Event>, mainDies: seq<Event>, offset: nat) {
    var pus := Registered(headers);
    pus == [] || exists i, m :: && 0 <= i < |pus| && InRange(pus[i], offset) && InRange(pus[i], m)
                                && (Aims(true, altDies, m) || Aims(false, mainDies, m))
  }

  ghost predicate SparesSurvive(pus: seq<AltPu>, headers: seq<Header>, altDies: seq<Event>, mainDies: seq<Event>) {
    forall id :: Survives(pus, id) <==> Spared(headers, altDies, mainDies, id)
  }

  lemma SharesSame(a: seq<AltPu>, b: seq<AltPu>, marked: set<nat>, offset: nat)
    requires SameRanges(a, b)
    ensures Shares(a, marked, offset) ==> Shares(b, marked, offset)
  {
    if a != [] && Shares(a, marked, offset) {
      var i, m :| 0 <= i < |a| && InRange(a[i], offset) && m in marked && InRange(a[i], m);
      assert InRange(b[i], offset) && InRange(b[i], m);
    }
  }

  lemma SurvivorsShare(pus: seq<AltPu>, marked: set<nat>, offset: nat)
    requires Sorted(pus) && HitExactly(pus, marked)
    ensures Survives(pus, offset) <==> Shares(pus, marked, offset)
  {
    hide Sorted, HitExactly;
    LiveExactly(pus, marked, offset);
  }

  /** What pruning goes by, and what the two files say. */
  lemma SparedShares(headers: seq<Header>, altDies: seq<Event>, mainDies: seq<Event>, offset: nat)
    ensures Spared(headers, altDies, mainDies, offset) <==>
            Shares(Registered(headers), AllMarks(true, altDies) + AllMarks(false, mainDies), offset)
  {
    hide Registered, AllMarks, Aims;
    forall m ensures (Aims(true, altDies, m) || Aims(false, mainDies, m)) <==> m in AllMarks(true, altDies) + AllMarks(false, mainDies) {
      MarkedExactly(true, altDies, m);
      MarkedExactly(false, mainDies, m);
    }
  }

  lemma AllSparedSurvive(pus: seq<AltPu>, headers: seq<Header>, altDies: seq<Event>, mainDies: seq<Event>)
    requires Sorted(pus) && HitExactly(pus, AllMarks(true, altDies) + AllMarks(false, mainDies))
    requires SameRanges(Registered(headers), pus)
    ensures SparesSurvive(pus, headers, altDies, mainDies)
  {
    hide Sorted, HitExactly, Shares, Registered, Survives, Spared;
    var marked := AllMarks(true, altDies) + AllMarks(false, mainDies);
    forall id ensures Survives(pus, id) <==> Spared(headers, altDies, mainDies, id) {
      SparedShares(headers, altDies, mainDies, id);
      SurvivorsShare(pus, marked, id);
      SharesSame(Registered(headers), pus, marked, id);
      SharesSame(pus, Registered(headers), marked, id);
    }
  }

  /** Whatever something aims at inside a unit is spared. */
  lemma ExplicitTargetSpared(headers: seq<Header>, altDies: seq<Event>, mainDies: seq<Event>, m: nat)
    requires InUnit(Registered(headers), m) && (Aims(true, altDies, m) || Aims(false, mainDies, m))
    ensures Spared(headers, altDies, mainDies, m)
  {
    hide Registered, Aims;
    var i :| 0 <= i < |Registered(headers)| && InRange(Registered(headers)[i], m);
  }

  /** The unit of every offset something aims at is hit. */
  lemma AimedIsHit(pus: seq<AltPu>, headers: seq<Header>, altDies: seq<Event>, mainDies: seq<Event>, m: nat)
    requires SameRanges(Registered(headers), pus) && SparesSurvive(pus, headers, altDies, mainDies)
    requires InUnit(Registered(headers), m) && (Aims(true, altDies, m) || Aims(false, mainDies, m))
    ensures Live(pus, m)
  {
    hide Registered, Aims, Spared;
    ExplicitTargetSpared(headers, altDies, mainDies, m);
    assert Survives(pus, m) && pus != [];
  }

  /** The tables still have everything that was at this offset. */
  ghost predicate StaysAt(was: Tables, now: Tables, pus: seq<AltPu>, m: nat)
    requires was.Sized() && now.Sized() && was.bits == now.bits
  {
    && Found(was.bits, now.altTypes, m) == Found(was.bits, was.altTypes, m)
    && Found(was.bits, now.altTags, m) == Found(was.bits, was.altTags, m)
    && |now.types| == |was.types| && |now.functions| == |was.functions| && |now.tags| == |was.tags|
    && (forall j :: 0 <= j < |was.types| && was.types[j].Some? && was.types[j].value.id == m ==> now.types[j] == was.types[j])
    && (forall j :: 0 <= j < |was.functions| && was.functions[j].Some? && was.functions[j].value.id == m ==> now.functions[j] == was.functions[j])
    && (forall j :: 0 <= j < |was.tags| && was.tags[j].Some? && was.tags[j].value.id == m && !(j == 0 && ChildDies(was.altTags, pus)) ==>
          now.tags[j] == was.tags[j])
  }

  lemma DeadIsGone(was: Tables, now: Tables, pus: seq<AltPu>)
    requires was.Sized() && now.Sized() && was.bits == now.bits
    requires FindsSurvivors(was.bits, was.altTypes, now.altTypes, pus) && FindsSurvivors(was.bits, was.altTags, now.altTags, pus)
    ensures forall id :: pus != [] && !Live(pus, id) ==>
              Found(was.bits, now.altTypes, id) == Found(was.bits, now.altTags, id) == None
  {
    hide Found, Live;
  }

  lemma LiveStays(was: Tables, now: Tables, pus: seq<AltPu>, m: nat)
    requires was.Sized() && now.Sized() && was.bits == now.bits && Live(pus, m)
    requires FindsSurvivors(was.bits, was.altTypes, now.altTypes, pus) && FindsSurvivors(was.bits, was.altTags, now.altTags, pus)
    requires Emptied(was.bits, was.altTypes, was.types, now.types, pus) && Emptied(was.bits, was.altTags, was.functions, now.functions, pus)
    requires TagsEmptied(was.bits, was.altTags, was.tags, now.tags, pus)
    ensures StaysAt(was, now, pus, m)
  {
    hide Bucket, Found, IsIn, ChildDies, Live;
  }

  lemma AllDeadStep(heads: Heads, pus: seq<AltPu>, i: nat)
    requires i < |heads|
    ensures AllDead(heads[..i + 1], pus) == AllDead(heads[..i], pus) + Dead(heads[i], pus)
  {
    assert heads[..i + 1] == heads[..i] + [heads[i]];
  }

  lemma NulledStep(was: Slots, now: Slots, gone: set<DTag>, d: DTag)
    requires NulledBy(was, now, gone) && d.smallId < |was|
    ensures NulledBy(was, now[d.smallId := None], gone + {d})
  {
    var now', gone' := now[d.smallId := None], gone + {d};
    forall j | 0 <= j < |was|
      ensures now'[j] == if (exists e :: e in gone' && e.smallId == j) then None else was[j]
    {
      if e :| e in gone && e.smallId == j {
        assert e in gone';
      }
      assert d in gone';
    }
  }

  lemma NulledTwice(was: Slots, mid: Slots, now: Slots, a: set<DTag>, b: set<DTag>)
    requires NulledBy(was, mid, a) && NulledBy(mid, now, b)
    ensures NulledBy(was, now, a + b)
  {
    forall j | 0 <= j < |was| ensures now[j] == if (exists e :: e in a + b && e.smallId == j) then None else was[j] {
      if e :| e in a && e.smallId == j {
        assert e in a + b;
      }
      if e :| e in b && e.smallId == j {
        assert e in a + b;
      }
    }
  }

  lemma NulledNone(slots: Slots)
    ensures NulledBy(slots, slots, {})
  {
  }

  // ----- what pruning does to the slots -----

  /** The tag in slot `j` came from the alternate file and does not survive. */
  ghost predicate Dies(bits: nat, heads: Heads, was: Slots, pus: seq<AltPu>, j: nat)
    requires bits <= 64 && |heads| == Pow2(bits)
  {
    j < |was| && was[j].Some? && IsIn(bits, heads, was[j].value) && !Survives(pus, was[j].value.id)
  }

  /** Exactly those slots are emptied. */
  ghost predicate Emptied(bits: nat, heads: Heads, was: Slots, now: Slots, pus: seq<AltPu>)
    requires bits <= 64 && |heads| == Pow2(bits)
  {
    |now| == |was| && forall j :: 0 <= j < |was| ==> now[j] == if Dies(bits, heads, was, pus, j) then None else was[j]
  }

  /** As above, except that slot 0 is emptied too when a member or enumerator dies. */
  ghost predicate TagsEmptied(bits: nat, heads: Heads, was: Slots, now: Slots, pus: seq<AltPu>)
    requires bits <= 64 && |heads| == Pow2(bits)
  {
    |now| == |was| && forall j :: 0 <= j < |was| ==>
      now[j] == if (j == 0 && ChildDies(heads, pus)) || Dies(bits, heads, was, pus, j) then None else was[j]
  }

  lemma DeadIn(t: Tables, heads: Heads, d: DTag, pus: seq<AltPu>)
    requires t.Sized() && |heads| == Pow2(t.bits) && InBuckets(t.bits, heads)
    ensures d in AllDead(heads, pus) <==> IsIn(t.bits, heads, d) && !Survives(pus, d.id)
  {
    hide Bucket, Survives;
    if d in AllDead(heads, pus) {
      var c :| c in heads && d in c;
      var b :| 0 <= b < |heads| && heads[b] == c;
    } else if IsIn(t.bits, heads, d) {
      assert heads[Bucket(t.bits, d.id)] in heads;
    }
  }

  /** Types: NULL exactly where the type came from the alternate file and its unit was never hit. */
  lemma TypeFate(t: Tables, now: Slots, pus: seq<AltPu>)
    requires t.Valid() && NulledBy(t.types, now, AllDead(t.altTypes, pus))
    ensures Emptied(t.bits, t.altTypes, t.types, now, pus)
  {
    hide Bucket, Survives, InBuckets, TagSlots, IsIn;
    var was, heads := t.types, t.altTypes;
    forall j | 0 <= j < |was| ensures now[j] == if Dies(t.bits, heads, was, pus, j) then None else was[j] {
      if d :| d in AllDead(heads, pus) && d.smallId == j {
        DeadIn(t, heads, d, pus);
        assert d.kind == Typed ==> was[j] == Some(d);
      } else if was[j].Some? {
        DeadIn(t, heads, was[j].value, pus);
      }
    }
  }

  /** Functions: likewise. */
  lemma FunctionFate(t: Tables, now: Slots, pus: seq<AltPu>)
    requires t.Valid() && NulledBy(t.functions, now, Functions(AllDead(t.altTags, pus)))
    ensures Emptied(t.bits, t.altTags, t.functions, now, pus)
  {
    hide Bucket, Survives, InBuckets, TypeSlots, IsIn;
    var was, heads := t.functions, t.altTags;
    forall j | 0 <= j < |was| ensures now[j] == if Dies(t.bits, heads, was, pus, j) then None else was[j] {
      if d :| d in Functions(AllDead(heads, pus)) && d.smallId == j {
        DeadIn(t, heads, d, pus);
        assert was[j] == Some(d);
      } else if was[j].Some? {
        DeadIn(t, heads, was[j].value, pus);
      }
    }
  }

  /**
   Other tags: likewise, except for slot 0. The alternate file's members and enumerators have no slot,
   but carry small id 0, so pruning one empties whatever slot 0 holds.
   */
  lemma TagFate(t: Tables, now: Slots, pus: seq<AltPu>)
    requires t.Valid() && NulledBy(t.tags, now, Others(AllDead(t.altTags, pus)))
    ensures TagsEmptied(t.bits, t.altTags, t.tags, now, pus)
  {
    hide Bucket, Survives, InBuckets, TypeSlots, IsIn;
    var was, heads := t.tags, t.altTags;
    var gone := Others(AllDead(heads, pus));
    forall j | 0 <= j < |was|
      ensures now[j] == if (j == 0 && ChildDies(heads, pus)) || Dies(t.bits, heads, was, pus, j) then None else was[j]
    {
      if j == 0 && ChildDies(heads, pus) {
        var d :| d in AllDead(heads, pus) && d.kind == Child;
        assert d in gone && d.smallId == 0;
      } else if d :| d in gone && d.smallId == j {
        DeadIn(t, heads, d, pus);
        assert was[j] == Some(d);
      } else if was[j].Some? {
        DeadIn(t, heads, was[j].value, pus);
      }
    }
  }

  /** A tag that is not the alternate file's loses its slot exactly when it has slot 0 and a child dies. */
  lemma MainTagLost(t: Tables, now: Slots, pus: seq<AltPu>, j: nat)
    requires t.Valid() && NulledBy(t.tags, now, Others(AllDead(t.altTags, pus)))
    requires j < |t.tags| && t.tags[j].Some? && !IsIn(t.bits, t.altTags, t.tags[j].value)
    ensures now[j] == None <==> j == 0 && ChildDies(t.altTags, pus)
  {
    TagFate(t, now, pus);
  }

  // ----- told from the two files -----

  /** Some member or enumerator read from the alternate file is not spared. */
  ghost predicate ChildNotSpared(headers: seq<Header>, altDies: seq<Event>, mainDies: seq<Event>) {
    exists id :: Entry(id, Child) in AltEntries(altDies, mainDies) && !Spared(headers, altDies, mainDies, id)
  }

  /** Pruning writes a slot of a table that was never allocated. */
  ghost predicate NullWrite(headers: seq<Header>, altDies: seq<Event>, mainDies: seq<Event>) {
    ChildNotSpared(headers, altDies, mainDies) && forall e :: e in altDies + mainDies ==> !TakesTagSlot(e)
  }

  lemma ChildDiesExactly(t: Tables, pus: seq<AltPu>, headers: seq<Header>, altDies: seq<Event>, mainDies: seq<Event>)
    requires t.Valid() && Children(t, AltEntries(altDies, mainDies)) && SparesSurvive(pus, headers, altDies, mainDies)
    ensures ChildDies(t.altTags, pus) <==> ChildNotSpared(headers, altDies, mainDies)
  {
    hide Bucket, Survives, InBuckets, TypeSlots, IsIn, Spared, AltEntries, AllDead;
    if d :| d in AllDead(t.altTags, pus) && d.kind == Child {
      DeadIn(t, t.altTags, d, pus);
      ChildHasNoSlot(t, d);
      assert Entry(d.id, Child) in AltEntries(altDies, mainDies);
    }
    if id :| Entry(id, Child) in AltEntries(altDies, mainDies) && !Spared(headers, altDies, mainDies, id) {
      DeadIn(t, t.altTags, DTag(id, 0, Child), pus);
      assert IsIn(t.bits, t.altTags, DTag(id, 0, Child));
    }
  }

  lemma ChildHasNoSlot(t: Tables, d: DTag)
    requires t.Valid() && IsIn(t.bits, t.altTags, d) && d.kind == Child
    ensures d == DTag(d.id, 0, Child)
  {
    hide Bucket, InBuckets, TypeSlots;
    assert t.altTags[Bucket(t.bits, d.id)] in t.altTags;
  }

  /** Lookups give the latest entry of `xs` with the offset if it survives, and nothing else. */
  ghost predicate FindsLatest(bits: nat, heads: Heads, xs: seq<Entry>, types: bool, pus: seq<AltPu>)
    requires bits <= 64 && |heads| == Pow2(bits)
  {
    forall id :: FoundAs(Found(bits, heads, id), id, if Survives(pus, id) then Latest(xs, id, types) else None)
  }

  lemma LatestFound(bits: nat, was: Heads, now: Heads, xs: seq<Entry>, types: bool, pus: seq<AltPu>)
    requires FindsSurvivors(bits, was, now, pus)
    requires forall id :: FoundAs(Found(bits, was, id), id, Latest(xs, id, types))
    ensures FindsLatest(bits, now, xs, types, pus)
  {
    hide Found, Survives, Latest;
  }
}
