/** The partial units of a dwz alternate file, and which of them something refers to. */
module AltUnits {

  /** The offsets from the unit's first DIE up to the next unit's header. */
  datatype AltPu = AltPu(start: nat, end: nat, hit: bool)

  predicate InRange(pu: AltPu, offset: nat) {
    pu.start <= offset < pu.end
  }

  ghost predicate Sorted(pus: seq<AltPu>) {
    && (forall i :: 0 <= i < |pus| ==> pus[i].start < pus[i].end)
    && (forall i, j :: 0 <= i < j < |pus| ==> pus[i].end <= pus[j].start)
  }

  /** Is the offset inside a unit that was hit? */
  ghost predicate Live(pus: seq<AltPu>, offset: nat) {
    exists i :: 0 <= i < |pus| && InRange(pus[i], offset) && pus[i].hit
  }

  /** Pruning spares an offset in a unit that was hit; without units it does nothing. */
  ghost predicate Survives(pus: seq<AltPu>, offset: nat) {
    pus == [] || Live(pus, offset)
  }

  ghost predicate SameRanges(a: seq<AltPu>, b: seq<AltPu>) {
    |a| == |b| && forall i :: 0 <= i < |a| ==> a[i].start == b[i].start && a[i].end == b[i].end
  }

  ghost predicate InUnit(pus: seq<AltPu>, offset: nat) {
    exists i :: 0 <= i < |pus| && InRange(pus[i], offset)
  }

  /** A unit is hit exactly when one of the marked offsets lies in it. */
  ghost predicate HitExactly(pus: seq<AltPu>, marked: set<nat>) {
    forall i :: 0 <= i < |pus| ==> (pus[i].hit <==> exists m :: m in marked && InRange(pus[i], m))
  }

  lemma OnlyOne(pus: seq<AltPu>, i: nat, j: nat, offset: nat)
    requires Sorted(pus) && i < |pus| && j < |pus| && InRange(pus[i], offset) && InRange(pus[j], offset)
    ensures i == j
  {
  }

  /** An offset survives exactly when it shares its unit with a marked one. */
  lemma LiveExactly(pus: seq<AltPu>, marked: set<nat>, offset: nat)
    requires Sorted(pus) && HitExactly(pus, marked)
    ensures Live(pus, offset) <==>
            exists i, m :: 0 <= i < |pus| && InRange(pus[i], offset) && m in marked && InRange(pus[i], m)
    ensures offset in marked && InUnit(pus, offset) ==> Live(pus, offset)
  {
    if i, m :| 0 <= i < |pus| && InRange(pus[i], offset) && m in marked && InRange(pus[i], m) {
      assert pus[i].hit;
    }
  }

  /** One unit of the alternate file as dwarf_nextcu hands it out: header, then DIEs, then the next header. */
  datatype Header = Header(offset: nat, size: nat, next: nat, hasDie: bool)

  /** Units follow one another, and one with a DIE has room for it. */
  ghost predicate Contiguous(headers: seq<Header>) {
    && (forall i :: 0 <= i < |headers| ==> headers[i].offset + headers[i].size <= headers[i].next)
    && (forall i :: 0 <= i < |headers| && headers[i].hasDie ==> headers[i].offset + headers[i].size < headers[i].next)
    && (forall i :: 0 <= i < |headers| - 1 ==> headers[i + 1].offset == headers[i].next)
  }

  function Registered(headers: seq<Header>): seq<AltPu> {
    if headers == [] then []
    else
      var h := headers[|headers| - 1];
      Registered(headers[..|headers| - 1]) + (if h.hasDie then [AltPu(h.offset + h.size, h.next, false)] else [])
  }

  lemma {:induction false} RegisteredSorted(headers: seq<Header>)
    requires Contiguous(headers)
    ensures Sorted(Registered(headers))
    ensures forall pu :: pu in Registered(headers) ==> pu.end <= headers[|headers| - 1].next
    ensures forall pu :: pu in Registered(headers) ==> !pu.hit
  {
    if headers != [] {
      var front := headers[..|headers| - 1];
      assert Contiguous(front) by {
        assert forall i :: 0 <= i < |front| ==> front[i] == headers[i];
      }
      RegisteredSorted(front);
    }
  }

  /** The units registered are those of the headers with a DIE: from that DIE up to the next header. */
  lemma {:induction false} RegisteredExactly(headers: seq<Header>, pu: AltPu)
    ensures pu in Registered(headers) <==>
              !pu.hit && exists h :: h in headers && h.hasDie && pu.start == h.offset + h.size && pu.end == h.next
  {
    if headers != [] {
      var front, h := headers[..|headers| - 1], headers[|headers| - 1];
      assert headers == front + [h];
      RegisteredExactly(front, pu);
    }
  }

  class AltPus {
    var pus: array<AltPu>
    var nr: nat
    ghost var marked: set<nat>

    ghost predicate Valid()
      reads this, pus
    {
      nr <= pus.Length && Sorted(pus[..nr]) && HitExactly(pus[..nr], marked)
    }

    constructor ()
      ensures Valid() && fresh(pus) && nr == 0 && marked == {}
    {
      pus := new AltPu[0];
      nr := 0;
      marked := {};
    }

    /** dwarf_cu__find_alt_pu; `nr` stands for not found. */
    method Find(offset: nat) returns (at: nat)
      requires nr <= pus.Length && Sorted(pus[..nr])
      ensures at <= nr
      ensures at < nr ==> InRange(pus[at], offset)
      ensures at == nr ==> !InUnit(pus[..nr], offset)
    {
      var lo, hi := 0, nr;
      while lo < hi
        invariant 0 <= lo <= hi <= nr
        invariant forall i :: 0 <= i < lo ==> pus[..nr][i].end <= offset
        invariant forall i :: hi <= i < nr ==> offset < pus[..nr][i].start
      {
        var mid := lo + (hi - lo) / 2;
        assert pus[..nr][mid] == pus[mid];
        if offset < pus[mid].start {
          hi := mid;
        } else if offset >= pus[mid].end {
          lo := mid + 1;
        } else {
          return mid;
        }
      }
      at := nr;
    }

    /** dwarf_cu__alt_pu_is_hit */
    method IsHit(offset: nat) returns (hit: bool)
      requires nr <= pus.Length && Sorted(pus[..nr])
      ensures hit <==> Live(pus[..nr], offset)
    {
      var at := Find(offset);
      if at < nr {
        assert pus[..nr][at] == pus[at];
        if i :| 0 <= i < nr && InRange(pus[..nr][i], offset) && pus[..nr][i].hit {
          OnlyOne(pus[..nr], i, at, offset);
        }
        return pus[at].hit;
      }
      hit := false;
    }

    /** dwarf_cu__mark_alt_pu_hit: offsets outside every unit are ignored. */
    method MarkHit(offset: nat)
      requires Valid()
      modifies pus, `marked
      ensures Valid() && marked == old(marked) + {offset}
      ensures SameRanges(old(pus[..nr]), pus[..nr])
    {
      var at := Find(offset);
      ghost var was, before := pus[..nr], marked;
      marked := marked + {offset};
      if at < nr {
        pus[at] := pus[at].(hit := true);
        assert pus[..nr] == was[at := was[at].(hit := true)];
        MarkedAt(was, at, before, offset);
      } else {
        MarkedNowhere(was, before, offset);
      }
    }

    static lemma MarkedAt(was: seq<AltPu>, at: nat, marked: set<nat>, offset: nat)
      requires Sorted(was) && HitExactly(was, marked) && at < |was| && InRange(was[at], offset)
      ensures var now := was[at := was[at].(hit := true)];
              Sorted(now) && HitExactly(now, marked + {offset})
    {
      var now := was[at := was[at].(hit := true)];
      forall i | 0 <= i < |now|
        ensures now[i].hit <==> exists m :: m in marked + {offset} && InRange(now[i], m)
      {
        if i == at {
          assert offset in marked + {offset} && InRange(now[i], offset);
        } else {
          assert !InRange(now[i], offset);
          if m :| m in marked && InRange(was[i], m) {
            assert m in marked + {offset} && InRange(now[i], m);
          }
        }
      }
    }

    static lemma MarkedNowhere(was: seq<AltPu>, marked: set<nat>, offset: nat)
      requires HitExactly(was, marked) && !InUnit(was, offset)
      ensures HitExactly(was, marked + {offset})
    {
      forall i | 0 <= i < |was| ensures was[i].hit <==> exists m :: m in marked + {offset} && InRange(was[i], m) {
        assert !InRange(was[i], offset);
        if m :| m in marked && InRange(was[i], m) {
          assert m in marked + {offset};
        }
      }
    }

    /** dwarf_cu__add_alt_pu: append, doubling the array when it is full. */
    method Add(start: nat, end: nat)
      requires nr <= pus.Length
      modifies this, pus
      ensures nr <= pus.Length && pus[..nr] == old(pus[..nr]) + [AltPu(start, end, false)]
      ensures marked == old(marked) && (pus == old(pus) || fresh(pus))
    {
      if nr == pus.Length {
        var grown := new AltPu[if pus.Length > 0 then pus.Length * 2 else 16](_ => AltPu(0, 0, false));
        for i := 0 to nr
          invariant unchanged(this) && unchanged(pus) && nr <= grown.Length
          invariant forall k :: 0 <= k < i ==> grown[k] == pus[k]
        {
          grown[i] := pus[i];
        }
        pus := grown;
      }
      pus[nr] := AltPu(start, end, false);
      nr := nr + 1;
    }

    /** The first pass over the alternate file. No unit is ever met twice. */
    method Register(headers: seq<Header>)
      requires Contiguous(headers) && nr == 0 && marked == {} && nr <= pus.Length
      modifies this, pus
      ensures Valid() && pus[..nr] == Registered(headers) && marked == {} && (pus == old(pus) || fresh(pus))
      ensures forall pu :: pu in pus[..nr] <==>
                !pu.hit && exists h :: h in headers && h.hasDie && pu.start == h.offset + h.size && pu.end == h.next
    {
      hide HitExactly;
      for i := 0 to |headers|
        invariant nr <= pus.Length && pus[..nr] == Registered(headers[..i]) && marked == {}
        invariant pus == old(pus) || fresh(pus)
      {
        var h := headers[i];
        assert headers[..i + 1][..i] == headers[..i];
        RegisteredBelow(headers, i);
        if h.hasDie {
          var at := Find(h.offset + h.size);
          if !(at < nr && pus[at].start == h.offset + h.size) {
            Add(h.offset + h.size, h.next);
          }
        }
      }
      assert headers[..|headers|] == headers;
      RegisteredSorted(headers);
      NoneHitYet(headers);
      forall pu ensures pu in pus[..nr] <==>
                  !pu.hit && exists h :: h in headers && h.hasDie && pu.start == h.offset + h.size && pu.end == h.next
      {
        RegisteredExactly(headers, pu);
      }
    }

    static lemma NoneHitYet(headers: seq<Header>)
      requires Contiguous(headers)
      ensures HitExactly(Registered(headers), {})
    {
      RegisteredSorted(headers);
      forall i | 0 <= i < |Registered(headers)| ensures !Registered(headers)[i].hit {
        assert Registered(headers)[i] in Registered(headers);
      }
    }

    static lemma RegisteredBelow(headers: seq<Header>, i: nat)
      requires Contiguous(headers) && i < |headers|
      ensures Sorted(Registered(headers[..i]))
      ensures forall pu :: pu in Registered(headers[..i]) ==> pu.end <= headers[i].offset
    {
      var front := headers[..i];
      assert Contiguous(front) by {
        assert forall k :: 0 <= k < |front| ==> front[k] == headers[k];
      }
      RegisteredSorted(front);
      if i > 0 {
        assert front[i - 1] == headers[i - 1];
        assert headers[i - 1 + 1].offset == headers[i - 1].next;
      }
    }
  }
}
