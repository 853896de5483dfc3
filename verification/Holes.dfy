/** class__find_holes: which bits of a struct no member uses. */
module Holes {
  import Bitfields

  datatype Member = Member(
    inheritance: bool, isVirtual: bool, isStatic: bool,
    byteOffset: nat, byteSize: nat, bitOffset: nat, bitSize: nat, bitfieldSize: nat,
    hole: int, bitHole: int)

  /** Virtual and empty base classes and static members take no part. */
  predicate Skipped(m: Member) {
    (m.inheritance && (m.isVirtual || m.byteSize == 0)) || m.isStatic
  }

  function MemberBits(m: Member): nat {
    if m.bitfieldSize != 0 then m.bitfieldSize else m.byteSize * 8
  }

  function End(m: Member): nat {
    m.bitOffset + MemberBits(m)
  }

  /** The running variables of the scan. */
  datatype Scan = Scan(lastSeen: int, unitEnd: int, unitSize: int, inBitfield: bool)

  /** Bits and bytes found unused in front of a member. */
  datatype Gap = Gap(bits: int, bytes: int)

  function Min(a: int, b: int): int { if a < b then a else b }

  /** C division of a non-negative bit position. */
  function Byte(bit: int): int { bit / 8 }

  function GapBefore(s: Scan, m: Member): Gap {
    var tail := if s.inBitfield then Min(m.bitOffset, s.unitEnd) - s.lastSeen else 0;
    var seen := if s.inBitfield then Min(m.bitOffset, s.unitEnd) else s.lastSeen;
    if m.bitfieldSize != 0 then
      var unit := m.byteOffset * 8;
      if seen < unit <= m.bitOffset then Gap(tail + m.bitOffset - unit, m.byteOffset - Byte(seen))
      else Gap(tail + m.bitOffset - seen, 0)
    else Gap(tail, Byte(m.bitOffset) - Byte(seen))
  }

  function Advance(s: Scan, m: Member): Scan {
    if m.bitfieldSize != 0 then
      if End(m) > s.unitEnd || m.bitSize > s.unitSize then
        var unitEnd := m.byteOffset * 8 + m.bitSize;
        Scan(End(m), if End(m) > unitEnd then unitEnd + m.bitSize else unitEnd, m.bitSize, true)
      else Scan(End(m), s.unitEnd, s.unitSize, true)
    else Scan(End(m), End(m), 0, false)
  }

  /** The scan state after the members of `ms`, and the gap in front of each that takes part. */
  function Run(s: Scan, ms: seq<Member>): Scan
    decreases |ms|
  {
    if ms == [] then s
    else if Skipped(ms[|ms| - 1]) then Run(s, ms[..|ms| - 1])
    else Advance(Run(s, ms[..|ms| - 1]), ms[|ms| - 1])
  }

  // ----- well laid out structs -----

  /** A plain member is byte aligned; a bitfield is normalised and no wider than its type. */
  predicate Shaped(m: Member) {
    if m.bitfieldSize == 0 then m.bitOffset % 8 == 0
    else
      && m.bitSize == 8 * m.byteSize && m.bitfieldSize <= m.bitSize
      && m.byteOffset * 8 <= m.bitOffset < m.byteOffset * 8 + m.bitSize
  }

  /** A bitfield the loaders have put in its normal place is shaped. */
  lemma NormalisedIsShaped(m: Member)
    requires m.byteSize > 0 && 0 < m.bitfieldSize <= m.bitSize == 8 * m.byteSize
    requires exists offset :: Bitfields.Normalised(Bitfields.Place(m.byteOffset, offset, m.bitOffset), m.byteSize)
    ensures Shaped(m)
  {
    var offset :| Bitfields.Normalised(Bitfields.Place(m.byteOffset, offset, m.bitOffset), m.byteSize);
  }

  /** Members that take part are shaped, in order and disjoint, and end inside `size` bytes. */
  ghost predicate WellLaid(ms: seq<Member>, size: nat) {
    && (forall k :: 0 <= k < |ms| && !Skipped(ms[k]) ==> Shaped(ms[k]) && End(ms[k]) <= size * 8)
    && (forall j, k :: 0 <= j < k < |ms| && !Skipped(ms[j]) && !Skipped(ms[k]) ==> End(ms[j]) <= ms[k].bitOffset)
  }

  /** Position of the last member of `ms` that takes part, or -1. */
  function LastActive(ms: seq<Member>): (k: int)
    ensures -1 <= k < |ms|
    ensures k >= 0 ==> !Skipped(ms[k])
    ensures forall j :: k < j < |ms| ==> Skipped(ms[j])
  {
    if ms == [] then -1
    else if !Skipped(ms[|ms| - 1]) then |ms| - 1
    else LastActive(ms[..|ms| - 1])
  }

  function Start(size: nat): Scan { Scan(0, size * 8, 0, false) }

  /** What every prefix of a well laid struct leaves behind. */
  ghost predicate Tidy(s: Scan, ms: seq<Member>) {
    && s.lastSeen == (if LastActive(ms) < 0 then 0 else End(ms[LastActive(ms)]))
    && s.lastSeen >= 0
    && (s.inBitfield ==> s.lastSeen <= s.unitEnd && s.unitEnd % 8 == 0)
    && (!s.inBitfield ==> s.lastSeen % 8 == 0 && (s.unitSize == 0))
    && (s.inBitfield ==> s.unitSize > 0)
  }

  /** One member: the gap found is the whole distance to it, split into whole bytes and bits. */
  lemma GapIsExact(s: Scan, m: Member)
    requires Shaped(m) && 0 <= s.lastSeen <= m.bitOffset
    requires s.inBitfield ==> s.lastSeen <= s.unitEnd && s.unitEnd % 8 == 0
    requires !s.inBitfield ==> s.lastSeen % 8 == 0
    ensures var g := GapBefore(s, m);
            && g.bits >= 0 && g.bytes >= 0
            && s.lastSeen + g.bits + 8 * g.bytes == m.bitOffset
            && (m.bitfieldSize == 0 && !s.inBitfield ==> g.bits == 0)
            && (m.bitfieldSize == 0 && s.inBitfield ==> s.lastSeen + g.bits == Min(m.bitOffset, s.unitEnd))
            && (m.bitfieldSize != 0 && g.bytes > 0 ==> m.bitOffset - 8 * m.byteOffset <= g.bits)
  {
  }

  lemma AdvanceTidy(s: Scan, m: Member)
    requires Shaped(m) && !Skipped(m)
    requires s.inBitfield ==> s.lastSeen <= s.unitEnd && s.unitEnd % 8 == 0 && s.unitSize > 0
    requires !s.inBitfield ==> s.unitSize == 0
    ensures var t := Advance(s, m);
            && t.lastSeen == End(m)
            && (t.inBitfield ==> t.lastSeen <= t.unitEnd && t.unitEnd % 8 == 0 && t.unitSize > 0)
            && (!t.inBitfield ==> t.lastSeen % 8 == 0 && t.unitSize == 0)
  {
  }

  lemma {:induction false} RunTidy(ms: seq<Member>, size: nat)
    requires WellLaid(ms, size)
    ensures Tidy(Run(Start(size), ms), ms)
  {
    hide Advance, Shaped, MemberBits;
    if ms != [] {
      var front, m := ms[..|ms| - 1], ms[|ms| - 1];
      assert WellLaid(front, size) by {
        assert forall k :: 0 <= k < |front| ==> front[k] == ms[k];
      }
      RunTidy(front, size);
      if !Skipped(m) {
        AdvanceTidy(Run(Start(size), front), m);
      }
    }
  }

  /** Bits of all members that take part, and all gaps in front of them. */
  function UsedBits(ms: seq<Member>): nat {
    if ms == [] then 0
    else UsedBits(ms[..|ms| - 1]) + (if Skipped(ms[|ms| - 1]) then 0 else MemberBits(ms[|ms| - 1]))
  }

  function GapBits(s: Scan, ms: seq<Member>): int
    decreases |ms|
  {
    if ms == [] then 0
    else
      var front, m := ms[..|ms| - 1], ms[|ms| - 1];
      GapBits(s, front) + (if Skipped(m) then 0 else GapBefore(Run(s, front), m).bits + 8 * GapBefore(Run(s, front), m).bytes)
  }

  /** Up to the last member seen, members and gaps account for every bit. */
  lemma {:induction false} PrefixConserved(ms: seq<Member>, size: nat)
    requires WellLaid(ms, size)
    ensures UsedBits(ms) + GapBits(Start(size), ms) == Run(Start(size), ms).lastSeen
  {
    if ms != [] {
      var front, m := ms[..|ms| - 1], ms[|ms| - 1];
      assert forall k :: 0 <= k < |front| ==> front[k] == ms[k];
      PrefixConserved(front, size);
      RunTidy(front, size);
      if !Skipped(m) {
        var k := LastActive(front);
        assert k >= 0 ==> End(ms[k]) <= m.bitOffset;
        GapIsExact(Run(Start(size), front), m);
      }
    }
  }

  function Padding(s: Scan, size: nat): Gap {
    if s.inBitfield then
      var unitEnd := Min(size * 8, s.unitEnd);
      Gap(unitEnd - s.lastSeen, size - Byte(unitEnd))
    else Gap(0, size - Byte(s.lastSeen))
  }

  /** Every bit of the struct is a member's, a hole's or padding. */
  lemma BitsConserved(ms: seq<Member>, size: nat)
    requires WellLaid(ms, size)
    ensures var p := Padding(Run(Start(size), ms), size);
            && p.bits >= 0 && p.bytes >= 0
            && UsedBits(ms) + GapBits(Start(size), ms) + p.bits + 8 * p.bytes == 8 * size
  {
    hide GapBits, UsedBits, Padding, Advance, GapBefore, Shaped;
    PrefixConserved(ms, size);
    RunTidy(ms, size);
    PaddingIsRest(Run(Start(size), ms), size);
  }

  /** The padding is what lies behind the last member seen. */
  lemma PaddingIsRest(s: Scan, size: nat)
    requires 0 <= s.lastSeen <= 8 * size
    requires s.inBitfield ==> s.lastSeen <= s.unitEnd && s.unitEnd % 8 == 0
    requires !s.inBitfield ==> s.lastSeen % 8 == 0
    ensures var p := Padding(s, size); p.bits >= 0 && p.bytes >= 0 && s.lastSeen + p.bits + 8 * p.bytes == 8 * size
  {
  }

  // ----- the scan in place -----

  /** The hole recorded behind a member that takes part. */
  function OwnHole(m: Member): int {
    if Skipped(m) then 0 else m.bitHole + 8 * m.hole
  }

  function HoleBits(ms: seq<Member>): int {
    if ms == [] then 0 else HoleBits(ms[..|ms| - 1]) + OwnHole(ms[|ms| - 1])
  }

  lemma {:induction false} HoleBitsUpdate(ms: seq<Member>, k: nat, m: Member)
    requires k < |ms|
    ensures HoleBits(ms[k := m]) == HoleBits(ms) - OwnHole(ms[k]) + OwnHole(m)
  {
    var front := ms[..|ms| - 1];
    if k < |ms| - 1 {
      HoleBitsUpdate(front, k, m);
      assert ms[k := m][..|ms| - 1] == front[k := m];
    } else {
      assert ms[k := m][..|ms| - 1] == front;
    }
  }

  lemma HoleBitsAppend(ms: seq<Member>, m: Member)
    ensures HoleBits(ms + [m]) == HoleBits(ms) + OwnHole(m)
  {
    assert (ms + [m])[..|ms|] == ms;
  }

  /** Gaps with whole bytes, and gaps with single bits. */
  function CountGaps(s: Scan, ms: seq<Member>, bytes: bool): nat
    decreases |ms|
  {
    if ms == [] then 0
    else
      var front, m := ms[..|ms| - 1], ms[|ms| - 1];
      var g := GapBefore(Run(s, front), m);
      CountGaps(s, front, bytes) +
      (if Skipped(m) || (if bytes then g.bytes <= 0 else g.bits == 0) then 0 else 1)
  }

  /** Two members alike in everything the scan reads. */
  predicate SameField(a: Member, b: Member) {
    b == a.(hole := b.hole, bitHole := b.bitHole)
  }

  /** The gap recorded behind member `k`, after the first `n` members. */
  ghost predicate Recorded(s: Scan, ms: seq<Member>, now: seq<Member>, pre: Gap, n: nat)
    requires |now| == |ms| && n <= |ms|
  {
    && (forall k :: 0 <= k < |ms| ==> SameField(ms[k], now[k]))
    && (forall k :: 0 <= k < |ms| && (Skipped(ms[k]) || k >= n) ==> now[k] == ms[k])
    && (forall k :: 0 <= k < n && !Skipped(ms[k]) ==>
          var g := GapBefore(Run(s, ms[..k]), ms[k]);
          var p := LastActive(ms[..k]);
          if p < 0 then pre == g else Gap(now[p].bitHole, now[p].hole) == g)
    && var last := LastActive(ms[..n]);
       last >= 0 ==> Gap(now[last].bitHole, now[last].hole) == Gap(0, 0)
  }

  /** The member array after one turn: the new member's holes cleared, the gap noted behind the last one. */
  ghost function Noted(now: seq<Member>, last: int, n: nat, g: Gap): seq<Member>
    requires n < |now| && last < n
  {
    var cleared := now[n := now[n].(hole := 0, bitHole := 0)];
    if last < 0 then cleared else cleared[last := cleared[last].(hole := g.bytes, bitHole := g.bits)]
  }

  lemma PrefixStep(s: Scan, ms: seq<Member>, n: nat)
    requires n < |ms|
    ensures ms[..n + 1][..n] == ms[..n] && ms[..n + 1][n] == ms[n]
    ensures Run(s, ms[..n + 1]) == if Skipped(ms[n]) then Run(s, ms[..n]) else Advance(Run(s, ms[..n]), ms[n])
    ensures LastActive(ms[..n + 1]) == if Skipped(ms[n]) then LastActive(ms[..n]) else n
    ensures var g := GapBefore(Run(s, ms[..n]), ms[n]);
            && CountGaps(s, ms[..n + 1], true) == CountGaps(s, ms[..n], true) + (if Skipped(ms[n]) || g.bytes <= 0 then 0 else 1)
            && CountGaps(s, ms[..n + 1], false) == CountGaps(s, ms[..n], false) + (if Skipped(ms[n]) || g.bits == 0 then 0 else 1)
  {
    assert ms[..n + 1][..n] == ms[..n];
  }

  lemma RecordedStart(s: Scan, ms: seq<Member>, pre: Gap)
    ensures Recorded(s, ms, ms, pre, 0)
    ensures ms[..0] == [] && Run(s, []) == s && LastActive([]) == -1 && CountGaps(s, [], true) == CountGaps(s, [], false) == 0
  {
  }

  lemma SameThere(s: Scan, ms: seq<Member>, now: seq<Member>, pre: Gap, n: nat)
    requires |now| == |ms| && n < |ms| && Recorded(s, ms, now, pre, n)
    ensures now[n] == ms[n]
  {
  }

  lemma RecordedSkip(s: Scan, ms: seq<Member>, now: seq<Member>, pre: Gap, n: nat)
    requires |now| == |ms| && n < |ms| && Skipped(ms[n]) && Recorded(s, ms, now, pre, n)
    ensures Recorded(s, ms, now, pre, n + 1)
  {
    hide GapBefore;
    PrefixStep(s, ms, n);
  }

  lemma RecordedNote(s: Scan, ms: seq<Member>, now: seq<Member>, pre: Gap, n: nat)
    requires |now| == |ms| && n < |ms| && !Skipped(ms[n]) && Recorded(s, ms, now, pre, n)
    ensures var last, g := LastActive(ms[..n]), GapBefore(Run(s, ms[..n]), ms[n]);
            Recorded(s, ms, Noted(now, last, n, g), if last < 0 then g else pre, n + 1)
  {
    hide GapBefore, Run;
    PrefixStep(s, ms, n);
    var last, g := LastActive(ms[..n]), GapBefore(Run(s, ms[..n]), ms[n]);
    var now', pre' := Noted(now, last, n, g), if last < 0 then g else pre;
    assert last >= 0 ==> ms[..n][last] == ms[last];
    forall k | 0 <= k < n && !Skipped(ms[k])
      ensures var h, p := GapBefore(Run(s, ms[..k]), ms[k]), LastActive(ms[..k]);
              if p < 0 then pre' == h else Gap(now'[p].bitHole, now'[p].hole) == h
    {
      var p := LastActive(ms[..k]);
      assert k <= last by {
        assert ms[..n][k] == ms[k];
      }
    }
  }

  ghost function PreBits(ms: seq<Member>, pre: Gap): int {
    if LastActive(ms) < 0 then 0 else pre.bits + 8 * pre.bytes
  }

  /** What taking one turn back does to the sum of the holes. */
  lemma UndoneSum(ms: seq<Member>, now: seq<Member>, last: int, n: nat)
    requires |now| == |ms| && n < |now| && -1 <= last < n && now[n].hole == now[n].bitHole == 0
    requires last >= 0 ==> !Skipped(now[last])
    ensures var before := Undone(ms, now, last, n);
            HoleBits(now[..n + 1]) ==
            HoleBits(before[..n]) + (if last < 0 then 0 else now[last].bitHole + 8 * now[last].hole)
  {
    var before := Undone(ms, now, last, n);
    assert now[..n + 1] == now[..n] + [now[n]];
    HoleBitsAppend(now[..n], now[n]);
    if last >= 0 {
      assert before[..n] == now[..n][last := before[last]];
      HoleBitsUpdate(now[..n], last, before[last]);
    } else {
      assert before[..n] == now[..n];
    }
  }

  lemma GapBitsStep(s: Scan, ms: seq<Member>, n: nat)
    requires n < |ms|
    ensures var g := GapBefore(Run(s, ms[..n]), ms[n]);
            GapBits(s, ms[..n + 1]) == GapBits(s, ms[..n]) + (if Skipped(ms[n]) then 0 else g.bits + 8 * g.bytes)
  {
    hide GapBefore, Run;
    assert ms[..n + 1][..n] == ms[..n];
  }

  /** The recorded holes add up to the gaps found. */
  lemma {:induction false} RecordedSum(s: Scan, ms: seq<Member>, now: seq<Member>, pre: Gap, n: nat)
    requires |now| == |ms| && n <= |ms| && Recorded(s, ms, now, pre, n)
    ensures PreBits(ms[..n], pre) + HoleBits(now[..n]) == GapBits(s, ms[..n])
    decreases n, 0
  {
    hide GapBefore, Run, GapBits;
    if n == 0 {
      assert ms[..0] == [] && now[..0] == [];
      NoGaps(s);
    } else if Skipped(ms[n - 1]) {
      RecordedSumSkip(s, ms, now, pre, n - 1);
    } else {
      RecordedSumNote(s, ms, now, pre, n - 1);
    }
  }

  lemma NoGaps(s: Scan)
    ensures GapBits(s, []) == 0
  {
  }

  lemma RecordedUnskip(s: Scan, ms: seq<Member>, now: seq<Member>, pre: Gap, n: nat)
    requires |now| == |ms| && n < |ms| && Skipped(ms[n]) && Recorded(s, ms, now, pre, n + 1)
    ensures Recorded(s, ms, now, pre, n) && Skipped(now[n])
  {
    hide GapBefore, Run;
    PrefixStep(s, ms, n);
  }

  lemma RecordedSumSkip(s: Scan, ms: seq<Member>, now: seq<Member>, pre: Gap, n: nat)
    requires |now| == |ms| && n < |ms| && Skipped(ms[n]) && Recorded(s, ms, now, pre, n + 1)
    ensures PreBits(ms[..n + 1], pre) + HoleBits(now[..n + 1]) == GapBits(s, ms[..n + 1])
    decreases n, 1
  {
    hide GapBefore, Run, GapBits, Recorded, LastActive;
    RecordedUnskip(s, ms, now, pre, n);
    RecordedSum(s, ms, now, pre, n);
    PrefixStep(s, ms, n);
    GapBitsStep(s, ms, n);
    assert now[..n + 1] == now[..n] + [now[n]];
    HoleBitsAppend(now[..n], now[n]);
  }

  lemma RecordedSumNote(s: Scan, ms: seq<Member>, now: seq<Member>, pre: Gap, n: nat)
    requires |now| == |ms| && n < |ms| && !Skipped(ms[n]) && Recorded(s, ms, now, pre, n + 1)
    ensures PreBits(ms[..n + 1], pre) + HoleBits(now[..n + 1]) == GapBits(s, ms[..n + 1])
    decreases n, 1
  {
    hide GapBefore, Run, GapBits, Recorded, LastActive, Undone;
    var last := LastActive(ms[..n]);
    UndoneRecorded(s, ms, now, pre, n);
    RecordedSum(s, ms, Undone(ms, now, last, n), pre, n);
    UndoneSum(ms, now, last, n);
    PrefixStep(s, ms, n);
    GapBitsStep(s, ms, n);
  }

  // ----- the counts are those of the holes recorded -----

  /** Is there a hole of that sort? */
  function One(g: Gap, bytes: bool): nat {
    if (if bytes then g.bytes > 0 else g.bits != 0) then 1 else 0
  }

  function OwnCount(m: Member, bytes: bool): nat {
    if Skipped(m) then 0 else One(Gap(m.bitHole, m.hole), bytes)
  }

  /** Members that take part and have a hole of that sort behind them. */
  function HoleCount(ms: seq<Member>, bytes: bool): nat {
    if ms == [] then 0 else HoleCount(ms[..|ms| - 1], bytes) + OwnCount(ms[|ms| - 1], bytes)
  }

  lemma {:induction false} HoleCountUpdate(ms: seq<Member>, k: nat, m: Member, bytes: bool)
    requires k < |ms|
    ensures HoleCount(ms[k := m], bytes) + OwnCount(ms[k], bytes) == HoleCount(ms, bytes) + OwnCount(m, bytes)
  {
    var front := ms[..|ms| - 1];
    if k < |ms| - 1 {
      HoleCountUpdate(front, k, m, bytes);
      assert ms[k := m][..|ms| - 1] == front[k := m];
    } else {
      assert ms[k := m][..|ms| - 1] == front;
    }
  }

  lemma HoleCountAppend(ms: seq<Member>, m: Member, bytes: bool)
    ensures HoleCount(ms + [m], bytes) == HoleCount(ms, bytes) + OwnCount(m, bytes)
  {
    assert (ms + [m])[..|ms|] == ms;
  }

  /** What taking one turn back does to the count. */
  lemma UndoneCount(ms: seq<Member>, now: seq<Member>, last: int, n: nat, bytes: bool)
    requires |now| == |ms| && n < |now| && -1 <= last < n && now[n].hole == now[n].bitHole == 0
    requires last >= 0 ==> !Skipped(now[last])
    ensures var before := Undone(ms, now, last, n);
            HoleCount(now[..n + 1], bytes) ==
            HoleCount(before[..n], bytes) + if last < 0 then 0 else One(Gap(now[last].bitHole, now[last].hole), bytes)
  {
    var before := Undone(ms, now, last, n);
    assert now[..n + 1] == now[..n] + [now[n]];
    HoleCountAppend(now[..n], now[n], bytes);
    if last >= 0 {
      assert before[..n] == now[..n][last := before[last]];
      HoleCountUpdate(now[..n], last, before[last], bytes);
    } else {
      assert before[..n] == now[..n];
    }
  }

  /** The holes counted are those recorded behind members, and the one in front if a member takes part. */
  lemma {:induction false} RecordedCount(s: Scan, ms: seq<Member>, now: seq<Member>, pre: Gap, n: nat, bytes: bool)
    requires |now| == |ms| && n <= |ms| && Recorded(s, ms, now, pre, n)
    ensures CountGaps(s, ms[..n], bytes) == HoleCount(now[..n], bytes) + if LastActive(ms[..n]) < 0 then 0 else One(pre, bytes)
    decreases n, 0
  {
    hide GapBefore, Run, CountGaps, Recorded, LastActive, Undone;
    if n == 0 {
      assert ms[..0] == [] && now[..0] == [];
      RecordedStart(s, ms, pre);
    } else if Skipped(ms[n - 1]) {
      RecordedUnskip(s, ms, now, pre, n - 1);
      RecordedCount(s, ms, now, pre, n - 1, bytes);
      PrefixStep(s, ms, n - 1);
      assert now[..n] == now[..n - 1] + [now[n - 1]];
      HoleCountAppend(now[..n - 1], now[n - 1], bytes);
    } else {
      RecordedCountNote(s, ms, now, pre, n - 1, bytes);
    }
  }

  lemma RecordedCountNote(s: Scan, ms: seq<Member>, now: seq<Member>, pre: Gap, n: nat, bytes: bool)
    requires |now| == |ms| && n < |ms| && !Skipped(ms[n]) && Recorded(s, ms, now, pre, n + 1)
    ensures CountGaps(s, ms[..n + 1], bytes) == HoleCount(now[..n + 1], bytes) + One(pre, bytes)
    ensures LastActive(ms[..n + 1]) >= 0
    decreases n, 1
  {
    hide GapBefore, Run, CountGaps, Recorded, LastActive, Undone, HoleCount;
    var last := LastActive(ms[..n]);
    UndoneRecorded(s, ms, now, pre, n);
    RecordedCount(s, ms, Undone(ms, now, last, n), pre, n, bytes);
    UndoneCount(ms, now, last, n, bytes);
    PrefixStep(s, ms, n);
  }

  // ----- the sums made while printing -----

  function Positive(n: int): nat { if n > 0 then n else 0 }

  /** The bits printed for a member and the hole behind it; a base class is cut short by a negative hole. */
  function Printed(m: Member): int {
    (if m.bitfieldSize != 0 then m.bitfieldSize
     else 8 * (m.byteSize + if m.inheritance && m.hole < 0 then m.hole else 0)) +
    m.bitHole + 8 * Positive(m.hole)
  }

  function AllPrinted(ms: seq<Member>): int {
    if ms == [] then 0 else AllPrinted(ms[..|ms| - 1]) + Printed(ms[|ms| - 1])
  }

  /** What is printed for members that take no part. */
  function SkippedPrinted(ms: seq<Member>): int {
    if ms == [] then 0 else SkippedPrinted(ms[..|ms| - 1]) + (if Skipped(ms[|ms| - 1]) then Printed(ms[|ms| - 1]) else 0)
  }

  /** Nothing is printed twice when every member takes part. */
  lemma {:induction false} NoneSkipped(ms: seq<Member>)
    ensures (forall k :: 0 <= k < |ms| ==> !Skipped(ms[k])) ==> SkippedPrinted(ms) == 0 && (ms != [] ==> LastActive(ms) >= 0)
  {
    if ms != [] {
      NoneSkipped(ms[..|ms| - 1]);
    }
  }

  function PrePrinted(pre: Gap): nat { Positive(pre.bits) + 8 * Positive(pre.bytes) }

  lemma {:induction false} PrintedSum(ms: seq<Member>, now: seq<Member>)
    requires |now| == |ms|
    requires forall k :: 0 <= k < |ms| ==> SameField(ms[k], now[k])
    requires forall k :: 0 <= k < |ms| ==> if Skipped(ms[k]) then now[k] == ms[k] else now[k].hole >= 0
    ensures AllPrinted(now) == UsedBits(ms) + HoleBits(now) + SkippedPrinted(ms)
  {
    if ms != [] {
      PrintedSum(ms[..|ms| - 1], now[..|ms| - 1]);
    }
  }

  lemma {:induction false} GapsNeedMembers(s: Scan, ms: seq<Member>)
    ensures LastActive(ms) < 0 ==> GapBits(s, ms) == 0
  {
    if ms != [] && LastActive(ms) < 0 {
      GapsNeedMembers(s, ms[..|ms| - 1]);
    }
  }

  lemma GapNonNegative(ms: seq<Member>, size: nat, k: nat)
    requires WellLaid(ms, size) && k < |ms| && !Skipped(ms[k])
    ensures var g := GapBefore(Run(Start(size), ms[..k]), ms[k]);
            g.bits >= 0 && g.bytes >= 0
  {
    var front := ms[..k];
    assert forall j :: 0 <= j < k ==> front[j] == ms[j];
    RunTidy(front, size);
    GapIsExact(Run(Start(size), front), ms[k]);
  }

  lemma RecordedNonNegative(ms: seq<Member>, now: seq<Member>, pre: Gap, size: nat)
    requires |now| == |ms| && WellLaid(ms, size) && Recorded(Start(size), ms, now, pre, |ms|)
    ensures forall k :: 0 <= k < |now| && !Skipped(ms[k]) ==> now[k].hole >= 0 && now[k].bitHole >= 0
    ensures LastActive(ms) >= 0 ==> pre.bits >= 0 && pre.bytes >= 0
  {
    hide GapBefore, Run, WellLaid;
    assert ms[..|ms|] == ms;
    forall k | 0 <= k < |now| && !Skipped(ms[k]) ensures now[k].hole >= 0 && now[k].bitHole >= 0 {
      if k != LastActive(ms) {
        var n := NextActive(ms, k);
        GapNonNegative(ms, size, n);
      }
    }
    if LastActive(ms) >= 0 {
      var n := FirstActive(ms);
      GapNonNegative(ms, size, n);
    }
  }

  lemma NextActive(ms: seq<Member>, k: nat) returns (n: nat)
    requires k < |ms| && !Skipped(ms[k]) && k != LastActive(ms)
    ensures k < n < |ms| && !Skipped(ms[n]) && LastActive(ms[..n]) == k
  {
    n := k + 1;
    while Skipped(ms[n])
      invariant k < n < |ms| && n <= LastActive(ms)
      invariant forall j :: k < j < n ==> Skipped(ms[j])
      decreases |ms| - n
    {
      n := n + 1;
    }
    assert ms[..n][k] == ms[k];
    assert forall j :: k < j < n ==> ms[..n][j] == ms[j];
  }

  lemma FirstActive(ms: seq<Member>) returns (n: nat)
    requires LastActive(ms) >= 0
    ensures n < |ms| && !Skipped(ms[n]) && LastActive(ms[..n]) == -1
  {
    n := 0;
    while Skipped(ms[n])
      invariant n <= LastActive(ms)
      invariant forall j :: 0 <= j < n ==> Skipped(ms[j])
      decreases |ms| - n
    {
      n := n + 1;
    }
    assert forall j :: 0 <= j < n ==> ms[..n][j] == ms[j];
  }

  /** The array one turn earlier. */
  ghost function Undone(ms: seq<Member>, now: seq<Member>, last: int, n: nat): (before: seq<Member>)
    requires |now| == |ms| && n < |now| && last < n
    ensures |before| == |now|
  {
    var back := now[n := ms[n]];
    if last < 0 then back else back[last := back[last].(hole := 0, bitHole := 0)]
  }

  lemma UndoneRecorded(s: Scan, ms: seq<Member>, now: seq<Member>, pre: Gap, n: nat)
    requires |now| == |ms| && n < |ms| && !Skipped(ms[n]) && Recorded(s, ms, now, pre, n + 1)
    ensures Recorded(s, ms, Undone(ms, now, LastActive(ms[..n]), n), pre, n)
    ensures var g, last := GapBefore(Run(s, ms[..n]), ms[n]), LastActive(ms[..n]);
            if last < 0 then pre == g else !Skipped(now[last]) && Gap(now[last].bitHole, now[last].hole) == g
    ensures now[n].hole == now[n].bitHole == 0
  {
    hide GapBefore, Run;
    PrefixStep(s, ms, n);
    var last := LastActive(ms[..n]);
    var before := Undone(ms, now, last, n);
    assert last >= 0 ==> ms[..n][last] == ms[last];
    forall k | 0 <= k < n && !Skipped(ms[k])
      ensures var h, p := GapBefore(Run(s, ms[..k]), ms[k]), LastActive(ms[..k]);
              if p < 0 then pre == h else Gap(before[p].bitHole, before[p].hole) == h
    {
      assert k <= last by {
        assert ms[..n][k] == ms[k];
      }
    }
  }

  /**
   What is recorded behind a member is the exact distance to the next one that takes part: neither is static,
   a virtual or an empty base class, and all in between are.
   */
  lemma HoleIsTheGap(ms: seq<Member>, now: seq<Member>, pre: Gap, size: nat, k: nat, n: nat)
    requires |now| == |ms| && WellLaid(ms, size) && Recorded(Start(size), ms, now, pre, |ms|)
    requires k < n < |ms| && !ms[k].isStatic && !ms[n].isStatic
    requires ms[k].inheritance ==> !ms[k].isVirtual && ms[k].byteSize > 0
    requires ms[n].inheritance ==> !ms[n].isVirtual && ms[n].byteSize > 0
    requires forall j :: k < j < n ==> ms[j].isStatic || (ms[j].inheritance && (ms[j].isVirtual || ms[j].byteSize == 0))
    ensures ms[k].bitOffset + (if ms[k].bitfieldSize > 0 then ms[k].bitfieldSize else 8 * ms[k].byteSize)
            + now[k].bitHole + 8 * now[k].hole == ms[n].bitOffset
    ensures now[k].bitHole >= 0 && now[k].hole >= 0
  {
    hide GapBefore, Run;
    assert ms[..n][k] == ms[k] && forall j :: k < j < n ==> ms[..n][j] == ms[j];
    assert WellLaid(ms[..n], size) by {
      assert forall j :: 0 <= j < n ==> ms[..n][j] == ms[j];
    }
    RunTidy(ms[..n], size);
    GapIsExact(Run(Start(size), ms[..n]), ms[n]);
  }

  class Struct {
    const isStruct: bool
    const size: nat
    const members: array<Member>
    var holesSearched: bool
    var nrHoles: nat
    var nrBitHoles: nat
    var preHole: int
    var preBitHole: int
    var padding: int
    var bitPadding: int

    constructor (isStruct: bool, size: nat, members: array<Member>)
      ensures this.isStruct == isStruct && this.size == size && this.members == members
      ensures !holesSearched && preHole == preBitHole == 0
    {
      this.isStruct, this.size, this.members := isStruct, size, members;
      holesSearched := false;
      nrHoles, nrBitHoles, preHole, preBitHole, padding, bitPadding := 0, 0, 0, 0, 0, 0;
    }

    /** The arithmetic of one turn: the gap in front of `m`, and the running variables after it. */
    static method Measure(m: Member, lastSeen0: int, unitEnd0: int, unitSize0: int, inBitfield0: bool)
      returns (bitHoles: int, byteHoles: int, lastSeen: int, unitEnd: int, unitSize: int, inBitfield: bool)
      ensures Gap(bitHoles, byteHoles) == GapBefore(Scan(lastSeen0, unitEnd0, unitSize0, inBitfield0), m)
      ensures Scan(lastSeen, unitEnd, unitSize, inBitfield) == Advance(Scan(lastSeen0, unitEnd0, unitSize0, inBitfield0), m)
    {
      lastSeen, unitEnd, unitSize, inBitfield := lastSeen0, unitEnd0, unitSize0, inBitfield0;
      bitHoles, byteHoles := 0, 0;
      if inBitfield {
        // some trailing bitfield bits may be left
        var bitfieldEnd := Min(m.bitOffset, unitEnd);
        bitHoles := bitfieldEnd - lastSeen;
        lastSeen := bitfieldEnd;
      }
      if m.bitfieldSize != 0 {
        var alignedStart := m.byteOffset * 8;
        if lastSeen < alignedStart && alignedStart <= m.bitOffset {
          byteHoles := m.byteOffset - lastSeen / 8;
          lastSeen := alignedStart;
        }
        bitHoles := bitHoles + m.bitOffset - lastSeen;
      } else {
        byteHoles := m.bitOffset / 8 - lastSeen / 8;
      }
      lastSeen := End(m);
      if m.bitfieldSize != 0 {
        inBitfield := true;
        if lastSeen > unitEnd || m.bitSize > unitSize {
          unitSize := m.bitSize;
          unitEnd := m.byteOffset * 8 + unitSize;
          if lastSeen > unitEnd {
            unitEnd := unitEnd + unitSize;
          }
        }
      } else {
        inBitfield := false;
        unitSize := 0;
        unitEnd := lastSeen;
      }
    }

    /** Clear the new member's holes and note the gap behind the last one, or in front of all. */
    method Note(last: int, pos: nat, bitHoles: int, byteHoles: int)
      requires pos < members.Length && -1 <= last < pos
      modifies members, `preHole, `preBitHole, `nrHoles, `nrBitHoles
      ensures members[..] == Noted(old(members[..]), last, pos, Gap(bitHoles, byteHoles))
      ensures Gap(preBitHole, preHole) == if last < 0 then Gap(bitHoles, byteHoles) else old(Gap(preBitHole, preHole))
      ensures nrHoles == old(nrHoles) + (if byteHoles <= 0 then 0 else 1)
      ensures nrBitHoles == old(nrBitHoles) + (if bitHoles == 0 then 0 else 1)
    {
      members[pos] := members[pos].(hole := 0, bitHole := 0);
      if last >= 0 {
        members[last] := members[last].(hole := byteHoles, bitHole := bitHoles);
      } else {
        preHole, preBitHole := byteHoles, bitHoles;
      }
      if bitHoles != 0 {
        nrBitHoles := nrBitHoles + 1;
      }
      if byteHoles > 0 {
        nrHoles := nrHoles + 1;
      }
    }

    /** The member loop. */
    method ScanMembers() returns (lastSeen: int, unitEnd: int, inBitfield: bool, ghost scan: Scan)
      modifies members, `preHole, `preBitHole, `nrHoles, `nrBitHoles
      ensures var s, ms := Start(size), old(members[..]);
              && scan == Run(s, ms) && lastSeen == scan.lastSeen && unitEnd == scan.unitEnd && inBitfield == scan.inBitfield
              && Recorded(s, ms, members[..], Gap(preBitHole, preHole), |ms|)
              && nrHoles == CountGaps(s, ms, true) && nrBitHoles == CountGaps(s, ms, false)
              && (LastActive(ms) < 0 ==> preHole == old(preHole) && preBitHole == old(preBitHole))
    {
      hide GapBefore, Advance, Recorded, Run, CountGaps, Noted, LastActive;
      ghost var s, ms := Start(size), members[..];
      nrHoles, nrBitHoles := 0, 0;
      RecordedStart(s, ms, Gap(preBitHole, preHole));
      var last := -1;
      var unitSize: int := 0;
      unitEnd, lastSeen, inBitfield := size * 8, 0, false;
      var pos := 0;
      while pos < members.Length
        invariant 0 <= pos <= members.Length && -1 <= last < pos
        invariant last == LastActive(ms[..pos])
        invariant Scan(lastSeen, unitEnd, unitSize, inBitfield) == Run(s, ms[..pos])
        invariant Recorded(s, ms, members[..], Gap(preBitHole, preHole), pos)
        invariant nrHoles == CountGaps(s, ms[..pos], true) && nrBitHoles == CountGaps(s, ms[..pos], false)
        invariant last < 0 ==> preHole == old(preHole) && preBitHole == old(preBitHole)
      {
        PrefixStep(s, ms, pos);
        SameThere(s, ms, members[..], Gap(preBitHole, preHole), pos);
        var m := members[pos];
        if Skipped(m) {
          RecordedSkip(s, ms, members[..], Gap(preBitHole, preHole), pos);
        } else {
          RecordedNote(s, ms, members[..], Gap(preBitHole, preHole), pos);
          var bitHoles, byteHoles;
          bitHoles, byteHoles, lastSeen, unitEnd, unitSize, inBitfield :=
            Measure(m, lastSeen, unitEnd, unitSize, inBitfield);
          Note(last, pos, bitHoles, byteHoles);
          last := pos;
        }
        pos := pos + 1;
      }
      assert ms[..pos] == ms;
      scan := Run(s, ms);
    }

    /**
     class__find_holes. Each member gets the gap to the next one that takes part, the struct
     the gap in front of the first and the rest at the end; members are changed in nothing else.
     */
    method FindHoles()
      modifies this, members
      ensures !isStruct || old(holesSearched) ==> unchanged(this) && members[..] == old(members[..])
      ensures isStruct && !old(holesSearched) ==>
                var s, ms := Start(size), old(members[..]);
                && holesSearched
                && Recorded(s, ms, members[..], Gap(preBitHole, preHole), |ms|)
                && nrHoles == CountGaps(s, ms, true) && nrBitHoles == CountGaps(s, ms, false)
                && Gap(bitPadding, padding) == Padding(Run(s, ms), size)
                && (LastActive(ms) < 0 ==> preHole == old(preHole) && preBitHole == old(preBitHole))
      ensures forall k :: 0 <= k < members.Length ==>
                var was, now := old(members[..])[k], members[k];
                && now == was.(hole := now.hole, bitHole := now.bitHole)
                && (was.isStatic || (was.inheritance && (was.isVirtual || was.byteSize == 0)) ==> now == was)
      ensures isStruct && !old(holesSearched) ==>
                var first := LastActive(old(members[..])) >= 0;
                && nrHoles == HoleCount(members[..], true) + (if first && preHole > 0 then 1 else 0)
                && nrBitHoles == HoleCount(members[..], false) + (if first && preBitHole != 0 then 1 else 0)
    {
      hide GapBefore, Advance, Recorded, Run, CountGaps, LastActive, HoleCount;
      if !isStruct || holesSearched {
        return;
      }
      var lastSeen, unitEnd, inBitfield;
      ghost var scan;
      lastSeen, unitEnd, inBitfield, scan := ScanMembers();
      if inBitfield {
        var bitfieldEnd := Min(size * 8, unitEnd);
        bitPadding := bitfieldEnd - lastSeen;
        lastSeen := bitfieldEnd;
      } else {
        bitPadding := 0;
      }
      padding := size - lastSeen / 8;
      holesSearched := true;
      ghost var ms, now, pre := old(members[..]), members[..], Gap(preBitHole, preHole);
      RecordedFields(Start(size), ms, now, pre);
      assert ms[..|ms|] == ms && now[..|ms|] == now;
      RecordedCount(Start(size), ms, now, pre, |ms|, true);
      RecordedCount(Start(size), ms, now, pre, |ms|, false);
    }

    /** The sums class__fprintf makes while it prints, and the difference it alerts about. */
    method SizeDiff() returns (sizeDiff: int)
      ensures sizeDiff == 8 * size - (AllPrinted(members[..]) + PrePrinted(Gap(preBitHole, preHole)) + 8 * padding + bitPadding)
    {
      var sumBytes: int, sumBits: int, sumHoles: int, sumBitHoles: int := 0, 0, 0, 0;
      if preBitHole > 0 {
        sumBitHoles := sumBitHoles + preBitHole;
      }
      if preHole > 0 {
        sumHoles := sumHoles + preHole;
      }
      for pos := 0 to members.Length
        invariant sumBytes * 8 + sumBits + sumHoles * 8 + sumBitHoles ==
                  AllPrinted(members[..pos]) + PrePrinted(Gap(preBitHole, preHole))
      {
        assert members[..pos + 1][..pos] == members[..pos];
        var m := members[pos];
        var memberSize: int := m.byteSize;
        if m.inheritance && m.hole < 0 {
          memberSize := memberSize + m.hole;
        }
        if m.bitHole != 0 {
          sumBitHoles := sumBitHoles + m.bitHole;
        }
        if m.hole > 0 {
          sumHoles := sumHoles + m.hole;
        }
        if m.bitfieldSize != 0 {
          sumBits := sumBits + m.bitfieldSize;
        } else {
          sumBytes := sumBytes + memberSize;
        }
      }
      assert members[..members.Length] == members[..];
      sizeDiff := size * 8 - (sumBytes * 8 + sumBits + sumHoles * 8 + sumBitHoles + padding * 8 + bitPadding);
    }

    /**
     The search and then the printed sums. On a well laid struct the members that take part, their holes and the
     padding cancel out, so what is left over is exactly what was printed for the members that take no part and,
     when none takes part, for old holes in front. The alert comes when that is not zero.
     */
    method FindHolesAndCheck() returns (sizeDiff: int, alert: bool)
      requires isStruct && !holesSearched && WellLaid(members[..], size)
      modifies this, members
      ensures var ms, pre := old(members[..]), old(Gap(preBitHole, preHole));
              var left := SkippedPrinted(ms) + (if LastActive(ms) < 0 then PrePrinted(pre) else 0);
              sizeDiff == -left && (alert <==> left != 0 && exists k :: 0 <= k < |ms| && !ms[k].isStatic)
      ensures var ms := old(members[..]);
              ms != [] && (forall k :: 0 <= k < |ms| ==> !ms[k].isStatic && !(ms[k].inheritance && (ms[k].isVirtual || ms[k].byteSize == 0)))
              ==> sizeDiff == 0 && !alert
    {
      hide GapBefore, Advance, Run, Recorded, Padding, WellLaid, LastActive, AllPrinted, SkippedPrinted, HoleBits, UsedBits, GapBits;
      ghost var s, ms := Start(size), members[..];
      FindHoles();
      ghost var now, pre := members[..], Gap(preBitHole, preHole);
      BitsConserved(ms, size);
      assert ms[..|ms|] == ms && now[..|ms|] == now;
      RecordedSum(s, ms, now, pre, |ms|);
      RecordedNonNegative(ms, now, pre, size);
      RecordedFields(s, ms, now, pre);
      PrintedSum(ms, now);
      GapsNeedMembers(s, ms);
      NoneSkipped(ms);
      sizeDiff := SizeDiff();
      var nrMembers := CountMembers();
      alert := sizeDiff != 0 && nrMembers != 0;
    }

    /** nr_members: static members are counted apart. */
    method CountMembers() returns (nr: nat)
      ensures nr != 0 <==> exists k :: 0 <= k < members.Length && !members[k].isStatic
    {
      nr := 0;
      for pos := 0 to members.Length
        invariant nr != 0 <==> exists k :: 0 <= k < pos && !members[k].isStatic
      {
        if !members[pos].isStatic {
          nr := nr + 1;
        }
      }
    }
  }

  lemma RecordedFields(s: Scan, ms: seq<Member>, now: seq<Member>, pre: Gap)
    requires |now| == |ms| && Recorded(s, ms, now, pre, |ms|)
    ensures forall k :: 0 <= k < |ms| ==> SameField(ms[k], now[k]) && (Skipped(ms[k]) ==> now[k] == ms[k])
  {
  }

  lemma ThreeMembers(ms: seq<Member>, base: Member, vptr: Member, own: Member)
    requires ms == [base, vptr, own] && Skipped(base) && !Skipped(vptr) && !Skipped(own)
    ensures LastActive(ms) == 2 && SkippedPrinted(ms) == Printed(base)
  {
    assert ms[..2] == [base, vptr] && [base, vptr][..1] == [base];
    assert SkippedPrinted([base]) == SkippedPrinted([]) + Printed(base);
    assert SkippedPrinted([base, vptr]) == Printed(base);
  }

  /** A virtual base class is counted twice, as itself and as padding: it sets the alert off on a sound struct. */
  method VirtualBaseAlerts() returns (sizeDiff: int, alert: bool)
    ensures sizeDiff == -32 && alert
  {
    var base := Member(true, true, false, 0, 4, 0, 32, 0, 0, 0);
    var vptr, own := Member(false, false, false, 0, 8, 0, 64, 0, 0, 0), Member(false, false, false, 8, 4, 64, 32, 0, 0, 0);
    var members := new Member[][base, vptr, own];
    var s := new Struct(true, 16, members);
    ThreeMembers(members[..], base, vptr, own);
    assert !members[0].isStatic;
    sizeDiff, alert := s.FindHolesAndCheck();
  }
}
