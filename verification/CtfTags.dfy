/** The tags of a CU as the CTF encoder meets them, and the bytes it leaves for each. */
module CtfTags {
  import opened CtfBytes
  import opened CtfRecords

  /** What a struct's list of tags holds, as far as the encoder cares. */
  datatype Child = Data(isStatic: bool, member: Member) | BaseClass | OtherChild

  datatype EnumChild = Enumerator(value: Value) | NoEnumerator

  /** A tag to be encoded: the kinds with a list of their own, the record of any other, or none at all. */
  datatype TypeTag =
    | StructTag(isUnion: bool, name: nat, size: nat, children: seq<Child>)
    | EnumTag(name: nat, bits: nat, entries: seq<EnumChild>)
    | PlainTag(record: Record)
    | NoForm // a tag the encoder has no case for

  /** What the encoder's loop over data members meets: static members too, base classes not. */
  function DataMembers(cs: seq<Child>): seq<Member> {
    if cs == [] then []
    else
      var c, front := cs[|cs| - 1], DataMembers(cs[..|cs| - 1]);
      if c.Data? then front + [c.member] else front
  }

  /** nr_members: base classes counted, static members not. */
  function NrMembers(cs: seq<Child>): nat {
    if cs == [] then 0
    else
      var c := cs[|cs| - 1];
      NrMembers(cs[..|cs| - 1]) + if (c.Data? && !c.isStatic) || c.BaseClass? then 1 else 0
  }

  function Enumerators(es: seq<EnumChild>): seq<Value> {
    if es == [] then []
    else
      var e, front := es[|es| - 1], Enumerators(es[..|es| - 1]);
      if e.Enumerator? then front + [e.value] else front
  }

  lemma {:induction false} DataGrow(cs: seq<Child>, k: nat)
    requires k <= |cs|
    ensures |DataMembers(cs[..k])| <= |DataMembers(cs)|
  {
    if k < |cs| {
      DataGrow(cs[..|cs| - 1], k);
      assert cs[..|cs| - 1][..k] == cs[..k];
    } else {
      assert cs[..k] == cs;
    }
  }

  lemma {:induction false} EnumeratorsGrow(es: seq<EnumChild>, k: nat)
    requires k <= |es|
    ensures |Enumerators(es[..k])| <= |Enumerators(es)|
  {
    if k < |es| {
      EnumeratorsGrow(es[..|es| - 1], k);
      assert es[..|es| - 1][..k] == es[..k];
    } else {
      assert es[..k] == es;
    }
  }

  /** The members to be written do not outnumber those room is made for. */
  predicate HasRoom(t: TypeTag) {
    t.StructTag? ==> |DataMembers(t.children)| <= NrMembers(t.children)
  }

  /** Without base classes and static members there is exactly the room needed. */
  lemma {:induction false} PlainStructExact(cs: seq<Child>)
    requires forall c :: c in cs ==> !c.BaseClass? && (c.Data? ==> !c.isStatic)
    ensures |DataMembers(cs)| == NrMembers(cs)
  {
    if cs != [] {
      PlainStructExact(cs[..|cs| - 1]);
      assert cs[|cs| - 1] in cs;
    }
  }

  /** Nothing but data members, or nothing but enumerators: all are written, in order. */
  lemma {:induction false} AllChildrenWritten(cs: seq<Child>, es: seq<EnumChild>)
    ensures (forall c :: c in cs ==> c.Data?) ==>
              |DataMembers(cs)| == |cs| && forall k :: 0 <= k < |cs| ==> DataMembers(cs)[k] == cs[k].member
    ensures (forall e :: e in es ==> e.Enumerator?) ==>
              |Enumerators(es)| == |es| && forall k :: 0 <= k < |es| ==> Enumerators(es)[k] == es[k].value
    decreases |cs| + |es|
  {
    if cs != [] {
      AllChildrenWritten(cs[..|cs| - 1], []);
    }
    if es != [] {
      AllChildrenWritten([], es[..|es| - 1]);
    }
  }

  /** The record a tag becomes: of a struct's data members, those there is room for. */
  function AsRecord(t: TypeTag): Record
    requires !t.NoForm?
  {
    match t
    case StructTag(isUnion, name, size, cs) =>
      var ms, nr := DataMembers(cs), NrMembers(cs);
      if |ms| <= nr then Composite(isUnion, name, size, ms, nr - |ms|) else Composite(isUnion, name, size, ms[..nr], 0)
    case EnumTag(name, bits, es) => Enum(name, bits, Enumerators(es))
    case PlainTag(r) => r
  }

  /** A struct keeps all its members exactly when there is room for them. */
  lemma KeepsMembers(t: TypeTag)
    requires t.StructTag?
    ensures AsRecord(t).members == DataMembers(t.children) <==> HasRoom(t)
  {
  }

  /** Counts are 16-bit fields of the tags being encoded. */
  predicate Countable(t: TypeTag) {
    match t
    case StructTag(_, _, _, cs) => NrMembers(cs) < U16
    case EnumTag(_, _, es) => |Enumerators(es)| < U16
    case PlainTag(Func(_, params, varargs)) => |Args(params, varargs)| < U16
    case PlainTag(r) => !r.Composite? && !r.Enum?
    case NoForm => true
  }

  /** Records whose variable part is written in a loop of its own, once the id has been checked. */
  predicate HasLoop(t: TypeTag) {
    t.StructTag? || t.EnumTag? || (t.PlainTag? && t.record.Func?)
  }

  function Room(t: TypeTag): nat
    requires HasLoop(t)
  {
    match t
    case StructTag(_, _, size, cs) => MemberWidth(size) * NrMembers(cs)
    case EnumTag(_, _, es) => 8 * |Enumerators(es)|
    case PlainTag(r) => 2 * |Args(r.params, r.varargs)| + PadLen(r)
  }

  /** Bytes of a tag's part that are left to chance. */
  function PadFor(t: TypeTag, drifted: bool): nat {
    if t.NoForm? then 0 else if drifted && HasLoop(t) then Room(t) else PadLen(AsRecord(t))
  }

  /** What is left for a tag; when the id is not the table index the loops do not start. */
  function Part(o: Order, t: TypeTag, drifted: bool, pad: seq<Byte>): seq<Byte> {
    if t.NoForm? then []
    else if drifted && HasLoop(t) then Head(o, AsRecord(t)) + pad
    else Bytes(o, AsRecord(t), pad)
  }

  predicate AllFormed(ts: seq<TypeTag>) {
    forall t :: t in ts ==> !t.NoForm?
  }

  /** Ids taken. */
  function Ids(ts: seq<TypeTag>): nat {
    if ts == [] then 0 else Ids(ts[..|ts| - 1]) + if ts[|ts| - 1].NoForm? then 0 else 1
  }

  /** Ids keep up with the table exactly as long as every tag has a form. */
  lemma {:induction false} IdsKeepUp(ts: seq<TypeTag>)
    ensures Ids(ts) <= |ts| && (Ids(ts) == |ts| <==> AllFormed(ts))
  {
    if ts != [] {
      var front, t := ts[..|ts| - 1], ts[|ts| - 1];
      IdsKeepUp(front);
      assert ts == front + [t];
    }
  }

  lemma IdsStep(ts: seq<TypeTag>, t: TypeTag)
    ensures Ids(ts + [t]) == Ids(ts) + if t.NoForm? then 0 else 1
  {
    assert (ts + [t])[..|ts|] == ts;
  }

  /** Ids in table order, 0 for none: a tag has its table index exactly when every tag before it has a form. */
  ghost predicate IdsFor(ts: seq<TypeTag>, ids: seq<nat>) {
    |ids| == |ts| && forall k :: 0 <= k < |ts| ==>
      if ts[k].NoForm? then ids[k] == 0 else ids[k] == Ids(ts[..k]) + 1 && (ids[k] == k + 1 <==> AllFormed(ts[..k]))
  }

  /** Everything laid down for a list of tags. */
  function Laid(o: Order, ts: seq<TypeTag>, pads: seq<seq<Byte>>): seq<Byte>
    requires |pads| == |ts|
  {
    if ts == [] then []
    else
      var front, t := ts[..|ts| - 1], ts[|ts| - 1];
      Laid(o, front, pads[..|ts| - 1]) + Part(o, t, !AllFormed(front), pads[|ts| - 1])
  }

  ghost predicate PadsFor(ts: seq<TypeTag>, pads: seq<seq<Byte>>) {
    |pads| == |ts| && forall k :: 0 <= k < |ts| ==> |pads[k]| == PadFor(ts[k], !AllFormed(ts[..k]))
  }

  lemma LaidStep(o: Order, ts: seq<TypeTag>, pads: seq<seq<Byte>>, t: TypeTag, pad: seq<Byte>)
    requires |pads| == |ts|
    ensures Laid(o, ts + [t], pads + [pad]) == Laid(o, ts, pads) + Part(o, t, !AllFormed(ts), pad)
    ensures PadsFor(ts, pads) && |pad| == PadFor(t, !AllFormed(ts)) ==> PadsFor(ts + [t], pads + [pad])
  {
    hide Part, PadFor, AllFormed;
    var ts', pads' := ts + [t], pads + [pad];
    assert ts'[..|ts|] == ts && pads'[..|ts|] == pads;
    if PadsFor(ts, pads) && |pad| == PadFor(t, !AllFormed(ts)) {
      forall k | 0 <= k < |ts'| ensures |pads'[k]| == PadFor(ts'[k], !AllFormed(ts'[..k])) {
        assert k < |ts| ==> ts'[..k] == ts[..k];
      }
    }
  }

  function AsRecords(ts: seq<TypeTag>): seq<Record>
    requires AllFormed(ts)
  {
    seq(|ts|, k requires 0 <= k < |ts| => AsRecord(ts[k]))
  }

  lemma EmptySection(o: Order)
    ensures Section(o, [], []) == []
  {
  }

  lemma PadsFront(ts: seq<TypeTag>, pads: seq<seq<Byte>>)
    requires ts != [] && PadsFor(ts, pads)
    ensures PadsFor(ts[..|ts| - 1], pads[..|ts| - 1])
  {
    hide PadFor, AllFormed;
    assert forall k :: 0 <= k < |ts| - 1 ==> ts[..|ts| - 1][..k] == ts[..k];
  }

  lemma FormedPads(ts: seq<TypeTag>, pads: seq<seq<Byte>>)
    requires AllFormed(ts) && PadsFor(ts, pads)
    ensures Padded(AsRecords(ts), pads)
  {
    hide AsRecord, PadLen, Room;
    forall k | 0 <= k < |ts| ensures |pads[k]| == PadLen(AsRecords(ts)[k]) {
      assert AllFormed(ts[..k]) && ts[k] in ts;
    }
  }

  lemma FormedPart(o: Order, t: TypeTag, pad: seq<Byte>)
    requires !t.NoForm?
    ensures Part(o, t, false, pad) == Bytes(o, AsRecord(t), pad)
  {
  }

  /** When every tag has a form, that is a section of their records. */
  lemma {:induction false} LaidIsSection(o: Order, ts: seq<TypeTag>, pads: seq<seq<Byte>>)
    requires AllFormed(ts) && PadsFor(ts, pads)
    ensures Padded(AsRecords(ts), pads) && Laid(o, ts, pads) == Section(o, AsRecords(ts), pads)
  {
    hide Bytes, AsRecord, PadLen, Part, PadFor, PadsFor, Section;
    if ts == [] {
      assert AsRecords(ts) == [] && Section(o, [], []) == [] by {
        EmptySection(o);
      }
      FormedPads(ts, pads);
    } else {
      var n := |ts| - 1;
      var front, t := ts[..n], ts[n];
      PadsFront(ts, pads);
      FormedPads(ts, pads);
      LaidIsSection(o, front, pads[..n]);
      FormedPart(o, t, pads[n]);
      SectionAppend(o, AsRecords(front), pads[..n], AsRecord(t), pads[n]);
      assert AsRecords(ts) == AsRecords(front) + [AsRecord(t)] && pads == pads[..n] + [pads[n]];
    }
  }

  lemma {:induction false} SectionAppend(o: Order, rs: seq<Record>, pads: seq<seq<Byte>>, r: Record, pad: seq<Byte>)
    requires |pads| == |rs|
    ensures Section(o, rs + [r], pads + [pad]) == Section(o, rs, pads) + Bytes(o, r, pad)
    decreases |rs|
  {
    hide Bytes;
    if rs == [] {
      assert [r][1..] == [] && [pad][1..] == [] && [] + [r] == [r] && [] + [pad] == [pad];
    } else {
      assert (rs + [r])[1..] == rs[1..] + [r] && (pads + [pad])[1..] == pads[1..] + [pad];
      SectionAppend(o, rs[1..], pads[1..], r, pad);
    }
  }

  // ----- variable parts -----

  lemma RoomFor(width: nat, k: nat, n: nat)
    requires k < n
    ensures width * (k + 1) == width * k + width <= width * n
  {
    assert width * (k + 1) == width * k + width;
    assert width * n == width * (k + 1) + width * (n - k - 1);
  }

  /** The first elements are laid down first. */
  lemma {:induction false} FlatPrefix<T>(xs: seq<T>, f: T -> seq<Byte>, width: nat, n: nat)
    requires n <= |xs| && forall x :: |f(x)| == width
    ensures |Flat(xs, f)| == width * |xs| && width * n <= width * |xs| && Flat(xs, f)[..width * n] == Flat(xs[..n], f)
  {
    if xs != [] {
      var front, k := xs[..|xs| - 1], |xs| - 1;
      RoomFor(width, k, |xs|);
      if n == |xs| {
        FlatPrefix(front, f, width, k);
        assert xs[..n] == xs;
        assert Flat(xs, f)[..width * n] == Flat(xs, f);
      } else {
        FlatPrefix(front, f, width, n);
        assert front[..n] == xs[..n];
      }
    } else {
      assert width * 0 == 0;
    }
  }

  lemma FlatStep<T>(xs: seq<T>, k: nat, f: T -> seq<Byte>, start: seq<Byte>)
    requires k < |xs|
    ensures start + Flat(xs[..k], f) + f(xs[k]) == start + Flat(xs[..k + 1], f)
  {
    assert xs[..k + 1][..k] == xs[..k];
  }

  function MemberBytes(o: Order, size: nat, m: Member): (b: seq<Byte>)
    ensures |b| == MemberWidth(size)
  {
    if size < SHORT_MEMBER_LIMIT then ShortMember(o, m) else FullMember(o, m)
  }

  lemma MembersStep(o: Order, size: nat, front: seq<Member>, m: Member, start: seq<Byte>)
    ensures start + Members(o, size, front) + MemberBytes(o, size, m) == start + Members(o, size, front + [m])
  {
    hide ShortMember, FullMember;
    assert (front + [m])[..|front|] == front;
  }

  lemma MembersPrefix(o: Order, size: nat, ms: seq<Member>, n: nat)
    requires n <= |ms|
    ensures |Members(o, size, ms)| == MemberWidth(size) * |ms| && MemberWidth(size) * n <= MemberWidth(size) * |ms|
    ensures Members(o, size, ms)[..MemberWidth(size) * n] == Members(o, size, ms[..n])
  {
    hide ShortMember, FullMember, Flat;
    if size < SHORT_MEMBER_LIMIT {
      FlatPrefix(ms, m => ShortMember(o, m), 8, n);
    } else {
      FlatPrefix(ms, m => FullMember(o, m), 16, n);
    }
  }
}
