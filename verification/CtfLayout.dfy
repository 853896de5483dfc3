/** Where the bytes of each CTF record are, offset by offset. */
module CtfLayout {
  import opened CtfBytes
  import opened CtfRecords
  import opened CtfRoundTrip

  /** A 16-bit value at an offset. */
  predicate Half(o: Order, b: seq<Byte>, at: nat, v: nat) {
    && at + 2 <= |b| && v < 0x1_0000
    && if o == Little then b[at] == v % 256 && b[at + 1] == v / 256 else b[at] == v / 256 && b[at + 1] == v % 256
  }

  /** A 32-bit value. */
  predicate Full(o: Order, b: seq<Byte>, at: nat, v: nat) {
    && at + 4 <= |b| && v < 0x1_0000_0000
    && if o == Little
       then b[at] == v % 256 && b[at + 1] == v / 0x100 % 256 && b[at + 2] == v / 0x1_0000 % 256 && b[at + 3] == v / 0x100_0000
       else b[at] == v / 0x100_0000 && b[at + 1] == v / 0x1_0000 % 256 && b[at + 2] == v / 0x100 % 256 && b[at + 3] == v % 256
  }

  /** Name; kind and length in one word; size or type. */
  predicate HeaderAt(o: Order, b: seq<Byte>, name: nat, kind: nat, vlen: nat, last: nat) {
    Full(o, b, 0, name) && Half(o, b, 4, 2048 * kind + vlen) && Half(o, b, 6, last)
  }

  /** Name, type and offset, in 8 bytes or in 16. */
  predicate MemberAt(o: Order, b: seq<Byte>, at: nat, full: bool, m: Member) {
    && Full(o, b, at, m.name) && Half(o, b, at + 4, m.ref)
    && if full then Half(o, b, at + 6, 0) && Full(o, b, at + 8, m.offset / 0x1_0000_0000) && Full(o, b, at + 12, m.offset % 0x1_0000_0000)
       else Half(o, b, at + 6, m.offset % 0x1_0000)
  }

  /** The record as it is to be laid down. */
  ghost predicate LaidOut(o: Order, r: Record, b: seq<Byte>) {
    match r
    case Base(name, bits) => HeaderAt(o, b, name, 1, 0, bits) && Full(o, b, 8, bits) && |b| == 12
    case Short(kind, ref, name) => HeaderAt(o, b, name, kind, 0, ref) && |b| == 8
    case Array(elem, index, nelems) =>
      HeaderAt(o, b, 0, 4, 0, 0) && Half(o, b, 8, elem) && Half(o, b, 10, index) && Full(o, b, 12, nelems) && |b| == 16
    case Composite(isUnion, name, size, ms, extra) =>
      var start, width := if size < 0xffff then 8 else 16, if size < 8192 then 8 else 16;
      && HeaderAt(o, b, name, if isUnion then 7 else 6, |ms| + extra, if size < 0xffff then size else 0xffff)
      && (size >= 0xffff ==> Full(o, b, 8, size / 0x1_0000_0000) && Full(o, b, 12, size % 0x1_0000_0000))
      && |b| == start + width * (|ms| + extra)
      && forall k :: 0 <= k < |ms| ==> MemberAt(o, b, start + width * k, size >= 8192, ms[k])
    case Func(ret, params, varargs) =>
      var n := |params| + if varargs then 1 else 0;
      && HeaderAt(o, b, 0, 5, n, ret) && (forall k :: 0 <= k < |params| ==> Half(o, b, 8 + 2 * k, params[k]))
      && (varargs ==> Half(o, b, 8 + 2 * |params|, 0)) && |b| == 8 + 2 * n + (if n % 2 == 1 then 2 else 0)
    case Enum(name, bits, values) =>
      && HeaderAt(o, b, name, 8, |values|, bits) && |b| == 8 + 8 * |values|
      && forall k :: 0 <= k < |values| ==> Full(o, b, 8 + 8 * k, values[k].name) && Full(o, b, 12 + 8 * k, values[k].value)
  }

  lemma HalfPut(o: Order, b: seq<Byte>, at: nat, v: nat)
    requires at + 2 <= |b| && v < 0x1_0000 && b[at..at + 2] == Put16(o, v)
    ensures Half(o, b, at, v)
  {
    assert b[at] == b[at..at + 2][0] && b[at + 1] == b[at..at + 2][1];
  }

  lemma FullPut(o: Order, b: seq<Byte>, at: nat, v: nat)
    requires at + 4 <= |b| && v < 0x1_0000_0000 && b[at..at + 4] == Put32(o, v)
    ensures Full(o, b, at, v)
  {
    hide Put32;
    PutBytes(v);
    var w := b[at..at + 4];
    assert b[at] == w[0] && b[at + 1] == w[1] && b[at + 2] == w[2] && b[at + 3] == w[3];
  }

  /** What is at an offset of a piece is that much further on in the whole. */
  lemma Inside(o: Order, b: seq<Byte>, at: nat, piece: seq<Byte>, j: nat, v: nat)
    requires at + |piece| <= |b| && b[at..at + |piece|] == piece
    ensures Half(o, piece, j, v) ==> Half(o, b, at + j, v)
    ensures Full(o, piece, j, v) ==> Full(o, b, at + j, v)
  {
    assert forall i :: 0 <= i < |piece| ==> piece[i] == b[at + i];
  }

  lemma HeaderLaid(o: Order, name: nat, info: nat, last: nat, rest: seq<Byte>)
    requires name < U32 && info < U16 && last < U16
    ensures var b := ShortHeader(o, name, info, last) + rest;
            Full(o, b, 0, name) && Half(o, b, 4, info) && Half(o, b, 6, last)
  {
    hide Put16, Put32, Half, Full;
    var b := ShortHeader(o, name, info, last) + rest;
    SplitShort(Put32(o, name), Put16(o, info), Put16(o, last), rest);
    assert b[0..4] == b[..4];
    FullPut(o, b, 0, name);
    HalfPut(o, b, 4, info);
    HalfPut(o, b, 6, last);
  }

  /** With a length the packed word has room for. */
  lemma HeaderIs(o: Order, name: nat, kind: nat, vlen: nat, last: nat, rest: seq<Byte>)
    requires name < U32 && kind < 0x20 && vlen <= VLEN_MAX && last < U16
    ensures HeaderAt(o, ShortHeader(o, name, Info(kind, vlen), last) + rest, name, kind, vlen, last)
  {
    hide ShortHeader, Half, Full, Info;
    InfoIsSum(kind, vlen);
    HeaderLaid(o, name, 2048 * kind + vlen, last, rest);
  }

  lemma MemberLaid(o: Order, size: nat, m: Member)
    requires m.name < U32 && m.ref < U16 && m.offset < U64
    ensures MemberAt(o, if size < SHORT_MEMBER_LIMIT then ShortMember(o, m) else FullMember(o, m), 0, size >= 8192, m)
  {
    hide Put16, Put32, Half, Full;
    if size < SHORT_MEMBER_LIMIT {
      var b := ShortMember(o, m);
      ModPut16(o, m.offset);
      SplitShort(Put32(o, m.name), Put16(o, m.ref), Put16(o, m.offset), []);
      assert b == Put32(o, m.name) + Put16(o, m.ref) + Put16(o, m.offset) + [] && b[0..4] == b[..4];
      FullPut(o, b, 0, m.name);
      HalfPut(o, b, 4, m.ref);
      HalfPut(o, b, 6, m.offset % U16);
    } else {
      var b := FullMember(o, m);
      var tail := Put32(o, m.offset / U32) + Put32(o, m.offset % U32) + [];
      assert b == Put32(o, m.name) + Put16(o, m.ref) + Put16(o, 0) + tail;
      SplitShort(Put32(o, m.name), Put16(o, m.ref), Put16(o, 0), tail);
      SplitPair(Put32(o, m.offset / U32), Put32(o, m.offset % U32), []);
      SubSlices(b);
      assert b[0..4] == b[..4];
      FullPut(o, b, 0, m.name);
      HalfPut(o, b, 4, m.ref);
      HalfPut(o, b, 6, 0);
      FullPut(o, b, 8, m.offset / U32);
      FullPut(o, b, 12, m.offset % U32);
    }
  }

  lemma ModPut16(o: Order, v: nat)
    ensures Put16(o, v) == Put16(o, v % 0x1_0000)
  {
    SplitWord(v);
    SplitWord(v % 0x1_0000);
    var w := v % 0x1_0000;
    assert w == v % 256 + 256 * (v / 256 % 256);
    assert w % 256 == v % 256 && w / 256 == v / 256 % 256;
  }

  lemma MemberInside(o: Order, b: seq<Byte>, at: nat, piece: seq<Byte>, full: bool, m: Member)
    requires at + |piece| <= |b| && b[at..at + |piece|] == piece && MemberAt(o, piece, 0, full, m)
    ensures MemberAt(o, b, at, full, m)
  {
    hide Half, Full;
    Inside(o, b, at, piece, 0, m.name);
    Inside(o, b, at, piece, 4, m.ref);
    if full {
      Inside(o, b, at, piece, 6, 0);
      Inside(o, b, at, piece, 8, m.offset / 0x1_0000_0000);
      Inside(o, b, at, piece, 12, m.offset % 0x1_0000_0000);
    } else {
      Inside(o, b, at, piece, 6, m.offset % 0x1_0000);
    }
  }

  /** Element `k` of a list of pieces of one width. */
  lemma ListSlice<T>(front: seq<Byte>, xs: seq<T>, f: T -> seq<Byte>, width: nat, k: nat, rest: seq<Byte>)
    requires k < |xs| && forall x :: x in xs ==> |f(x)| == width
    ensures var b, at := front + (Flat(xs, f) + rest), |front| + width * k;
            at + width <= |b| && b[at..at + width] == f(xs[k])
  {
    FlatSlice(xs, f, width, k, rest);
    hide Flat;
    Behind(front, Flat(xs, f) + rest, width * k, width);
  }

  lemma Behind(front: seq<Byte>, all: seq<Byte>, at: nat, n: nat)
    requires at + n <= |all|
    ensures (front + all)[|front| + at..|front| + at + n] == all[at..at + n]
  {
  }

  lemma MembersLaid(o: Order, front: seq<Byte>, size: nat, ms: seq<Member>, k: nat, rest: seq<Byte>)
    requires k < |ms| && forall m :: m in ms ==> m.name < U32 && m.ref < U16 && m.offset < U64
    ensures var width := if size < 8192 then 8 else 16;
            MemberAt(o, front + (Members(o, size, ms) + rest), |front| + width * k, size >= 8192, ms[k])
  {
    hide ShortMember, FullMember, Flat, MemberAt;
    assert ms[k] in ms;
    MemberLaid(o, size, ms[k]);
    var b := front + (Members(o, size, ms) + rest);
    if size < SHORT_MEMBER_LIMIT {
      ListSlice(front, ms, m => ShortMember(o, m), 8, k, rest);
      MemberInside(o, b, |front| + 8 * k, ShortMember(o, ms[k]), false, ms[k]);
    } else {
      ListSlice(front, ms, m => FullMember(o, m), 16, k, rest);
      MemberInside(o, b, |front| + 16 * k, FullMember(o, ms[k]), true, ms[k]);
    }
  }

  lemma ValueLaid(o: Order, v: Value)
    requires v.name < U32 && v.value < U32
    ensures Full(o, EnumValue(o, v), 0, v.name) && Full(o, EnumValue(o, v), 4, v.value)
  {
    hide Put32, Full;
    var b := EnumValue(o, v);
    SplitPair(Put32(o, v.name), Put32(o, v.value), []);
    assert b == Put32(o, v.name) + Put32(o, v.value) + [] && b[0..4] == b[..4];
    FullPut(o, b, 0, v.name);
    FullPut(o, b, 4, v.value);
  }

  lemma EnumLaid(o: Order, r: Record)
    requires r.Enum? && Widths(r) && |r.values| <= VLEN_MAX
    ensures LaidOut(o, r, Bytes(o, r, []))
  {
    hide ShortHeader, EnumValue, Flat, Full, Half, HeaderAt, Info;
    var f := v => EnumValue(o, v);
    var head, b := Head(o, r), Bytes(o, r, []);
    FlatLength(r.values, f, 8);
    assert b == head + (Flat(r.values, f) + []) && b == head + Flat(r.values, f);
    HeaderIs(o, r.name, 8, |r.values|, r.bits, Flat(r.values, f));
    forall k | 0 <= k < |r.values| ensures Full(o, b, 8 + 8 * k, r.values[k].name) && Full(o, b, 12 + 8 * k, r.values[k].value) {
      assert r.values[k] in r.values;
      ListSlice(head, r.values, f, 8, k, []);
      ValueLaid(o, r.values[k]);
      Inside(o, b, 8 + 8 * k, EnumValue(o, r.values[k]), 0, r.values[k].name);
      Inside(o, b, 8 + 8 * k, EnumValue(o, r.values[k]), 4, r.values[k].value);
    }
  }

  lemma FuncLaid(o: Order, r: Record, pad: seq<Byte>)
    requires r.Func? && Widths(r) && |Args(r.params, r.varargs)| <= VLEN_MAX && |pad| == PadLen(r)
    ensures LaidOut(o, r, Bytes(o, r, pad))
  {
    hide ShortHeader, Put16, Flat, Full, Half, HeaderAt, Info;
    var args, f := Args(r.params, r.varargs), a => Put16(o, a);
    var head, b := Head(o, r), Bytes(o, r, pad);
    FlatLength(args, f, 2);
    assert b == head + (Flat(args, f) + pad);
    HeaderIs(o, 0, 5, |args|, r.ret, Flat(args, f) + pad);
    forall k | 0 <= k < |args| ensures Half(o, b, 8 + 2 * k, args[k]) {
      ListSlice(head, args, f, 2, k, pad);
      assert args[k] in args && (k < |r.params| ==> args[k] == r.params[k]);
      HalfPut(o, b, 8 + 2 * k, args[k]);
    }
    assert forall k :: 0 <= k < |r.params| ==> args[k] == r.params[k];
    assert r.varargs ==> args[|r.params|] == 0;
  }

  lemma StructHeadLaid(o: Order, r: Record, rest: seq<Byte>)
    requires r.Composite? && Widths(r) && |r.members| + r.extra <= VLEN_MAX
    ensures var b := Head(o, r) + rest;
            && HeaderAt(o, b, r.name, if r.isUnion then 7 else 6, |r.members| + r.extra, if r.size < 0xffff then r.size else 0xffff)
            && (r.size >= 0xffff ==> Full(o, b, 8, r.size / 0x1_0000_0000) && Full(o, b, 12, r.size % 0x1_0000_0000))
  {
    hide ShortHeader, Put16, Put32, Full, Half, HeaderAt, Info;
    var kind, n := if r.isUnion then 7 else 6, |r.members| + r.extra;
    if r.size < FULL {
      HeaderIs(o, r.name, kind, n, r.size, rest);
    } else {
      var tail := Put32(o, r.size / U32) + Put32(o, r.size % U32) + rest;
      FullHeaderIs(o, r.name, Info(kind, n), r.size, rest);
      HeaderIs(o, r.name, kind, n, FULL, tail);
      SplitPair(Put32(o, r.size / U32), Put32(o, r.size % U32), rest);
      var b := Head(o, r) + rest;
      assert b[8..] == tail;
      SubSlices(b);
      FullPut(o, b, 8, r.size / U32);
      FullPut(o, b, 12, r.size % U32);
    }
  }

  lemma CompositeLaid(o: Order, r: Record, pad: seq<Byte>)
    requires r.Composite? && Widths(r) && |r.members| + r.extra <= VLEN_MAX && |pad| == PadLen(r)
    ensures LaidOut(o, r, Bytes(o, r, pad))
  {
    hide StructHeader, Full, Half, HeaderAt, Info, Members, MemberAt;
    var head, b := Head(o, r), Bytes(o, r, pad);
    var rest := Members(o, r.size, r.members) + pad;
    assert b == head + rest;
    StructHeadLaid(o, r, rest);
    MembersLength(o, r.size, r.members);
    var width := if r.size < 8192 then 8 else 16;
    forall k | 0 <= k < |r.members| ensures MemberAt(o, b, |head| + width * k, r.size >= 8192, r.members[k]) {
      MembersLaid(o, head, r.size, r.members, k, pad);
    }
    assert width * (|r.members| + r.extra) == width * |r.members| + width * r.extra;
  }

  lemma MembersLength(o: Order, size: nat, ms: seq<Member>)
    ensures |Members(o, size, ms)| == (if size < 8192 then 8 else 16) * |ms|
  {
    hide Flat, ShortMember, FullMember;
    if size < SHORT_MEMBER_LIMIT {
      FlatLength(ms, m => ShortMember(o, m), 8);
    } else {
      FlatLength(ms, m => FullMember(o, m), 16);
    }
  }

  /** How many entries the header announces. */
  function Announced(r: Record): nat {
    match r
    case Composite(_, _, _, ms, extra) => |ms| + extra
    case Func(_, params, varargs) => |Args(params, varargs)|
    case Enum(_, _, values) => |values|
    case _ => 0
  }

  /** What the writers lay down is where the format has it. */
  lemma RecordLaidOut(o: Order, r: Record, pad: seq<Byte>)
    requires Widths(r) && Announced(r) <= VLEN_MAX && |pad| == PadLen(r)
    ensures LaidOut(o, r, Bytes(o, r, pad))
  {
    hide ShortHeader, StructHeader, Full, Half, HeaderAt, Flat, Members, Info, IntEncode;
    var tail := Body(o, r) + pad;
    assert Bytes(o, r, pad) == Head(o, r) + tail;
    match r
    case Base(name, bits) =>
      HeaderIs(o, name, 1, 0, bits, tail);
      IntRoundTrip(bits);
      FullPut(o, Bytes(o, r, pad), 8, bits);
    case Short(kind, ref, name) =>
      HeaderIs(o, name, kind, 0, ref, tail);
    case Array(elem, index, nelems) => ArrayLaid(o, r);
    case Composite(_, _, _, _, _) => CompositeLaid(o, r, pad);
    case Func(_, _, _) => FuncLaid(o, r, pad);
    case Enum(_, _, _) => EnumLaid(o, r);
  }

  lemma ArrayLaid(o: Order, r: Record)
    requires r.Array? && Widths(r)
    ensures LaidOut(o, r, Bytes(o, r, []))
  {
    hide ShortHeader, Full, Half, HeaderAt, Info, Put16, Put32;
    var head, b := Head(o, r), Bytes(o, r, []);
    HeaderIs(o, 0, 4, 0, 0, Body(o, r));
    assert b == head + Body(o, r);
    assert b[8..10] == Put16(o, r.elem) && b[10..12] == Put16(o, r.index) && b[12..16] == Put32(o, r.nelems);
    HalfPut(o, b, 8, r.elem);
    HalfPut(o, b, 10, r.index);
    FullPut(o, b, 12, r.nelems);
  }
}
