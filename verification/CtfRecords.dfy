/** CTF type records: what the writers lay down and what the readers make of it. */
module CtfRecords {
  import opened Wrappers
  import opened CtfBytes

  const KIND_INT: nat := 1
  const KIND_FLT: nat := 2
  const KIND_PTR: nat := 3
  const KIND_ARR: nat := 4
  const KIND_FUNC: nat := 5
  const KIND_STR: nat := 6
  const KIND_UNION: nat := 7
  const KIND_ENUM: nat := 8
  const KIND_FWD: nat := 9
  const KIND_TYPDEF: nat := 10
  const KIND_VOLATILE: nat := 11
  const KIND_CONST: nat := 12
  const KIND_RESTRICT: nat := 13

  const SHORT_MEMBER_LIMIT: nat := 8192
  const U16: nat := 0x1_0000
  const U32: nat := 0x1_0000_0000
  const U64: nat := 0x1_0000_0000_0000_0000

  /** In place of a size or type: the full header follows. */
  const FULL: nat := 0xffff

  datatype Member = Member(name: nat, ref: nat, offset: nat)
  datatype Value = Value(name: nat, value: nat)

  /** What a writer is asked to add. Names are references into the string table. */
  datatype Record =
    | Base(name: nat, bits: nat)
    | Short(kind: nat, ref: nat, name: nat)
    | Array(elem: nat, index: nat, nelems: nat)
    | Composite(isUnion: bool, name: nat, size: nat, members: seq<Member>, extra: nat) // `extra` more are announced
    | Func(ret: nat, params: seq<nat>, varargs: bool)
    | Enum(name: nat, bits: nat, values: seq<Value>)

  // ----- writing -----

  /** `xs` one after the other, each as `f` writes it. */
  function Flat<T>(xs: seq<T>, f: T -> seq<Byte>): seq<Byte> {
    if xs == [] then [] else Flat(xs[..|xs| - 1], f) + f(xs[|xs| - 1])
  }

  function ShortHeader(o: Order, name: nat, info: nat, last: nat): (h: seq<Byte>)
    ensures |h| == 8
  {
    Put32(o, name) + Put16(o, info) + Put16(o, last)
  }

  function StructHeader(o: Order, name: nat, info: nat, size: nat): (h: seq<Byte>)
    ensures |h| == if size < FULL then 8 else 16
  {
    if size < FULL then ShortHeader(o, name, info, size)
    else ShortHeader(o, name, info, FULL) + Put32(o, size / U32) + Put32(o, size % U32)
  }

  function ShortMember(o: Order, m: Member): (b: seq<Byte>)
    ensures |b| == 8
  {
    Put32(o, m.name) + Put16(o, m.ref) + Put16(o, m.offset)
  }

  function FullMember(o: Order, m: Member): (b: seq<Byte>)
    ensures |b| == 16
  {
    Put32(o, m.name) + Put16(o, m.ref) + Put16(o, 0) + Put32(o, m.offset / U32) + Put32(o, m.offset % U32)
  }

  function EnumValue(o: Order, v: Value): (b: seq<Byte>)
    ensures |b| == 8
  {
    Put32(o, v.name) + Put32(o, v.value)
  }

  function Members(o: Order, size: nat, ms: seq<Member>): seq<Byte> {
    if size < SHORT_MEMBER_LIMIT then Flat(ms, m => ShortMember(o, m)) else Flat(ms, m => FullMember(o, m))
  }

  /** The parameter types, a trailing 0 standing for the ellipsis. */
  function Args(params: seq<nat>, varargs: bool): seq<nat> {
    params + if varargs then [0] else []
  }

  function Head(o: Order, r: Record): seq<Byte> {
    match r
    case Base(name, bits) => ShortHeader(o, name, Info(KIND_INT, 0), bits)
    case Short(kind, ref, name) => ShortHeader(o, name, Info(kind, 0), ref)
    case Array(_, _, _) => ShortHeader(o, 0, Info(KIND_ARR, 0), 0)
    case Composite(isUnion, name, size, ms, extra) =>
      StructHeader(o, name, Info(if isUnion then KIND_UNION else KIND_STR, |ms| + extra), size)
    case Func(ret, params, varargs) => ShortHeader(o, 0, Info(KIND_FUNC, |Args(params, varargs)|), ret)
    case Enum(name, bits, values) => ShortHeader(o, name, Info(KIND_ENUM, |values|), bits)
  }

  function Body(o: Order, r: Record): seq<Byte> {
    match r
    case Base(_, bits) => Put32(o, IntEncode(0, 0, bits))
    case Short(_, _, _) => []
    case Array(elem, index, nelems) => Put16(o, elem) + Put16(o, index) + Put32(o, nelems)
    case Composite(_, _, size, ms, _) => Members(o, size, ms)
    case Func(_, params, varargs) => Flat(Args(params, varargs), a => Put16(o, a))
    case Enum(_, _, values) => Flat(values, v => EnumValue(o, v))
  }

  /** Bytes of one member in a struct of this size. */
  function MemberWidth(size: nat): nat {
    if size < SHORT_MEMBER_LIMIT then 8 else 16
  }

  /**
   Function records are rounded up to four bytes, and members announced may not come. What is in the gap
   is left to chance.
   */
  function PadLen(r: Record): nat {
    match r
    case Func(_, params, varargs) => if |Args(params, varargs)| % 2 == 1 then 2 else 0
    case Composite(_, _, size, _, extra) => MemberWidth(size) * extra
    case _ => 0
  }

  function Bytes(o: Order, r: Record, pad: seq<Byte>): seq<Byte> {
    Head(o, r) + Body(o, r) + pad
  }

  /** A whole type section. */
  function Section(o: Order, rs: seq<Record>, pads: seq<seq<Byte>>): seq<Byte>
    requires |pads| == |rs|
  {
    if rs == [] then [] else Bytes(o, rs[0], pads[0]) + Section(o, rs[1..], pads[1..])
  }

  ghost predicate Padded(rs: seq<Record>, pads: seq<seq<Byte>>) {
    |pads| == |rs| && forall k :: 0 <= k < |rs| ==> |pads[k]| == PadLen(rs[k])
  }

  // ----- reading -----

  /** A types table entry as loaded. */
  datatype Type =
    | Int(name: nat, bits: nat, attrs: nat)
    | Float(name: nat, bits: nat, floatType: nat)
    | Tag(kind: nat, ref: nat)
    | Typedef(name: nat, ref: nat)
    | Fwd(name: nat, size: nat)
    | ArrayOf(elem: nat, nelems: nat)
    | Class(isUnion: bool, name: nat, size: nat, members: seq<Member>)
    | Ftype(ret: nat, params: seq<nat>, unspec: bool)
    | Enumeration(name: nat, bits: nat, values: seq<Value>)

  /** One record read: an entry, none for the unknown kind, and how many bytes to move on by. */
  datatype Step = Parsed(entry: Option<Type>, used: nat) | BadKind | Overrun

  function NonZero(args: seq<nat>): (r: seq<nat>)
    ensures 0 !in r && |r| <= |args|
  {
    if args == [] then []
    else NonZero(args[..|args| - 1]) + (if args[|args| - 1] == 0 then [] else [args[|args| - 1]])
  }

  function RoundUp4(len: nat): nat {
    if len % 4 / 2 == 1 then len + 2 else len
  }

  function ReadArgs(rd: Reader, body: seq<Byte>, n: nat): seq<nat>
    requires 2 * n <= |body|
  {
    seq(n, i requires 0 <= i < n => rd.Get16(body[2 * i..2 * i + 2]))
  }

  function ShortMemberAt(rd: Reader, b: seq<Byte>): Member
    requires |b| == 8
  {
    Member(rd.Get32(b[..4]), rd.Get16(b[4..6]), rd.Get16(b[6..8]))
  }

  function FullMemberAt(rd: Reader, b: seq<Byte>): Member
    requires |b| == 16
  {
    Member(rd.Get32(b[..4]), rd.Get16(b[4..6]), FullOffset(rd.Get32(b[8..12]), rd.Get32(b[12..16])))
  }

  function ValueAt(rd: Reader, b: seq<Byte>): Value
    requires |b| == 8
  {
    Value(rd.Get32(b[..4]), rd.Get32(b[4..8]))
  }

  function ReadShortMembers(rd: Reader, body: seq<Byte>, n: nat): seq<Member>
    requires 8 * n <= |body|
  {
    seq(n, i requires 0 <= i < n => ShortMemberAt(rd, body[8 * i..8 * i + 8]))
  }

  function ReadFullMembers(rd: Reader, body: seq<Byte>, n: nat): seq<Member>
    requires 16 * n <= |body|
  {
    seq(n, i requires 0 <= i < n => FullMemberAt(rd, body[16 * i..16 * i + 16]))
  }

  function ReadValues(rd: Reader, body: seq<Byte>, n: nat): seq<Value>
    requires 8 * n <= |body|
  {
    seq(n, i requires 0 <= i < n => ValueAt(rd, body[8 * i..8 * i + 8]))
  }

  /** The fixed part of a record, unpacked. */
  datatype Fixed = Fixed(name: nat, kind: nat, vlen: nat, last: nat, size: nat)

  function ReadClass(rd: Reader, f: Fixed, body: seq<Byte>): Step {
    var isUnion := f.kind == KIND_UNION;
    if f.size >= SHORT_MEMBER_LIMIT then
      if |body| < 16 * f.vlen then Overrun
      else Parsed(Some(Class(isUnion, f.name, f.size, ReadFullMembers(rd, body, f.vlen))), 16 * f.vlen)
    else if |body| < 8 * f.vlen then Overrun
    else Parsed(Some(Class(isUnion, f.name, f.size, ReadShortMembers(rd, body, f.vlen))), 8 * f.vlen)
  }

  function ReadFtype(rd: Reader, f: Fixed, body: seq<Byte>): Step {
    if |body| < 2 * f.vlen then Overrun
    else
      var args := ReadArgs(rd, body, f.vlen);
      Parsed(Some(Ftype(f.last, NonZero(args), 0 in args)), RoundUp4(2 * f.vlen))
  }

  function ReadEnumeration(rd: Reader, f: Fixed, body: seq<Byte>): Step {
    if |body| < 8 * f.vlen then Overrun
    else
      var bits := f.size % U16;
      Parsed(Some(Enumeration(f.name, if bits == 0 then 32 else bits, ReadValues(rd, body, f.vlen))), 8 * f.vlen)
  }

  function ReadNumber(rd: Reader, f: Fixed, body: seq<Byte>): Step {
    if |body| < 4 then Overrun
    else
      var eval := rd.Get32(body[..4]);
      Parsed(Some(if f.kind == KIND_INT then Int(f.name, IntBits(eval), IntAttrs(eval))
                  else Float(f.name, IntBits(eval), eval % 256)), 4)
  }

  function ReadArray(rd: Reader, body: seq<Byte>): Step {
    if |body| < 8 then Overrun
    else Parsed(Some(ArrayOf(rd.Get16(body[..2]), rd.Get32(body[4..8]))), 8)
  }

  /** What follows the header, by kind. */
  function ReadBody(rd: Reader, f: Fixed, body: seq<Byte>): Step {
    if f.kind == KIND_INT || f.kind == KIND_FLT then ReadNumber(rd, f, body)
    else if f.kind == KIND_ARR then ReadArray(rd, body)
    else if f.kind == KIND_FUNC then ReadFtype(rd, f, body)
    else if f.kind == KIND_STR || f.kind == KIND_UNION then ReadClass(rd, f, body)
    else if f.kind == KIND_ENUM then ReadEnumeration(rd, f, body)
    else if f.kind == KIND_FWD then Parsed(Some(Fwd(f.name, f.size)), 0)
    else if f.kind == KIND_TYPDEF then Parsed(Some(Typedef(f.name, f.last)), 0)
    else if f.kind in {KIND_VOLATILE, KIND_PTR, KIND_CONST, KIND_RESTRICT} then Parsed(Some(Tag(f.kind, f.last)), 0)
    else if f.kind == 0 then Parsed(None, 0)
    else BadKind
  }

  function HeaderLen(rd: Reader, buf: seq<Byte>): nat
    requires |buf| >= 8
  {
    if rd.Get16(buf[6..8]) == FULL then 16 else 8
  }

  function ReadFixed(rd: Reader, buf: seq<Byte>): Fixed
    requires |buf| >= 8 && |buf| >= HeaderLen(rd, buf)
  {
    var info, last := rd.Get16(buf[4..6]), rd.Get16(buf[6..8]);
    var size := if last == FULL then rd.Get32(buf[8..12]) * U32 + rd.Get32(buf[12..16]) else last;
    Fixed(rd.Get32(buf[..4]), GetKind(info), GetVlen(info), last, size)
  }

  function Advance(step: Step, header: nat): Step {
    if step.Parsed? then Parsed(step.entry, header + step.used) else step
  }

  /** One turn of the loader's loop, `buf` being what is left of the section. */
  function ReadOne(rd: Reader, buf: seq<Byte>): (step: Step)
    ensures step.Parsed? ==> step.used >= 8
  {
    if |buf| < 8 || |buf| < HeaderLen(rd, buf) then Overrun
    else Advance(ReadBody(rd, ReadFixed(rd, buf), buf[HeaderLen(rd, buf)..]), HeaderLen(rd, buf))
  }

  /** A kind is rejected exactly when it is beyond those of the format; 0 makes a hole in the table. */
  lemma BadKindExactly(rd: Reader, buf: seq<Byte>)
    requires |buf| >= 16
    ensures ReadOne(rd, buf) == BadKind <==> rd.Get16(buf[4..6]) / 2048 % 32 > 13
    ensures rd.Get16(buf[4..6]) / 2048 % 32 == 0 ==> ReadOne(rd, buf) == Parsed(None, if rd.Get16(buf[6..8]) == 0xffff then 16 else 8)
  {
    hide Reader.Get16, Reader.Get32, ReadNumber, ReadArray, ReadFtype, ReadClass, ReadEnumeration;
    ReadersNeverReject(rd, ReadFixed(rd, buf), buf[HeaderLen(rd, buf)..]);
  }

  lemma ReadersNeverReject(rd: Reader, f: Fixed, body: seq<Byte>)
    ensures !ReadNumber(rd, f, body).BadKind? && !ReadArray(rd, body).BadKind? && !ReadFtype(rd, f, body).BadKind?
    ensures !ReadClass(rd, f, body).BadKind? && !ReadEnumeration(rd, f, body).BadKind?
  {
  }

  /** The whole section: its entries and where the cursor stops; or a kind it rejects, or a read past the end. */
  datatype Result = Loaded(types: seq<Option<Type>>, end: nat) | Invalid | PastEnd

  function ReadAll(rd: Reader, buf: seq<Byte>): Result
    decreases |buf|
  {
    if buf == [] then Loaded([], 0)
    else
      match ReadOne(rd, buf)
      case BadKind => Invalid
      case Overrun => PastEnd
      case Parsed(t, used) =>
        if used >= |buf| then Loaded([t], used)
        else
          match ReadAll(rd, buf[used..])
          case Loaded(ts, end) => Loaded([t] + ts, used + end)
          case other => other
  }
}
