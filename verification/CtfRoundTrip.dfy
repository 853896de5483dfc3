/** Reading back a CTF type section gives the records written, and uses up every byte. */
module CtfRoundTrip {
  import opened Words
  import opened Wrappers
  import opened CtfBytes
  import opened CtfRecords

  /** What a record is loaded as: array index types and the names of pointers and qualifiers are not kept. */
  function Seen(r: Record): Type {
    match r
    case Base(name, bits) => Int(name, bits, 0)
    case Short(kind, ref, name) =>
      if kind == KIND_FWD then Fwd(name, ref) else if kind == KIND_TYPDEF then Typedef(name, ref) else Tag(kind, ref)
    case Array(elem, _, nelems) => ArrayOf(elem, nelems)
    case Composite(isUnion, name, size, ms, _) => Class(isUnion, name, size, ms)
    case Func(ret, params, varargs) => Ftype(ret, params, varargs)
    case Enum(name, bits, values) => Enumeration(name, if bits == 0 then 32 else bits, values)
  }

  function SeenAll(rs: seq<Record>): seq<Option<Type>> {
    seq(|rs|, k requires 0 <= k < |rs| => Some(Seen(rs[k])))
  }

  /** Every field within the C type its writer takes it in. */
  ghost predicate Widths(r: Record) {
    match r
    case Base(name, bits) => name < U32 && bits < U16
    case Short(kind, ref, name) =>
      name < U32 && ref < U16 &&
      kind in {KIND_PTR, KIND_FWD, KIND_TYPDEF, KIND_VOLATILE, KIND_CONST, KIND_RESTRICT}
    case Array(elem, index, nelems) => elem < U16 && index < U16 && nelems < U32
    case Composite(_, name, size, ms, _) =>
      name < U32 && size < U64 && forall m :: m in ms ==> m.name < U32 && m.ref < U16 && m.offset < U64
    case Func(ret, params, _) => ret < U16 && forall p :: p in params ==> p < U16
    case Enum(name, bits, values) => name < U32 && bits < U16 && forall v :: v in values ==> v.name < U32 && v.value < U32
  }

  /** What the format has room for. */
  ghost predicate Fits(r: Record) {
    match r
    case Base(_, bits) => bits < FULL
    case Short(_, ref, _) => ref < FULL
    case Array(_, _, _) => true
    case Composite(_, _, size, ms, extra) =>
      |ms| <= VLEN_MAX && extra == 0 && forall m :: m in ms ==> m.offset < if size < SHORT_MEMBER_LIMIT then U16 else U32
    case Func(ret, params, varargs) => ret < FULL && |Args(params, varargs)| <= VLEN_MAX && 0 !in params
    case Enum(_, bits, values) => bits < FULL && |values| <= VLEN_MAX
  }

  /** A struct small enough for short members has no offset they cannot hold. */
  lemma ShortMembersSuffice(size: nat, offset: nat)
    requires size < SHORT_MEMBER_LIMIT && offset <= 8 * size
    ensures offset < U16
  {
  }

  // ----- fixed-size pieces -----

  lemma {:induction false} FlatLength<T>(xs: seq<T>, f: T -> seq<Byte>, k: nat)
    requires forall x :: x in xs ==> |f(x)| == k
    ensures |Flat(xs, f)| == k * |xs|
  {
    if xs != [] {
      FlatLength(xs[..|xs| - 1], f, k);
      assert xs[|xs| - 1] in xs;
      assert k * |xs| == k * (|xs| - 1) + k;
    }
  }

  lemma {:induction false} FlatSlice<T>(xs: seq<T>, f: T -> seq<Byte>, k: nat, i: nat, rest: seq<Byte>)
    requires i < |xs| && forall x :: x in xs ==> |f(x)| == k
    ensures k * i + k <= |Flat(xs, f)| && (Flat(xs, f) + rest)[k * i..k * i + k] == f(xs[i])
  {
    var front, x := xs[..|xs| - 1], xs[|xs| - 1];
    assert x in xs;
    FlatLength(front, f, k);
    FlatLength(xs, f, k);
    assert Flat(xs, f) + rest == Flat(front, f) + (f(x) + rest);
    if i < |xs| - 1 {
      FlatSlice(front, f, k, i, f(x) + rest);
    } else {
      var all := Flat(front, f) + (f(x) + rest);
      assert all[k * i..][..k] == f(x);
    }
  }

  lemma SplitShort(a: seq<Byte>, b: seq<Byte>, c: seq<Byte>, rest: seq<Byte>)
    requires |a| == 4 && |b| == |c| == 2
    ensures var buf := a + b + c + rest;
            buf[..4] == a && buf[4..6] == b && buf[6..8] == c && buf[8..] == rest
  {
  }

  lemma SplitPair(a: seq<Byte>, b: seq<Byte>, rest: seq<Byte>)
    requires |a| == |b| == 4
    ensures var buf := a + b + rest; buf[..4] == a && buf[4..8] == b && buf[8..] == rest
  {
  }

  // ----- headers -----

  lemma ShortHeaderReads(rd: Reader, name: nat, info: nat, last: nat, rest: seq<Byte>)
    requires name < U32 && info < U16 && last < U16
    ensures var buf := ShortHeader(rd.FileOrder(), name, info, last) + rest;
            && rd.Get32(buf[..4]) == name && rd.Get16(buf[4..6]) == info && rd.Get16(buf[6..8]) == last
            && buf[8..] == rest
  {
    hide Put16, Put32;
    var o := rd.FileOrder();
    SplitShort(Put32(o, name), Put16(o, info), Put16(o, last), rest);
    rd.GetPut32(name);
    rd.GetPut16(info);
    rd.GetPut16(last);
  }

  /** A short header: the loader goes on eight bytes later. */
  lemma ShortHeaderTurn(rd: Reader, name: nat, info: nat, last: nat, rest: seq<Byte>)
    requires name < U32 && info < U16 && last < FULL
    ensures ReadOne(rd, ShortHeader(rd.FileOrder(), name, info, last) + rest) ==
            Advance(ReadBody(rd, Fixed(name, GetKind(info), GetVlen(info), last, last), rest), 8)
  {
    hide ReadBody, ShortHeader;
    ShortHeaderReads(rd, name, info, last, rest);
  }

  lemma FullHeaderReads(rd: Reader, name: nat, info: nat, size: nat, rest: seq<Byte>)
    requires name < U32 && info < U16 && FULL <= size < U64
    ensures var buf := StructHeader(rd.FileOrder(), name, info, size) + rest;
            && rd.Get32(buf[..4]) == name && rd.Get16(buf[4..6]) == info && rd.Get16(buf[6..8]) == FULL
            && rd.Get32(buf[8..12]) == size / U32 && rd.Get32(buf[12..16]) == size % U32
            && buf[16..] == rest
  {
    hide Put16, Put32, ShortHeader, Reader.Get16, Reader.Get32;
    var o := rd.FileOrder();
    var tail := Put32(o, size / U32) + Put32(o, size % U32) + rest;
    var buf := StructHeader(o, name, info, size) + rest;
    FullHeaderIs(o, name, info, size, rest);
    ShortHeaderReads(rd, name, info, FULL, tail);
    SplitPair(Put32(o, size / U32), Put32(o, size % U32), rest);
    SubSlices(buf);
    rd.GetPut32(size / U32);
    rd.GetPut32(size % U32);
  }

  lemma FullHeaderIs(o: Order, name: nat, info: nat, size: nat, rest: seq<Byte>)
    requires size >= FULL
    ensures StructHeader(o, name, info, size) + rest ==
            ShortHeader(o, name, info, FULL) + (Put32(o, size / U32) + Put32(o, size % U32) + rest)
  {
    hide ShortHeader, Put32;
  }

  lemma StructHeaderTurn(rd: Reader, name: nat, info: nat, size: nat, rest: seq<Byte>)
    requires name < U32 && info < U16 && size < U64
    ensures var h := StructHeader(rd.FileOrder(), name, info, size);
            ReadOne(rd, h + rest) ==
            Advance(ReadBody(rd, Fixed(name, GetKind(info), GetVlen(info), if size < FULL then size else FULL, size), rest), |h|)
  {
    hide ReadBody, ShortHeader, Reader.Get16, Reader.Get32, Put32, GetKind, GetVlen;
    if size < FULL {
      ShortHeaderTurn(rd, name, info, size, rest);
    } else {
      FullHeaderReads(rd, name, info, size, rest);
      hide StructHeader;
      assert size / U32 * U32 + size % U32 == size;
    }
  }

  // ----- bodies -----

  /** What becomes of a member of a struct of this size. */
  function AsRead(size: nat, m: Member): Member {
    m.(offset := if size < SHORT_MEMBER_LIMIT then m.offset % U16 else FullOffset(m.offset / U32, m.offset % U32))
  }

  function AllAsRead(size: nat, ms: seq<Member>): seq<Member> {
    seq(|ms|, k requires 0 <= k < |ms| => AsRead(size, ms[k]))
  }

  lemma AsReadExactly(size: nat, ms: seq<Member>)
    ensures AllAsRead(size, ms) == ms <==> forall m :: m in ms ==> m.offset < if size < SHORT_MEMBER_LIMIT then U16 else U32
  {
    hide FullOffset;
    forall k | 0 <= k < |ms|
      ensures AllAsRead(size, ms)[k] == ms[k] <==> ms[k].offset < if size < SHORT_MEMBER_LIMIT then U16 else U32
    {
      FullOffsetRoundTrip(ms[k].offset);
    }
    if AllAsRead(size, ms) == ms {
      forall m | m in ms ensures m.offset < if size < SHORT_MEMBER_LIMIT then U16 else U32 {
        var k :| 0 <= k < |ms| && ms[k] == m;
        assert AllAsRead(size, ms)[k] == ms[k];
      }
    }
  }

  lemma ShortMemberReads(rd: Reader, m: Member)
    requires m.name < U32 && m.ref < U16
    ensures ShortMemberAt(rd, ShortMember(rd.FileOrder(), m)) == m.(offset := m.offset % U16)
  {
    hide Put16, Put32, Reader.Get16, Reader.Get32;
    var o := rd.FileOrder();
    rd.GetPut32(m.name);
    rd.GetPut16(m.ref);
    rd.GetPut16(m.offset);
    SplitShort(Put32(o, m.name), Put16(o, m.ref), Put16(o, m.offset), []);
    assert ShortMember(o, m) == Put32(o, m.name) + Put16(o, m.ref) + Put16(o, m.offset) + [];
  }

  lemma FullMemberReads(rd: Reader, m: Member)
    requires m.name < U32 && m.ref < U16 && m.offset < U64
    ensures FullMemberAt(rd, FullMember(rd.FileOrder(), m)) ==
            m.(offset := FullOffset(m.offset / U32, m.offset % U32))
  {
    hide Put16, Put32, Reader.Get16, Reader.Get32, FullOffset;
    var o := rd.FileOrder();
    rd.GetPut32(m.name);
    rd.GetPut16(m.ref);
    rd.GetPut32(m.offset / U32);
    rd.GetPut32(m.offset % U32);
    var tail := Put32(o, m.offset / U32) + Put32(o, m.offset % U32) + [];
    var b := FullMember(o, m);
    assert b == Put32(o, m.name) + Put16(o, m.ref) + Put16(o, 0) + tail;
    SplitShort(Put32(o, m.name), Put16(o, m.ref), Put16(o, 0), tail);
    SplitPair(Put32(o, m.offset / U32), Put32(o, m.offset % U32), []);
    SubSlices(b);
  }

  lemma SubSlices(b: seq<Byte>)
    requires |b| >= 16
    ensures b[8..12] == b[8..][..4] && b[12..16] == b[8..][4..8] && b[16..] == b[8..][8..]
  {
  }

  lemma MembersRead(rd: Reader, size: nat, ms: seq<Member>, rest: seq<Byte>)
    requires forall m :: m in ms ==> m.name < U32 && m.ref < U16 && m.offset < U64
    ensures var b := Members(rd.FileOrder(), size, ms);
            if size < SHORT_MEMBER_LIMIT
            then |b| == 8 * |ms| && ReadShortMembers(rd, b + rest, |ms|) == AllAsRead(size, ms)
            else |b| == 16 * |ms| && ReadFullMembers(rd, b + rest, |ms|) == AllAsRead(size, ms)
  {
    hide ShortMember, ShortMemberAt, FullMember, FullMemberAt, FullOffset, Flat;
    if size < SHORT_MEMBER_LIMIT {
      var f := m => ShortMember(rd.FileOrder(), m);
      FlatLength(ms, f, 8);
      var read := ReadShortMembers(rd, Flat(ms, f) + rest, |ms|);
      forall i | 0 <= i < |ms| ensures read[i] == AllAsRead(size, ms)[i] {
        FlatSlice(ms, f, 8, i, rest);
        ShortMemberReads(rd, ms[i]);
      }
    } else {
      var f := m => FullMember(rd.FileOrder(), m);
      FlatLength(ms, f, 16);
      var read := ReadFullMembers(rd, Flat(ms, f) + rest, |ms|);
      forall i | 0 <= i < |ms| ensures read[i] == AllAsRead(size, ms)[i] {
        FlatSlice(ms, f, 16, i, rest);
        FullMemberReads(rd, ms[i]);
      }
    }
  }

  lemma ValueReads(rd: Reader, v: Value)
    requires v.name < U32 && v.value < U32
    ensures ValueAt(rd, EnumValue(rd.FileOrder(), v)) == v
  {
    hide Put32, Reader.Get32;
    var o := rd.FileOrder();
    rd.GetPut32(v.name);
    rd.GetPut32(v.value);
    SplitPair(Put32(o, v.name), Put32(o, v.value), []);
    assert EnumValue(o, v) == Put32(o, v.name) + Put32(o, v.value) + [];
  }

  lemma ValuesRead(rd: Reader, values: seq<Value>, rest: seq<Byte>)
    requires forall v :: v in values ==> v.name < U32 && v.value < U32
    ensures var b := Flat(values, v => EnumValue(rd.FileOrder(), v));
            |b| == 8 * |values| && ReadValues(rd, b + rest, |values|) == values
  {
    hide EnumValue, ValueAt, Flat;
    var f := v => EnumValue(rd.FileOrder(), v);
    FlatLength(values, f, 8);
    var read := ReadValues(rd, Flat(values, f) + rest, |values|);
    forall i | 0 <= i < |values| ensures read[i] == values[i] {
      FlatSlice(values, f, 8, i, rest);
      ValueReads(rd, values[i]);
    }
  }

  lemma ArgsRead(rd: Reader, args: seq<nat>, rest: seq<Byte>)
    requires forall a :: a in args ==> a < U16
    ensures var b := Flat(args, a => Put16(rd.FileOrder(), a));
            |b| == 2 * |args| && ReadArgs(rd, b + rest, |args|) == args
  {
    hide Put16, Flat;
    var f := a => Put16(rd.FileOrder(), a);
    FlatLength(args, f, 2);
    var read := ReadArgs(rd, Flat(args, f) + rest, |args|);
    forall i | 0 <= i < |args| ensures read[i] == args[i] {
      FlatSlice(args, f, 2, i, rest);
      assert f(args[i]) == Put16(rd.FileOrder(), args[i]) && args[i] in args;
      rd.GetPut16(args[i]);
    }
  }

  lemma {:induction false} NonZeroAll(args: seq<nat>)
    requires 0 !in args
    ensures NonZero(args) == args
  {
    if args != [] {
      NonZeroAll(args[..|args| - 1]);
      assert args[|args| - 1] in args;
    }
  }

  lemma NonZeroArgs(params: seq<nat>, varargs: bool)
    requires 0 !in params
    ensures NonZero(Args(params, varargs)) == params && (0 in Args(params, varargs) <==> varargs)
  {
    NonZeroAll(params);
    if varargs {
      assert Args(params, varargs)[..|params|] == params;
    } else {
      assert Args(params, varargs) == params;
    }
  }

  // ----- one record -----

  lemma NumberReads(rd: Reader, name: nat, bits: nat, rest: seq<Byte>)
    requires bits < U16
    ensures var f := Fixed(name, KIND_INT, 0, bits, bits);
            ReadBody(rd, f, Put32(rd.FileOrder(), IntEncode(0, 0, bits)) + rest) == Parsed(Some(Int(name, bits, 0)), 4)
  {
    hide Put32, IntEncode;
    IntRoundTrip(bits);
    rd.GetPut32(bits);
    var b := Put32(rd.FileOrder(), bits);
    assert (b + rest)[..4] == b;
  }

  /**
   Any number's word, whoever packed it: an integer gets its attributes and bits; a float its bits, and as
   its type not the attributes but the low byte of the word, which is that of the bits.
   */
  lemma NumberComesBack(rd: Reader, f: Fixed, attrs: nat, offset: nat, bits: nat, rest: seq<Byte>)
    requires f.kind in {1, 2} && attrs < 256 && offset < 256 && bits < U16
    ensures var word := 0x100_0000 * attrs + 0x1_0000 * offset + bits;
            ReadBody(rd, f, Put32(rd.FileOrder(), word) + rest) ==
            Parsed(Some(if f.kind == 1 then Int(f.name, bits, attrs) else Float(f.name, bits, bits % 256)), 4)
  {
    hide Put32, IntEncode, Reader.Get32, IntAttrs, IntBits;
    NumberWord(attrs, offset, bits);
    var word := 0x100_0000 * attrs + 0x1_0000 * offset + bits;
    rd.GetPut32(word);
    var b := Put32(rd.FileOrder(), word);
    assert (b + rest)[..4] == b;
  }

  /** So a float's type comes back exactly when it happens to be the low byte of its size in bits. */
  lemma FloatTypeExactly(rd: Reader, f: Fixed, attrs: nat, offset: nat, bits: nat, rest: seq<Byte>)
    requires f.kind == 2 && attrs < 256 && offset < 256 && bits < U16
    ensures var word := 0x100_0000 * attrs + 0x1_0000 * offset + bits;
            ReadBody(rd, f, Put32(rd.FileOrder(), word) + rest) == Parsed(Some(Float(f.name, bits, attrs)), 4)
            <==> bits % 256 == attrs
  {
    hide ReadBody, Put32;
    NumberComesBack(rd, f, attrs, offset, bits, rest);
  }

  /** No plain float does: a single of 32 bits, which is type 1, is read as one of type 32. */
  lemma FloatExample(rd: Reader)
    ensures ReadBody(rd, Fixed(0, 2, 0, 0, 0), Put32(rd.FileOrder(), 0x100_0020)) == Parsed(Some(Float(0, 32, 32)), 4)
  {
    hide ReadBody, Put32;
    NumberComesBack(rd, Fixed(0, 2, 0, 0, 0), 1, 0, 32, []);
    assert Put32(rd.FileOrder(), 0x100_0020) + [] == Put32(rd.FileOrder(), 0x100_0020);
  }

  lemma ArrayReads(rd: Reader, elem: nat, index: nat, nelems: nat, rest: seq<Byte>)
    requires elem < U16 && nelems < U32
    ensures var o := rd.FileOrder();
            ReadBody(rd, Fixed(0, KIND_ARR, 0, 0, 0), Put16(o, elem) + Put16(o, index) + Put32(o, nelems) + rest) ==
            Parsed(Some(ArrayOf(elem, nelems)), 8)
  {
    hide Put16, Put32;
    var o := rd.FileOrder();
    rd.GetPut16(elem);
    rd.GetPut32(nelems);
    var b := Put16(o, elem) + Put16(o, index) + Put32(o, nelems) + rest;
    assert b[..2] == Put16(o, elem) && b[4..8] == Put32(o, nelems);
  }

  lemma ClassReads(rd: Reader, isUnion: bool, name: nat, size: nat, ms: seq<Member>, last: nat, rest: seq<Byte>)
    requires Widths(Composite(isUnion, name, size, ms, 0))
    ensures var f, b := Fixed(name, if isUnion then KIND_UNION else KIND_STR, |ms|, last, size), Members(rd.FileOrder(), size, ms);
            ReadBody(rd, f, b + rest) == Parsed(Some(Class(isUnion, name, size, AllAsRead(size, ms))), |b|)
  {
    hide Members, ReadShortMembers, ReadFullMembers;
    MembersRead(rd, size, ms, rest);
  }

  /** A struct with a length that fits the packed word. */
  lemma StructTurn(rd: Reader, r: Record, rest: seq<Byte>)
    requires r.Composite? && Widths(r) && |r.members| <= VLEN_MAX && r.extra == 0
    ensures var o := rd.FileOrder();
            ReadOne(rd, Head(o, r) + (Body(o, r) + rest)) ==
            Parsed(Some(Class(r.isUnion, r.name, r.size, AllAsRead(r.size, r.members))), |Head(o, r)| + |Body(o, r)|)
  {
    hide ReadOne, ReadBody, StructHeader, Info, GetKind, GetVlen, Members;
    var o := rd.FileOrder();
    var kind := if r.isUnion then KIND_UNION else KIND_STR;
    InfoRoundTrip(kind, |r.members|);
    StructHeaderTurn(rd, r.name, Info(kind, |r.members|), r.size, Body(o, r) + rest);
    ClassReads(rd, r.isUnion, r.name, r.size, r.members, if r.size < FULL then r.size else FULL, rest);
  }

  lemma FtypeReads(rd: Reader, r: Record, pad: seq<Byte>, rest: seq<Byte>)
    requires r.Func? && Widths(r) && Fits(r) && |pad| == PadLen(r)
    ensures var f, b := Fixed(0, KIND_FUNC, |Args(r.params, r.varargs)|, r.ret, r.ret), Body(rd.FileOrder(), r) + pad;
            ReadBody(rd, f, b + rest) == Parsed(Some(Ftype(r.ret, r.params, r.varargs)), |b|)
  {
    hide Flat, ReadArgs, NonZero, Put16;
    var args := Args(r.params, r.varargs);
    NonZeroArgs(r.params, r.varargs);
    ArgsRead(rd, args, pad + rest);
    var body := Body(rd.FileOrder(), r);
    assert body + pad + rest == body + (pad + rest);
    RoundUpIsPad(|args|);
  }

  lemma RoundUpIsPad(n: nat)
    ensures RoundUp4(2 * n) == 2 * n + if n % 2 == 1 then 2 else 0
  {
  }

  lemma EnumerationReads(rd: Reader, name: nat, bits: nat, values: seq<Value>, rest: seq<Byte>)
    requires Widths(Enum(name, bits, values))
    ensures var f, b := Fixed(name, KIND_ENUM, |values|, bits, bits), Flat(values, v => EnumValue(rd.FileOrder(), v));
            ReadBody(rd, f, b + rest) == Parsed(Some(Seen(Enum(name, bits, values))), |b|)
  {
    hide Flat, EnumValue, ReadValues;
    ValuesRead(rd, values, rest);
  }

  /** Whatever follows it, a record that fits is read back and the cursor lands right behind it. */
  lemma RecordReads(rd: Reader, r: Record, pad: seq<Byte>, rest: seq<Byte>)
    requires Widths(r) && Fits(r) && |pad| == PadLen(r)
    ensures var b := Bytes(rd.FileOrder(), r, pad);
            ReadOne(rd, b + rest) == Parsed(Some(Seen(r)), |b|)
  {
    hide ReadOne, ReadBody, ShortHeader, StructHeader, Flat, Info, GetKind, GetVlen, IntEncode, Put16, Put32, Members;
    var o := rd.FileOrder();
    var tail := Body(o, r) + pad + rest;
    assert Bytes(o, r, pad) + rest == Head(o, r) + tail;
    match r
    case Base(name, bits) =>
      InfoRoundTrip(KIND_INT, 0);
      ShortHeaderTurn(rd, name, Info(KIND_INT, 0), bits, tail);
      assert pad == [] && tail == Body(o, r) + rest;
      NumberReads(rd, name, bits, rest);
    case Short(kind, ref, name) =>
      InfoRoundTrip(kind, 0);
      ShortHeaderTurn(rd, name, Info(kind, 0), ref, tail);
      TagReads(rd, r, tail);
    case Array(elem, index, nelems) =>
      InfoRoundTrip(KIND_ARR, 0);
      ShortHeaderTurn(rd, 0, Info(KIND_ARR, 0), 0, tail);
      assert pad == [] && tail == Body(o, r) + rest;
      ArrayReads(rd, elem, index, nelems, rest);
    case Composite(isUnion, name, size, ms, _) =>
      assert pad == [] && tail == Body(o, r) + rest;
      StructTurn(rd, r, rest);
      AsReadExactly(size, ms);
    case Func(ret, params, varargs) =>
      InfoRoundTrip(KIND_FUNC, |Args(params, varargs)|);
      ShortHeaderTurn(rd, 0, Info(KIND_FUNC, |Args(params, varargs)|), ret, tail);
      FtypeReads(rd, r, pad, rest);
    case Enum(name, bits, values) =>
      InfoRoundTrip(KIND_ENUM, |values|);
      ShortHeaderTurn(rd, name, Info(KIND_ENUM, |values|), bits, tail);
      assert pad == [] && tail == Body(o, r) + rest;
      EnumerationReads(rd, name, bits, values, rest);
  }

  lemma TagReads(rd: Reader, r: Record, tail: seq<Byte>)
    requires r.Short? && Widths(r)
    ensures ReadBody(rd, Fixed(r.name, r.kind, 0, r.ref, r.ref), tail) == Parsed(Some(Seen(r)), 0)
  {
  }

  /** The whole section: the same records in order, and not a byte left. */
  lemma {:induction false} SectionReads(rd: Reader, rs: seq<Record>, pads: seq<seq<Byte>>)
    requires Padded(rs, pads) && forall r :: r in rs ==> Widths(r) && Fits(r)
    ensures var buf := Section(rd.FileOrder(), rs, pads);
            ReadAll(rd, buf) == Loaded(SeenAll(rs), |buf|)
    decreases |rs|
  {
    hide ReadOne, Bytes, Seen, Widths, Fits;
    if rs != [] {
      var o := rd.FileOrder();
      var b, rest := Bytes(o, rs[0], pads[0]), Section(o, rs[1..], pads[1..]);
      RecordReads(rd, rs[0], pads[0], rest);
      SectionReads(rd, rs[1..], pads[1..]);
      assert (b + rest)[|b|..] == rest;
      if |rs| > 1 {
        SectionNotEmpty(o, rs[1..], pads[1..]);
      }
      assert SeenAll(rs) == [Some(Seen(rs[0]))] + SeenAll(rs[1..]);
    }
  }

  lemma SectionNotEmpty(o: Order, rs: seq<Record>, pads: seq<seq<Byte>>)
    requires rs != [] && |pads| == |rs|
    ensures |Section(o, rs, pads)| >= 8
  {
    assert |Head(o, rs[0])| >= 8;
  }

  // ----- exactly what fits comes back -----

  /** A read with a bound on how much it can have picked up. */
  lemma CountBound(rd: Reader, buf: seq<Byte>)
    requires ReadOne(rd, buf).Parsed? && ReadOne(rd, buf).entry.Some?
    ensures |buf| >= 8
    ensures var vlen := GetVlen(rd.Get16(buf[4..6]));
            match ReadOne(rd, buf).entry.value
            case Class(_, _, size, ms) => |ms| == vlen && ReadOne(rd, buf).used == HeaderLen(rd, buf) + MemberWidth(size) * vlen
            case Ftype(_, ps, _) => |ps| <= vlen && 0 !in ps
            case Enumeration(_, _, vs) => |vs| == vlen
            case _ => true
  {
    hide Reader.Get16, Reader.Get32, GetKind, GetVlen, NonZero, ShortMemberAt, FullMemberAt, ValueAt;
  }

  /** A size or type of 0xffff in a short header makes the reader expect a full one. */
  lemma FalseFullHeader(rd: Reader, name: nat, info: nat, tail: seq<Byte>)
    requires name < U32 && info < U16
    ensures var buf := ShortHeader(rd.FileOrder(), name, info, FULL) + tail;
            if |tail| < 8 then ReadOne(rd, buf) == Overrun
            else exists size :: ReadOne(rd, buf) ==
                                Advance(ReadBody(rd, Fixed(name, GetKind(info), GetVlen(info), FULL, size), tail[8..]), 16)
  {
    hide ReadBody, ShortHeader, Reader.Get16, Reader.Get32, GetKind, GetVlen;
    var buf := ShortHeader(rd.FileOrder(), name, info, FULL) + tail;
    ShortHeaderReads(rd, name, info, FULL, tail);
    if |tail| >= 8 {
      var f := ReadFixed(rd, buf);
      assert buf[16..] == tail[8..] by {
        SubSlices(buf);
      }
      assert f == Fixed(name, GetKind(info), GetVlen(info), FULL, f.size);
      assert ReadOne(rd, buf) == Advance(ReadBody(rd, f, tail[8..]), 16);
    }
  }

  lemma FalseFullFunc(rd: Reader, r: Record, pad: seq<Byte>)
    requires r.Func? && Widths(r) && r.ret == FULL && |Args(r.params, r.varargs)| <= VLEN_MAX && |pad| == PadLen(r)
    ensures ReadOne(rd, Bytes(rd.FileOrder(), r, pad)) == Overrun
  {
    hide ReadOne, ShortHeader, Flat, Put16, Info, GetKind, GetVlen;
    var o, n := rd.FileOrder(), |Args(r.params, r.varargs)|;
    InfoRoundTrip(KIND_FUNC, n);
    FlatLength(Args(r.params, r.varargs), a => Put16(o, a), 2);
    var tail := Body(o, r) + pad;
    assert Bytes(o, r, pad) == Head(o, r) + tail;
    FalseFullHeader(rd, 0, Info(KIND_FUNC, n), tail);
  }

  lemma FalseFullEnum(rd: Reader, r: Record)
    requires r.Enum? && Widths(r) && r.bits == FULL && |r.values| <= VLEN_MAX
    ensures ReadOne(rd, Bytes(rd.FileOrder(), r, [])) == Overrun
  {
    hide ReadOne, ShortHeader, Flat, EnumValue, Info, GetKind, GetVlen;
    var o, n := rd.FileOrder(), |r.values|;
    InfoRoundTrip(KIND_ENUM, n);
    FlatLength(r.values, v => EnumValue(o, v), 8);
    assert Bytes(o, r, []) == Head(o, r) + Body(o, r);
    FalseFullHeader(rd, r.name, Info(KIND_ENUM, n), Body(o, r));
  }

  /** The length as the reader unpacks it, however long the list was. */
  lemma VlenReads(rd: Reader, name: nat, kind: nat, n: nat, last: nat, tail: seq<Byte>)
    ensures var buf := ShortHeader(rd.FileOrder(), name, Info(kind, n), last) + tail;
            GetVlen(rd.Get16(buf[4..6])) == n % 0x400
  {
    hide Put16, Put32, Reader.Get16, Reader.Get32;
    var o, info := rd.FileOrder(), Info(kind, n);
    SplitShort(Put32(o, name), Put16(o, info), Put16(o, last), tail);
    rd.GetPut16(info);
    assert Pow2(10) == 0x400;
    assert info == Or(2 * kind * 0x400, n);
    OrLow(2 * kind, n, 10);
    assert info % U16 % 0x400 == info % 0x400 by {
      ModOfMod(info);
    }
  }

  lemma ModOfMod(v: nat)
    ensures v % 0x1_0000 % 0x400 == v % 0x400
  {
    var q, r := v / 0x1_0000, v % 0x1_0000;
    ModUnique(v, 0x400, 64 * q + r / 0x400, r % 0x400);
  }

  lemma StructHeaderLen(rd: Reader, name: nat, info: nat, size: nat, tail: seq<Byte>)
    ensures var h := StructHeader(rd.FileOrder(), name, info, size); HeaderLen(rd, h + tail) == |h|
  {
    hide Put16, Put32, Reader.Get16;
    var o, last := rd.FileOrder(), if size < FULL then size else FULL;
    var more := if size < FULL then tail else Put32(o, size / U32) + Put32(o, size % U32) + tail;
    SplitShort(Put32(o, name), Put16(o, info), Put16(o, last), more);
    assert StructHeader(o, name, info, size) + tail == ShortHeader(o, name, info, last) + more;
    rd.GetPut16(last);
  }

  /** Announced members that were not written are not the record's: reading it as it was stops short of its end. */
  lemma ComesShort(rd: Reader, r: Record, pad: seq<Byte>)
    requires r.Composite? && Widths(r) && r.extra > 0 && |pad| == PadLen(r)
    ensures var buf := Bytes(rd.FileOrder(), r, pad); ReadOne(rd, buf) != Parsed(Some(Seen(r)), |buf|)
  {
    hide ReadOne, StructHeader, Info, GetKind, GetVlen, Members, Reader.Get16, Reader.Get32;
    var o := rd.FileOrder();
    var buf, tail := Bytes(o, r, pad), Body(o, r) + pad;
    var kind := if r.isUnion then KIND_UNION else KIND_STR;
    assert buf == Head(o, r) + tail;
    MembersRead(rd, r.size, r.members, pad);
    if ReadOne(rd, buf) == Parsed(Some(Seen(r)), |buf|) {
      CountBound(rd, buf);
      StructHeaderLen(rd, r.name, Info(kind, |r.members| + r.extra), r.size, tail);
    }
  }

  /** What does not fit does not come back. */
  lemma Misread(rd: Reader, r: Record, pad: seq<Byte>)
    requires Widths(r) && !Fits(r) && |pad| == PadLen(r)
    ensures var step := ReadOne(rd, Bytes(rd.FileOrder(), r, pad));
            step.Parsed? ==> step.entry != Some(Seen(r)) || step.used != |Bytes(rd.FileOrder(), r, pad)|
  {
    hide ReadOne, ShortHeader, Flat, Put16, Put32, Info, GetKind, GetVlen, IntEncode, NonZero, Members;
    var o := rd.FileOrder();
    var buf, tail := Bytes(o, r, pad), Body(o, r) + pad;
    assert buf == Head(o, r) + tail;
    if ReadOne(rd, buf).Parsed? && ReadOne(rd, buf).entry.Some? {
      CountBound(rd, buf);
    }
    VlenBound(rd, buf);
    match r
    case Base(name, bits) =>
      InfoRoundTrip(KIND_INT, 0);
      FalseFullHeader(rd, name, Info(KIND_INT, 0), tail);
    case Short(kind, ref, name) =>
      InfoRoundTrip(kind, 0);
      FalseFullHeader(rd, name, Info(kind, 0), tail);
    case Composite(isUnion, name, size, ms, extra) =>
      if extra > 0 {
        ComesShort(rd, r, pad);
      } else if |ms| <= VLEN_MAX {
        StructTurn(rd, r, []);
        assert Body(o, r) + [] == tail;
        AsReadExactly(size, ms);
      }
    case Func(ret, params, varargs) =>
      if |params| == VLEN_MAX && varargs {
        VlenReads(rd, 0, KIND_FUNC, VLEN_MAX + 1, ret, tail);
      } else if ret == FULL && |Args(params, varargs)| <= VLEN_MAX {
        FalseFullFunc(rd, r, pad);
      }
    case Enum(name, bits, values) =>
      if |values| <= VLEN_MAX {
        assert pad == [];
        FalseFullEnum(rd, r);
      }
  }

  lemma VlenBound(rd: Reader, buf: seq<Byte>)
    requires |buf| >= 6
    ensures GetVlen(rd.Get16(buf[4..6])) <= VLEN_MAX
  {
    hide Reader.Get16;
  }

  /** A record comes back, and is all there is, exactly when it fits. */
  lemma RecordRoundTrip(rd: Reader, r: Record, pad: seq<Byte>)
    requires Widths(r) && |pad| == PadLen(r)
    ensures var buf := Bytes(rd.FileOrder(), r, pad);
            ReadAll(rd, buf) == Loaded([Some(Seen(r))], |buf|) <==> Fits(r)
  {
    hide ReadOne, Bytes, Seen, Widths, Fits;
    var buf := Bytes(rd.FileOrder(), r, pad);
    assert |buf| >= 8 by {
      BytesLength(rd.FileOrder(), r, pad);
    }
    if Fits(r) {
      RecordReads(rd, r, pad, []);
      assert buf + [] == buf;
    } else {
      Misread(rd, r, pad);
      if ReadAll(rd, buf) == Loaded([Some(Seen(r))], |buf|) {
        FirstEntry(rd, buf);
      }
    }
  }

  lemma BytesLength(o: Order, r: Record, pad: seq<Byte>)
    ensures |Bytes(o, r, pad)| >= 8
  {
    assert |Head(o, r)| >= 8;
  }

  lemma FirstEntry(rd: Reader, buf: seq<Byte>)
    requires buf != [] && ReadAll(rd, buf).Loaded?
    ensures ReadOne(rd, buf).Parsed? && ReadAll(rd, buf).types != [] && ReadAll(rd, buf).types[0] == ReadOne(rd, buf).entry
  {
    hide ReadOne;
  }
}
