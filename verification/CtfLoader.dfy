/** The loader's cursor loop over a CTF type section. */
module CtfLoader {
  import opened Wrappers
  import opened CtfBytes
  import opened CtfRecords
  import opened CtfRoundTrip
  import opened CtfTags
  import CtfWriter

  class Cu {
    const reader: Reader
    /** The entries loaded, in id order from the first id of the section on. */
    var typesTable: seq<Option<Type>>

    constructor (reader: Reader)
      ensures this.reader == reader && typesTable == []
    {
      this.reader := reader;
      typesTable := [];
    }

    /** create_full_members and create_short_members: one turn per member. */
    method CreateMembers(body: seq<Byte>, vlen: nat, full: bool) returns (members: seq<Member>)
      requires (if full then 16 else 8) * vlen <= |body|
      ensures members == if full then ReadFullMembers(reader, body, vlen) else ReadShortMembers(reader, body, vlen)
    {
      hide FullMemberAt, ShortMemberAt;
      members := [];
      for i := 0 to vlen
        invariant |members| == i
        invariant forall k :: 0 <= k < i ==>
                    members[k] == if full then FullMemberAt(reader, body[16 * k..16 * k + 16])
                                  else ShortMemberAt(reader, body[8 * k..8 * k + 8])
      {
        members := members + [if full then FullMemberAt(reader, body[16 * i..16 * i + 16])
                              else ShortMemberAt(reader, body[8 * i..8 * i + 8])];
      }
    }

    method CreateEnumerators(body: seq<Byte>, vlen: nat) returns (values: seq<Value>)
      requires 8 * vlen <= |body|
      ensures values == ReadValues(reader, body, vlen)
    {
      hide ValueAt;
      values := [];
      for i := 0 to vlen
        invariant |values| == i && forall k :: 0 <= k < i ==> values[k] == ValueAt(reader, body[8 * k..8 * k + 8])
      {
        values := values + [ValueAt(reader, body[8 * i..8 * i + 8])];
      }
    }

    /** ctf__load_ftype: a zero among the parameter types stands for the ellipsis. */
    method LoadFtype(body: seq<Byte>, vlen: nat) returns (params: seq<nat>, unspec: bool)
      requires 2 * vlen <= |body|
      ensures params == NonZero(ReadArgs(reader, body, vlen)) && (unspec <==> 0 in ReadArgs(reader, body, vlen))
    {
      hide Reader.Get16, NonZero;
      ghost var args := ReadArgs(reader, body, vlen);
      params, unspec := [], false;
      NonZeroNone();
      for i := 0 to vlen
        invariant params == NonZero(args[..i]) && (unspec <==> 0 in args[..i])
      {
        NonZeroStep(args, i);
        var ref := reader.Get16(body[2 * i..2 * i + 2]);
        if ref == 0 {
          unspec := true;
        } else {
          params := params + [ref];
        }
      }
      assert args[..vlen] == args;
    }

    static lemma NonZeroNone()
      ensures NonZero([]) == []
    {
    }

    static lemma NonZeroStep(args: seq<nat>, i: nat)
      requires i < |args|
      ensures args[..i + 1] == args[..i] + [args[i]]
      ensures NonZero(args[..i + 1]) == NonZero(args[..i]) + if args[i] == 0 then [] else [args[i]]
    {
      assert args[..i + 1][..i] == args[..i];
    }

    /** What follows the header; each kind says how far it reached. */
    method CreateNew(f: Fixed, body: seq<Byte>) returns (step: Step)
      ensures step == ReadBody(reader, f, body)
    {
      hide ReadFullMembers, ReadShortMembers, ReadValues, ReadArgs, NonZero, Reader.Get16, Reader.Get32;
      if f.kind == KIND_FUNC && |body| >= 2 * f.vlen {
        var params, unspec := LoadFtype(body, f.vlen);
        return Parsed(Some(Ftype(f.last, params, unspec)), RoundUp4(2 * f.vlen));
      }
      if f.kind in {KIND_STR, KIND_UNION} {
        var full := f.size >= SHORT_MEMBER_LIMIT;
        var memberSize := if full then 16 else 8;
        if |body| < memberSize * f.vlen {
          return Overrun;
        }
        var members := CreateMembers(body, f.vlen, full);
        return Parsed(Some(Class(f.kind == KIND_UNION, f.name, f.size, members)), memberSize * f.vlen);
      }
      if f.kind == KIND_ENUM && |body| >= 8 * f.vlen {
        var values := CreateEnumerators(body, f.vlen);
        var bits := f.size % U16;
        return Parsed(Some(Enumeration(f.name, if bits == 0 then 32 else bits, values)), 8 * f.vlen);
      }
      step := ReadBody(reader, f, body);
    }

    /**
     ctf__load_types, from the type section to its end. The original checks no bounds: where it
     would read past the end, `PastEnd` is the answer here.
     */
    method LoadTypes(buf: seq<Byte>) returns (result: Result)
      requires typesTable == []
      modifies this
      ensures result == ReadAll(reader, buf)
      ensures result.Loaded? ==> typesTable == result.types
    {
      hide ReadBody, ReadFixed, HeaderLen, Reader.Get16, Reader.Get32, ReadOne;
      var pos := 0;
      while pos < |buf|
        invariant ReadAll(reader, buf) == (if pos >= |buf| then Loaded(typesTable, pos)
                                           else Resume(typesTable, pos, ReadAll(reader, buf[pos..])))
        decreases |buf| - pos
      {
        var rest := buf[pos..];
        assert rest != [] && buf[pos..] == rest;
        var step := Turn(rest);
        match step {
          case BadKind => return Invalid;
          case Overrun => return PastEnd;
          case Parsed(t, used) =>
            ResumeTurn(typesTable, pos, rest, t, used);
            assert used < |rest| ==> rest[used..] == buf[pos + used..];
            typesTable := typesTable + [t];
            pos := pos + used;
        }
      }
      result := Loaded(typesTable, pos);
    }

    method Turn(rest: seq<Byte>) returns (step: Step)
      ensures step == ReadOne(reader, rest)
    {
      hide ReadBody, ReadFixed, Reader.Get16, Reader.Get32;
      if |rest| < 8 || |rest| < HeaderLen(reader, rest) {
        return Overrun;
      }
      var h := HeaderLen(reader, rest);
      step := CreateNew(ReadFixed(reader, rest), rest[h..]);
      step := Advance(step, h);
    }

    /** What was read before, and then the outcome of the rest. */
    static ghost function Resume(before: seq<Option<Type>>, pos: nat, rest: Result): Result {
      match rest
      case Loaded(types, end) => Loaded(before + types, pos + end)
      case other => other
    }

    static lemma Associative<T>(a: seq<T>, b: seq<T>, c: seq<T>)
      ensures (a + b) + c == a + (b + c)
    {
    }

    lemma ResumeTurn(before: seq<Option<Type>>, pos: nat, rest: seq<Byte>, t: Option<Type>, used: nat)
      requires rest != [] && ReadOne(reader, rest) == Parsed(t, used)
      ensures Resume(before, pos, ReadAll(reader, rest)) ==
              if used >= |rest| then Loaded(before + [t], pos + used)
              else Resume(before + [t], pos + used, ReadAll(reader, rest[used..]))
    {
      hide ReadAll, ReadOne;
      ReadAllTurn(rest, t, used);
      if used < |rest| && ReadAll(reader, rest[used..]).Loaded? {
        Associative(before, [t], ReadAll(reader, rest[used..]).types);
      }
    }

    lemma ReadAllTurn(rest: seq<Byte>, t: Option<Type>, used: nat)
      requires rest != [] && ReadOne(reader, rest) == Parsed(t, used)
      ensures ReadAll(reader, rest) ==
              if used >= |rest| then Loaded([t], used) else Resume([t], used, ReadAll(reader, rest[used..]))
    {
      hide ReadOne;
    }
  }

  /** Written, then read: the records come back in order, whatever the byte order of either host. */
  method WriteThenRead(reader: Reader, tags: seq<TypeTag>) returns (types: seq<Option<Type>>)
    requires AllFormed(tags) && forall t :: t in tags ==> Countable(t) && HasRoom(t)
    requires forall r :: r in AsRecords(tags) ==> Widths(r) && Fits(r)
    ensures types == SeenAll(AsRecords(tags))
  {
    hide Widths, Fits, Seen, ReadAll, Section, AllFormed, AsRecord, HasRoom, Countable, Laid;
    var ctf := new CtfWriter.Ctf(reader.FileOrder());
    var ok, ids;
    ghost var pads;
    ok, ids, pads := ctf.EncodeAll(tags);
    LaidIsSection(reader.FileOrder(), tags, pads);
    SectionReads(reader, AsRecords(tags), pads);
    var cu := new Cu(reader);
    var buf := ctf.types.entries[..ctf.types.index];
    assert buf == Section(reader.FileOrder(), AsRecords(tags), pads);
    var result := cu.LoadTypes(buf);
    types := cu.typesTable;
  }

  /** A struct of four bytes with nothing but `n` static members. */
  function Statics(n: nat): TypeTag {
    StructTag(false, 1, 4, seq(n, _ => Data(true, Member(2, 3, 0))))
  }

  lemma {:induction false} StaticsCount(n: nat)
    ensures |DataMembers(Statics(n).children)| == n && NrMembers(Statics(n).children) == 0
  {
    if n > 0 {
      StaticsCount(n - 1);
      assert Statics(n).children[..n - 1] == Statics(n - 1).children;
    }
  }

  /** One static member is written behind the record, and does not come back. */
  method StaticMemberLost(reader: Reader) returns (types: seq<Option<Type>>)
    ensures types == [Some(Class(false, 1, 4, []))] && |DataMembers(Statics(1).children)| == 1
  {
    hide ReadAll, Bytes, CtfWriter.Ctf.InBuffer;
    StaticsCount(1);
    var t := Statics(1);
    var ctf := new CtfWriter.Ctf(reader.FileOrder());
    ghost var r := Composite(false, 1, 4, [], 0);
    assert AsRecord(t) == r;
    AtStart(ctf, 1);
    var ok, id;
    ghost var pad;
    ok, id, pad := ctf.Encode(t, 1);
    RecordRoundTrip(reader, r, pad);
    var cu := new Cu(reader);
    var buf := ctf.types.entries[..ctf.types.index];
    assert buf == Bytes(reader.FileOrder(), r, pad);
    var _ := cu.LoadTypes(buf);
    types := cu.typesTable;
  }

  /** 1024 of them go beyond the buffer. */
  method StaticMembersOverflow(order: Order) returns (ok: bool)
    ensures !ok
  {
    StaticsCount(1024);
    var t := Statics(1024);
    var ctf := new CtfWriter.Ctf(order);
    AtStart(ctf, 1024);
    var id;
    ghost var pad;
    ok, id, pad := ctf.Encode(t, 1);
  }

  lemma AtStart(ctf: CtfWriter.Ctf, n: nat)
    requires ctf.types.index == ctf.types.entries.Length == 0
    ensures ctf.InBuffer(Statics(n)) <==> 8 + 8 * n <= 8192
  {
    StaticsCount(n);
  }

  /** A tag without a form takes no id: the enumeration behind it, entry 2 of the table, gets id 1. */
  method DriftExample(order: Order) returns (ids: seq<nat>)
    ensures ids == [0, 1]
  {
    hide Laid, Part;
    var tags := [NoForm, EnumTag(1, 32, [Enumerator(Value(2, 3))])];
    assert tags[..0] == [] && tags[..1] == [NoForm] && [NoForm][..0] == [];
    var ctf := new CtfWriter.Ctf(order);
    var ok;
    ghost var pads;
    ok, ids, pads := ctf.EncodeAll(tags);
    assert ids == [ids[0], ids[1]];
  }
}
