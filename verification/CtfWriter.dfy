/** Adding type records to a CTF file under construction. */
module CtfWriter {
  import opened CtfBytes
  import opened CtfRecords
  import opened CtfTags
  import GoBuffer

  lemma TailOf<T>(a: seq<T>, b: seq<T>, i: nat, j: nat)
    requires i <= j <= |a| == |b| && a[i..] == b[i..]
    ensures a[j..] == b[j..]
  {
    assert a[j..] == a[i..][j - i..] && b[j..] == b[i..][j - i..];
  }

  /** What putting `s` at `pos` makes of the bytes. */
  lemma PutInto<T>(was: seq<T>, pos: nat, s: seq<T>, now: seq<T>)
    requires pos + |s| <= |was| && now == was[..pos] + s + was[pos + |s|..]
    ensures |now| == |was| && now[..pos + |s|] == was[..pos] + s && now[pos + |s|..] == was[pos + |s|..]
  {
  }

  class Ctf {
    const order: Order
    const types: GoBuffer.Buffer
    var typeIndex: nat

    ghost function Contents(): seq<Byte>
      requires types.Valid()
      reads types, types.entries
    {
      types.Contents()
    }

    /** The bytes of the buffer, those beyond its contents included. */
    ghost function Raw(): (r: seq<Byte>)
      reads types, types.entries
      ensures |r| == types.entries.Length
    {
      types.entries[..]
    }

    constructor (order: Order)
      ensures types.Valid() && Contents() == [] && Raw() == [] && typeIndex == 0 && this.order == order
      ensures fresh(types) && fresh(types.entries)
    {
      this.order := order;
      types := new GoBuffer.Buffer();
      typeIndex := 0;
    }

    /** A record without a variable part. */
    method AddFixed(r: Record) returns (id: nat)
      requires types.Valid() && (r.Base? || r.Short? || r.Array?)
      modifies this, types, types.entries
      ensures types.Valid() && Contents() == old(Contents()) + Bytes(order, r, [])
      ensures id == typeIndex == old(typeIndex) + 1 && (types.entries == old(types.entries) || fresh(types.entries))
    {
      hide ShortHeader, Put16, Put32, Info, IntEncode;
      var _ := types.Add(Head(order, r) + Body(order, r));
      assert Bytes(order, r, []) == Head(order, r) + Body(order, r);
      typeIndex := typeIndex + 1;
      id := typeIndex;
    }

    /** A header, and room for a variable part of `len` bytes at `position`. */
    method AddHeader(header: seq<Byte>, len: nat) returns (id: nat, position: nat)
      requires types.Valid()
      modifies this, types, types.entries
      ensures types.Valid() && position == old(types.index) + |header| && types.index == position + len
      ensures Raw()[..position] == old(Contents()) + header
      ensures |Raw()| == GoBuffer.Grown(GoBuffer.Grown(old(|Raw()|), position), position + len)
      ensures id == typeIndex == old(typeIndex) + 1 && (types.entries == old(types.entries) || fresh(types.entries))
    {
      var _ := types.Add(header);
      ghost var start := Contents();
      position := types.Allocate(len);
      assert Raw()[..position] == Contents()[..position] == start;
      typeIndex := typeIndex + 1;
      id := typeIndex;
    }

    /** Write at the position and move it on; what is before and behind it stays. */
    method PutNext(piece: seq<Byte>, position: nat) returns (next: nat)
      requires position + |piece| <= |Raw()|
      modifies types.entries
      ensures next == position + |piece| && |Raw()| == old(|Raw()|)
      ensures Raw()[..next] == old(Raw())[..position] + piece && Raw()[next..] == old(Raw())[next..]
    {
      PutInto(Raw(), position, piece, Raw()[..position] + piece + Raw()[position + |piece|..]);
      types.Put(position, piece);
      next := position + |piece|;
    }

    /** The parameter loop: ctf__add_parameter at the moving position. */
    method PutParameters(params: seq<nat>, position: nat) returns (next: nat)
      requires position + 2 * |params| <= |Raw()|
      modifies types.entries
      ensures next == position + 2 * |params| && |Raw()| == old(|Raw()|)
      ensures Raw()[..next] == old(Raw())[..position] + Flat(params, a => Put16(order, a)) && Raw()[next..] == old(Raw())[next..]
    {
      hide Flat, Put16;
      ghost var was, f := Raw(), a => Put16(order, a);
      next := position;
      NothingYet(f, was[..position]);
      for k := 0 to |params|
        invariant next == position + 2 * k <= |was| == |Raw()|
        invariant Raw()[..next] == was[..position] + Flat(params[..k], f) && Raw()[next..] == was[next..]
      {
        FlatStep(params, k, f, was[..position]);
        ghost var before := Raw();
        next := PutNext(Put16(order, params[k]), next);
        TailOf(before, was, next - 2, next);
      }
      assert params[..|params|] == params;
    }

    static lemma NothingYet<T>(f: T -> seq<Byte>, start: seq<Byte>)
      ensures start + Flat([], f) == start
    {
    }

    static lemma NoMembers(o: Order, size: nat, start: seq<Byte>)
      ensures start + Members(o, size, []) == start
    {
    }

    /**
     The loop over the data members. It does not ask how much room there is: members beyond it go behind the
     contents, and not ok means that they go beyond the buffer.
     */
    method PutMembers(size: nat, children: seq<Child>, position: nat) returns (ok: bool, next: nat)
      requires position <= |Raw()|
      modifies types.entries
      ensures |Raw()| == old(|Raw()|)
      ensures ok <==> position + MemberWidth(size) * |DataMembers(children)| <= |Raw()|
      ensures ok ==> next == position + MemberWidth(size) * |DataMembers(children)|
      ensures ok ==> Raw()[..next] == old(Raw())[..position] + Members(order, size, DataMembers(children))
      ensures ok ==> Raw()[next..] == old(Raw())[next..]
    {
      hide MemberBytes, Members, MemberWidth;
      ghost var was := Raw();
      var width := MemberWidth(size);
      next := position;
      NoMembers(order, size, was[..position]);
      for k := 0 to |children|
        invariant next == position + width * |DataMembers(children[..k])| <= |was| == |Raw()|
        invariant Raw()[..next] == was[..position] + Members(order, size, DataMembers(children[..k])) && Raw()[next..] == was[next..]
      {
        assert children[..k + 1][..k] == children[..k];
        if children[k].Data? {
          ghost var front := DataMembers(children[..k]);
          var m := children[k].member;
          DataGrow(children, k + 1);
          RoomFor(width, |front|, |DataMembers(children)|);
          if next + width > types.entries.Length {
            return false, next;
          }
          MembersStep(order, size, front, m, was[..position]);
          ghost var before := Raw();
          next := PutNext(MemberBytes(order, size, m), next);
          TailOf(before, was, next - width, next);
        }
      }
      assert children[..|children|] == children;
      ok := true;
    }

    /** Do the members stay inside the buffer? */
    ghost predicate InBuffer(t: TypeTag)
      requires t.StructTag?
      reads types
    {
      var at, width := types.index + |Head(order, AsRecord(t))|, MemberWidth(t.size);
      at + width * |DataMembers(t.children)| <=
      GoBuffer.Grown(GoBuffer.Grown(types.entries.Length, at), at + width * NrMembers(t.children))
    }

    /**
     structure_type__encode. Room is made for nr_members; the loop, which only starts when the id is the table
     index, writes the data members. The record ends up with those there is room for; not ok means that the
     rest would go beyond the buffer, which takes more data members than announced.
     */
    method StructureTypeEncode(t: TypeTag, coreId: nat) returns (ok: bool, id: nat, ghost pad: seq<Byte>)
      requires types.Valid() && t.StructTag? && Countable(t)
      modifies this, types, types.entries
      ensures types.Valid() && (types.entries == old(types.entries) || fresh(types.entries))
      ensures id == typeIndex == old(typeIndex) + 1
      ensures ok <==> id != coreId || old(InBuffer(t))
      ensures HasRoom(t) ==> old(InBuffer(t))
      ensures ok ==> |pad| == PadFor(t, id != coreId) && Contents() == old(Contents()) + Part(order, t, id != coreId, pad)
    {
      hide StructHeader, Info, Members, Head, MemberWidth, Countable, GoBuffer.Grown, Bytes;
      var nr := CountMembers(t.children);
      var width, header := MemberWidth(t.size), StructHeader(order, t.name, Info(if t.isUnion then KIND_UNION else KIND_STR, nr), t.size);
      HeadOf(order, t, header, nr);
      ghost var before := Contents();
      var position;
      id, position := AddHeader(header, width * nr);
      Scaled(width, |DataMembers(t.children)|, nr);
      if id != coreId {
        ok, pad := true, Raw()[position..types.index];
        assert Contents() == Raw()[..position] + pad;
        assert before + header + pad == before + (header + pad);
        return;
      }
      ok, position := PutMembers(t.size, t.children, position);
      pad := [];
      if ok {
        ghost var ms := DataMembers(t.children);
        MembersPrefix(order, t.size, ms, if nr < |ms| then nr else |ms|);
        pad := RoomFilled(order, t, before, header, Raw(), types.index);
      }
    }

    static lemma HeadOf(o: Order, t: TypeTag, header: seq<Byte>, nr: nat)
      requires t.StructTag? && nr == NrMembers(t.children)
      requires header == StructHeader(o, t.name, Info(if t.isUnion then KIND_UNION else KIND_STR, nr), t.size)
      ensures header == Head(o, AsRecord(t)) && MemberWidth(t.size) > 0
    {
    }

    static lemma Scaled(width: nat, n: nat, nr: nat)
      requires width > 0
      ensures width * n <= width * nr <==> n <= nr
      ensures width * nr - width * n == width * (nr - n)
    {
      if n > nr {
        RoomFor(width, nr, n);
      }
    }

    /** The contents after the loop: the room is filled, or its rest left to chance. */
    static lemma RoomFilled(o: Order, t: TypeTag, before: seq<Byte>, header: seq<Byte>, raw: seq<Byte>, end: nat) returns (pad: seq<Byte>)
      requires t.StructTag? && header == Head(o, AsRecord(t))
      requires var ms, at, width := DataMembers(t.children), |before| + |header|, MemberWidth(t.size);
               && |Members(o, t.size, ms)| == width * |ms| && end == at + width * NrMembers(t.children) <= |raw|
               && at + width * |ms| <= |raw| && raw[..at + width * |ms|] == before + header + Members(o, t.size, ms)
      requires var ms, nr, width := DataMembers(t.children), NrMembers(t.children), MemberWidth(t.size);
               && (width * |ms| <= width * nr <==> |ms| <= nr) && width * nr - width * |ms| == width * (nr - |ms|)
               && (nr < |ms| ==> Members(o, t.size, ms)[..width * nr] == Members(o, t.size, ms[..nr]))
      ensures |pad| == PadLen(AsRecord(t)) && raw[..end] == before + Bytes(o, AsRecord(t), pad)
    {
      hide Members, Head, MemberWidth;
      var ms, nr, width := DataMembers(t.children), NrMembers(t.children), MemberWidth(t.size);
      var at, members := |before| + |header|, Members(o, t.size, ms);
      var next := at + width * |ms|;
      if |ms| <= nr {
        pad := raw[next..end];
        assert raw[..end] == raw[..next] + pad;
        assert before + header + members + pad == before + (header + members + pad);
      } else {
        pad := [];
        assert raw[..end] == raw[..next][..end] == before + header + members[..width * nr];
        assert before + header + members[..width * nr] == before + (header + members[..width * nr] + pad);
      }
    }

    /** nr_members, counted up as the members are added to the type. */
    static method CountMembers(children: seq<Child>) returns (nr: nat)
      ensures nr == NrMembers(children)
    {
      nr := 0;
      for k := 0 to |children|
        invariant nr == NrMembers(children[..k])
      {
        assert children[..k + 1][..k] == children[..k];
        match children[k] {
          case Data(isStatic, _) => nr := if isStatic then nr else nr + 1;
          case BaseClass => nr := nr + 1;
          case OtherChild =>
        }
      }
      assert children[..|children|] == children;
    }

    /** The loop over an enumeration's children: what is no enumerator is passed over. */
    method PutEnumerators(entries: seq<EnumChild>, position: nat) returns (next: nat)
      requires position + 8 * |Enumerators(entries)| <= |Raw()|
      modifies types.entries
      ensures next == position + 8 * |Enumerators(entries)| && |Raw()| == old(|Raw()|)
      ensures Raw()[..next] == old(Raw())[..position] + Flat(Enumerators(entries), v => EnumValue(order, v))
    {
      hide Flat, EnumValue;
      ghost var start, f := Raw()[..position], v => EnumValue(order, v);
      next := position;
      NothingYet(f, start);
      for k := 0 to |entries|
        invariant |Raw()| == old(|Raw()|) && |Enumerators(entries[..k])| <= |Enumerators(entries)|
        invariant next == position + 8 * |Enumerators(entries[..k])|
        invariant Raw()[..next] == start + Flat(Enumerators(entries[..k]), f)
      {
        assert entries[..k + 1][..k] == entries[..k];
        EnumeratorsGrow(entries, k + 1);
        if entries[k].Enumerator? {
          var v := entries[k].value;
          ghost var front := Enumerators(entries[..k]);
          assert (front + [v])[..|front|] == front && (front + [v])[..|front| + 1] == front + [v];
          FlatStep(front + [v], |front|, f, start);
          next := PutNext(EnumValue(order, v), next);
        }
      }
      assert entries[..|entries|] == entries;
    }

    /** enumeration_type__encode: what is no enumerator is neither counted nor written. */
    method EnumerationTypeEncode(t: TypeTag, coreId: nat) returns (id: nat, ghost pad: seq<Byte>)
      requires types.Valid() && t.EnumTag? && Countable(t)
      modifies this, types, types.entries
      ensures types.Valid() && (types.entries == old(types.entries) || fresh(types.entries))
      ensures id == typeIndex == old(typeIndex) + 1
      ensures |pad| == PadFor(t, id != coreId) && Contents() == old(Contents()) + Part(order, t, id != coreId, pad)
    {
      hide ShortHeader, EnumValue, Info, Flat;
      var nr := |Enumerators(t.entries)|;
      var header, position := ShortHeader(order, t.name, Info(KIND_ENUM, nr), t.bits), 0;
      ghost var before := Contents();
      id, position := AddHeader(header, 8 * nr);
      pad := [];
      if id != coreId {
        pad := Raw()[position..types.index];
        assert Contents() == Raw()[..position] + pad;
        assert before + header + pad == before + (header + pad);
        return;
      }
      position := PutEnumerators(t.entries, position);
      ghost var body := Flat(Enumerators(t.entries), v => EnumValue(order, v));
      assert before + header + body == before + (header + body + []);
    }

    /** The rounded length of `n` parameter types. */
    static function ArgsLength(n: nat): nat {
      var len := 2 * n;
      if len % 4 / 2 == 1 then len + 2 else len
    }

    static lemma ArgsLengthIs(n: nat)
      ensures ArgsLength(n) == 2 * n + if n % 2 == 1 then 2 else 0
    {
    }

    /** Header and room for the parameters; an ellipsis is noted behind them at once. */
    method AddFunctionType(r: Record) returns (id: nat, position: nat)
      requires types.Valid() && r.Func? && Countable(PlainTag(r))
      modifies this, types, types.entries
      ensures types.Valid() && position == old(types.index) + 8
      ensures types.index == position + 2 * |Args(r.params, r.varargs)| + PadLen(r)
      ensures Raw()[..position] == old(Contents()) + Head(order, r)
      ensures r.varargs ==> Raw()[position + 2 * |r.params|..][..2] == Put16(order, 0)
      ensures id == typeIndex == old(typeIndex) + 1 && (types.entries == old(types.entries) || fresh(types.entries))
    {
      hide ShortHeader, Put16, Info, ArgsLength;
      var n := |r.params| + if r.varargs then 1 else 0;
      ArgsLengthIs(n);
      id, position := AddHeader(Head(order, r), ArgsLength(n));
      if r.varargs {
        ghost var was := Raw();
        var end := position + 2 * |r.params|;
        var _ := PutNext(Put16(order, 0), end);
        assert Raw()[..position] == Raw()[..end + 2][..position] == was[..position];
        assert Raw()[end..][..2] == Raw()[..end + 2][end..];
      }
    }

    /** Rounding up to four bytes leaves a gap nobody writes to; with another id, neither are the parameters. */
    method SubroutineTypeEncode(r: Record, coreId: nat) returns (id: nat, ghost pad: seq<Byte>)
      requires types.Valid() && r.Func? && Countable(PlainTag(r))
      modifies this, types, types.entries
      ensures types.Valid() && (types.entries == old(types.entries) || fresh(types.entries))
      ensures id == typeIndex == old(typeIndex) + 1
      ensures |pad| == PadFor(PlainTag(r), id != coreId)
      ensures Contents() == old(Contents()) + Part(order, PlainTag(r), id != coreId, pad)
    {
      hide ShortHeader, Put16, Info, Flat, Bytes, Head, Countable;
      ghost var before := Contents();
      var position;
      id, position := AddFunctionType(r);
      if id != coreId {
        pad := Raw()[position..types.index];
        assert Contents() == Raw()[..position] + pad;
        assert before + Head(order, r) + pad == before + (Head(order, r) + pad);
        return;
      }
      ghost var was := Raw();
      position := PutParameters(r.params, position);
      pad := ArgsFilled(r, order, before, was, Raw(), position, types.index);
    }

    /** The contents after the loop: what was behind the parameters is still there. */
    static lemma ArgsFilled(r: Record, o: Order, before: seq<Byte>, was: seq<Byte>, raw: seq<Byte>, next: nat, end: nat) returns (pad: seq<Byte>)
      requires r.Func? && next <= end <= |was| == |raw| && next == |before| + |Head(o, r)| + 2 * |r.params|
      requires end == |before| + |Head(o, r)| + 2 * |Args(r.params, r.varargs)| + PadLen(r)
      requires raw[next..] == was[next..] && (r.varargs ==> was[next..][..2] == Put16(o, 0))
      requires raw[..next] == before + Head(o, r) + Flat(r.params, a => Put16(o, a))
      ensures |pad| == PadLen(r) && raw[..end] == before + Bytes(o, r, pad)
    {
      hide Put16, Flat, Bytes, Head;
      var rest, args := raw[next..end], Flat(r.params, a => Put16(o, a));
      assert rest == raw[next..][..end - next] == was[next..][..end - next];
      assert r.varargs ==> rest[..2] == was[next..][..2];
      pad := if r.varargs then rest[2..] else rest;
      ArgsBytes(r, o, rest, pad);
      assert raw[..end] == raw[..next] + rest;
      assert before + Head(o, r) + args + rest == before + (Head(o, r) + args + rest);
    }

    static lemma ArgsBytes(r: Record, order: Order, rest: seq<Byte>, pad: seq<Byte>)
      requires r.Func?
      requires if r.varargs then |rest| >= 2 && rest[..2] == Put16(order, 0) && pad == rest[2..] else pad == rest
      ensures Bytes(order, r, pad) == Head(order, r) + Flat(r.params, a => Put16(order, a)) + rest
    {
      hide ShortHeader, Put16, Info;
      var args, f := Args(r.params, r.varargs), a => Put16(order, a);
      if r.varargs {
        assert args[..|args| - 1] == r.params;
        assert rest == rest[..2] + rest[2..];
        assert Flat(args, f) == Flat(r.params, f) + Put16(order, 0);
      } else {
        assert args == r.params;
      }
    }

    /** tag__encode_ctf: at most one record, its id the number of records so far; 0 stands for no id. */
    method Encode(t: TypeTag, coreId: nat) returns (ok: bool, id: nat, ghost pad: seq<Byte>)
      requires types.Valid() && Countable(t)
      modifies this, types, types.entries
      ensures types.Valid() && (types.entries == old(types.entries) || fresh(types.entries))
      ensures typeIndex == old(typeIndex) + (if t.NoForm? then 0 else 1) && id == (if t.NoForm? then 0 else typeIndex)
      ensures ok <==> !t.StructTag? || id != coreId || old(InBuffer(t))
      ensures t.StructTag? && HasRoom(t) ==> old(InBuffer(t))
      ensures var drifted := old(typeIndex) + 1 != coreId;
              ok ==> |pad| == PadFor(t, drifted) && Contents() == old(Contents()) + Part(order, t, drifted, pad)
    {
      hide Bytes, Head;
      ok, pad := true, [];
      match t {
        case StructTag(_, _, _, _) => ok, id, pad := StructureTypeEncode(t, coreId);
        case EnumTag(_, _, _) => id, pad := EnumerationTypeEncode(t, coreId);
        case PlainTag(r) =>
          if r.Func? {
            id, pad := SubroutineTypeEncode(r, coreId);
          } else {
            id := AddFixed(r);
          }
        case NoForm =>
          id := 0;
          assert Contents() + [] == Contents();
      }
    }

    /**
     All tags of a CU, in table order. A tag gets its table index as id exactly when none before it lacks a form;
     from the first one that does, the variable parts of all records are left unwritten.
     */
    method EncodeAll(ts: seq<TypeTag>) returns (ok: bool, ids: seq<nat>, ghost pads: seq<seq<Byte>>)
      requires types.Valid() && typeIndex == 0 && forall t :: t in ts ==> Countable(t)
      modifies this, types, types.entries
      ensures types.Valid() && ((forall t :: t in ts ==> HasRoom(t)) ==> ok)
      ensures ok ==> PadsFor(ts, pads) && Contents() == old(Contents()) + Laid(order, ts, pads)
      ensures ok ==> IdsFor(ts, ids) && typeIndex == Ids(ts)
    {
      hide Part, PadFor, Countable, HasRoom, AllFormed, Ids, IdsFor, Laid, PadsFor, InBuffer;
      ids, pads := [], [];
      NothingLaid(order, Contents());
      for k := 0 to |ts|
        invariant types.Valid() && (types.entries == old(types.entries) || fresh(types.entries))
        invariant |ids| == |pads| == k && typeIndex == Ids(ts[..k])
        invariant PadsFor(ts[..k], pads) && Contents() == old(Contents()) + Laid(order, ts[..k], pads)
        invariant IdsFor(ts[..k], ids)
      {
        assert ts[k] in ts;
        IdsKeepUp(ts[..k]);
        OneMoreId(ts[..k], ts[k], ids);
        assert ts[..k + 1] == ts[..k] + [ts[k]];
        ghost var before := Contents();
        var id;
        ghost var pad;
        ok, id, pad := Encode(ts[k], k + 1);
        if !ok {
          return;
        }
        LaidStep(order, ts[..k], pads, ts[k], pad);
        Joined(old(Contents()), Laid(order, ts[..k], pads), Part(order, ts[k], !AllFormed(ts[..k]), pad));
        ids, pads := ids + [id], pads + [pad];
      }
      assert ts[..|ts|] == ts;
      ok := true;
    }

    static lemma NothingLaid(o: Order, start: seq<Byte>)
      ensures PadsFor([], []) && IdsFor([], []) && Ids([]) == 0 && start + Laid(o, [], []) == start
    {
    }

    static lemma OneMoreId(ts: seq<TypeTag>, t: TypeTag, ids: seq<nat>)
      ensures Ids(ts + [t]) == Ids(ts) + if t.NoForm? then 0 else 1
      ensures IdsFor(ts, ids) ==> IdsFor(ts + [t], ids + [if t.NoForm? then 0 else Ids(ts) + 1])
    {
      hide Ids, AllFormed;
      IdsKeepUp(ts);
      IdsStep(ts, t);
      assert forall k :: 0 <= k < |ts| ==> (ts + [t])[..k] == ts[..k];
      assert (ts + [t])[..|ts|] == ts;
    }

    static lemma Joined<T>(a: seq<T>, b: seq<T>, c: seq<T>)
      ensures a + b + c == a + (b + c)
    {
    }
  }
}
