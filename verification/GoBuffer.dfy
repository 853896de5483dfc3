/** A buffer that only grows. */
module GoBuffer {
  import opened CtfBytes

  const BCHUNK: nat := 8192

  /** The size after room up to `next` was asked for. */
  function Grown(size: nat, next: nat): (grown: nat)
    ensures next <= grown && size <= grown
  {
    if next < size then size
    else if size + BCHUNK < next then next + BCHUNK
    else size + BCHUNK
  }

  class Buffer {
    var entries: array<Byte>
    var nrEntries: nat
    var index: nat

    ghost predicate Valid()
      reads this
    {
      index <= entries.Length
    }

    ghost function Contents(): seq<Byte>
      requires Valid()
      reads this, entries
    {
      entries[..index]
    }

    constructor ()
      ensures Valid() && Contents() == [] && nrEntries == 0 && fresh(entries) && entries.Length == 0
    {
      entries := new Byte[0];
      nrEntries, index := 0, 0;
    }

    /** Room for `len` more bytes, whatever is in them; what is there stays, if need be elsewhere. */
    method Allocate(len: nat) returns (rc: nat)
      requires Valid()
      modifies `entries, `index
      ensures Valid() && rc == old(index) && index == rc + len
      ensures Contents()[..rc] == old(Contents()) && (entries == old(entries) || fresh(entries))
      ensures entries.Length == Grown(old(entries.Length), index)
    {
      rc := index;
      var next := index + len;
      if next >= entries.Length {
        var size := entries.Length + BCHUNK;
        if size < next {
          size := next + BCHUNK;
        }
        var grown := new Byte[size];
        for k := 0 to index
          invariant entries == old(entries) && index == rc
          invariant forall j :: 0 <= j < k ==> grown[j] == entries[j]
        {
          grown[k] := entries[k];
        }
        entries := grown;
      }
      index := next;
    }

    /** memcpy to a position; nothing checks that room was made for it. */
    method Put(pos: nat, s: seq<Byte>)
      requires pos + |s| <= entries.Length
      modifies entries
      ensures entries[..] == old(entries[..])[..pos] + s + old(entries[..])[pos + |s|..]
    {
      for k := 0 to |s|
        invariant forall j :: 0 <= j < k ==> entries[pos + j] == s[j]
        invariant forall j :: 0 <= j < entries.Length && !(pos <= j < pos + k) ==> entries[j] == old(entries[j])
      {
        entries[pos + k] := s[k];
      }
    }

    method Add(s: seq<Byte>) returns (rc: nat)
      requires Valid()
      modifies this, entries
      ensures Valid() && rc == old(index) && nrEntries == old(nrEntries) + 1
      ensures Contents() == old(Contents()) + s && (entries == old(entries) || fresh(entries))
      ensures entries.Length == Grown(old(entries.Length), index)
    {
      rc := Allocate(|s|);
      nrEntries := nrEntries + 1;
      ghost var was := entries[..];
      Put(rc, s);
      assert was[..rc] == old(Contents());
    }
  }
}
