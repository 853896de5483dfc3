/** The loader's tables of tags by DWARF offset: 2^bits chains, newest tag first. */
module HashTags {
  import opened Words
  import opened Wrappers

  /**
   Types have a slot in types_table, except unspecified ones; functions one in functions_table; enumerators
   have none, nor have members, unless the CU is known to be C++ by then: while the alternate file is read
   its language is not set yet. Everything else has one in tags_table.
   */
  datatype Kind = Typed | Unspecified | Function | Child | Other

  datatype DTag = DTag(id: nat, smallId: nat, kind: Kind)

  const GOLDEN_RATIO_64: nat := 11400714819323198485

  /** hashtags__fn: the top `bits` bits of a 64-bit product. */
  function Bucket(bits: nat, key: nat): (b: nat)
    requires bits <= 64
    ensures b < Pow2(bits)
  {
    var word := key * GOLDEN_RATIO_64 % WORD;
    Pow2Word(bits + (64 - bits));
    ShiftBound(word, 64 - bits, bits);
    ShiftRight(word, 64 - bits)
  }

  function FirstWith(chain: seq<DTag>, id: nat): Option<DTag> {
    if chain == [] then None
    else if chain[0].id == id then Some(chain[0])
    else FirstWith(chain[1..], id)
  }

  /** What a lookup of `id` finds. Offset 0 is never found. */
  function Found(bits: nat, heads: seq<seq<DTag>>, id: nat): Option<DTag>
    requires bits <= 64 && |heads| == Pow2(bits)
  {
    if id == 0 then None else FirstWith(heads[Bucket(bits, id)], id)
  }

  class HashTable {
    const bits: nat
    const heads: array<seq<DTag>>

    ghost predicate Valid() {
      bits <= 64 && heads.Length == Pow2(bits)
    }

    constructor (bits: nat)
      requires bits <= 64
      ensures Valid() && this.bits == bits && fresh(heads)
      ensures forall b :: 0 <= b < heads.Length ==> heads[b] == []
    {
      this.bits := bits;
      this.heads := new seq<DTag>[Pow2(bits)](_ => []);
    }

    method Hash(tag: DTag)
      requires Valid()
      modifies heads
      ensures var b := Bucket(bits, tag.id);
              heads[..] == old(heads[..])[b := [tag] + old(heads[..])[b]]
    {
      var b := Bucket(bits, tag.id);
      heads[b] := [tag] + heads[b];
    }

    method Find(id: nat) returns (tag: Option<DTag>)
      requires Valid()
      ensures tag == Found(bits, heads[..], id)
    {
      if id == 0 {
        return None;
      }
      var chain := heads[Bucket(bits, id)];
      var pos := 0;
      while pos < |chain|
        invariant 0 <= pos <= |chain|
        invariant FirstWith(chain, id) == FirstWith(chain[pos..], id)
      {
        if chain[pos].id == id {
          return Some(chain[pos]);
        }
        assert chain[pos..][1..] == chain[pos + 1..];
        pos := pos + 1;
      }
      tag := None;
    }

    /** hlist_del: unlink one tag from its chain. */
    method Delete(b: nat, pos: nat)
      requires b < heads.Length && pos < |heads[b]|
      modifies heads
      ensures heads[..] == old(heads[..])[b := old(heads[b])[..pos] + old(heads[b])[pos + 1..]]
    {
      heads[b] := heads[b][..pos] + heads[b][pos + 1..];
    }
  }
}
