/**
 Where a bitfield lives, from its three encodings: DWARF 4 DW_AT_bit_offset, DWARF 5
 DW_AT_data_bit_offset (section 5.7.6 of DWARF 5) and the BTF bit offset.
 */
module Bitfields {
  import Words

  /** Position of a bitfield: its storage unit's byte offset, its offset in the unit, its offset in the struct. */
  datatype Place = Place(byteOffset: int, bitfieldOffset: int, bitOffset: int)

  /** The bitfield that starts `start` bits into a struct, in its naturally aligned unit of `unit` bytes. */
  function NormalPlace(start: int, unit: nat): Place
    requires unit > 0
  {
    Place(start / (8 * unit) * unit, start % (8 * unit), start)
  }

  /** Unit aligned, field starts inside its unit, and the three numbers fit together. */
  predicate Normalised(p: Place, unit: nat)
    requires unit > 0
  {
    && p.byteOffset % unit == 0 && 0 <= p.bitfieldOffset < 8 * unit
    && p.bitOffset == 8 * p.byteOffset + p.bitfieldOffset
  }

  lemma DivMod(x: int, d: int)
    requires d > 0
    ensures x == x / d * d + x % d && 0 <= x % d < d
  {
  }

  lemma SmallMultiple(k: int, d: int)
    requires d > 0 && -d < k * d < d
    ensures k == 0
  {
  }

  /** Quotient and remainder are what they are. */
  lemma DivUnique(x: int, d: int, q: int, r: int)
    requires d > 0 && x == q * d + r && 0 <= r < d
    ensures x / d == q && x % d == r
  {
    DivMod(x, d);
    assert (x / d - q) * d == r - x % d;
    SmallMultiple(x / d - q, d);
  }

  lemma EightUnits(q: int, unit: nat)
    ensures q * (8 * unit) == 8 * (q * unit) && q * (8 * unit) / 8 == q * unit
  {
    assert q * (8 * unit) == 8 * (q * unit);
  }

  lemma MultipleModZero(q: int, unit: nat)
    requires unit > 0
    ensures q * unit % unit == 0
  {
    DivUnique(q * unit, unit, q, 0);
  }

  /** The normal place is the only normalised one for a given start. */
  lemma NormalPlaceUnique(p: Place, unit: nat)
    requires unit > 0
    ensures Normalised(p, unit) <==> p == NormalPlace(p.bitOffset, unit)
  {
    var n := NormalPlace(p.bitOffset, unit);
    var q := p.bitOffset / (8 * unit);
    DivMod(p.bitOffset, 8 * unit);
    EightUnits(q, unit);
    MultipleModZero(q, unit);
    assert Normalised(n, unit);
    if Normalised(p, unit) {
      DivMod(p.byteOffset, unit);
      var k := p.byteOffset / unit;
      EightUnits(k, unit);
      DivUnique(p.bitOffset, 8 * unit, k, p.bitfieldOffset);
    }
  }

  lemma NormalPlaceBits(start: int, unit: nat)
    requires unit > 0
    ensures NormalPlace(start, unit) == Place(start / (8 * unit) * (8 * unit) / 8, start % (8 * unit), start)
  {
    EightUnits(start / (8 * unit), unit);
  }

  /** bitfield_offset is a signed byte. */
  type Int8 = x: int | -128 <= x < 128

  function ToInt8(x: int): Int8 {
    (x + 128) % 256 - 128
  }

  const MAX_INTEGER_BYTES: nat := 16

  lemma Int8Is(x: int, k: int)
    requires -128 <= x - 256 * k < 128
    ensures ToInt8(x) == x - 256 * k
  {
  }

  /** In a unit of at most 16 bytes the signed byte tells what lies in the unit from what does not. */
  lemma SmallUnitFits(t: int, unit: nat)
    requires 0 < unit <= MAX_INTEGER_BYTES && -128 <= t < 120 + 8 * unit
    ensures 0 <= t < 8 * unit <==> 0 <= ToInt8(t) < 8 * unit
    ensures 0 <= t < 8 * unit ==> ToInt8(t) == t
    ensures ToInt8(ToInt8(t) - 8 * unit) == ToInt8(t - 8 * unit)
    ensures 8 * unit <= t < 16 * unit ==> ToInt8(t - 8 * unit) == t - 8 * unit
  {
    var k := if t < 128 then 0 else 1;
    Int8Is(t, k);
    var m := (t - 8 * unit + 128) / 256;
    Int8Is(t - 8 * unit, m);
    Int8Is(ToInt8(t) - 8 * unit, m - k);
  }

  /** Offset of a field from its unit, or from the unit before when that makes it positive, as the signed byte holds it. */
  function InUnit(raw: int, unit: nat): Int8 {
    var r := ToInt8(raw);
    if r < 0 then ToInt8(r + 8 * unit) else r
  }

  /** The bit offset that comes of byte offset `b` and raw offset `raw`. */
  function Reached(b: int, raw: int, unit: nat): int {
    8 * b + InUnit(raw, unit) - if ToInt8(raw) < 0 then 8 * unit else 0
  }

  /** It is the one stated exactly when the signed byte holds the raw offset, or what it becomes one unit earlier. */
  lemma ReachedExactly(b: int, raw: int, unit: nat)
    ensures Reached(b, raw, unit) == 8 * b + raw <==>
            if ToInt8(raw) < 0 then -128 <= raw + 8 * unit < 128 else 0 <= raw < 128
  {
    var k := (raw + 128) / 256;
    Int8Is(raw, k);
    Int8Is(ToInt8(raw) + 8 * unit, (raw + 8 * unit + 128) / 256 - k);
  }

  /**
   What happens to a bitfield `raw` bits from the byte its debug information names, or one whose bit offset it
   states: when a signed byte holds the numbers it starts where it did; and when it starts in the aligned unit
   of its byte, in units of up to 16 bytes, the unit is aligned and it lies in it.
   */
  predicate Spelled(hasBitOffset: bool, was: Place, raw: int, now: Place, unit: nat)
    requires unit > 0
  {
    && (hasBitOffset ==> now.bitOffset == was.bitOffset)
    && (!hasBitOffset && -128 <= raw < 128 && (raw < 0 ==> raw + 8 * unit < 128) ==> now.bitOffset == 8 * was.byteOffset + raw)
    && (unit <= 16 && (hasBitOffset || (was.byteOffset % unit == 0 && 0 <= raw < 8 * unit)) ==>
          now.byteOffset % unit == 0 && 0 <= now.bitfieldOffset < 8 * unit && 8 * now.byteOffset + now.bitfieldOffset == now.bitOffset)
  }

  lemma SpelledOut(hasBitOffset: bool, was: Place, raw: int, now: Place, unit: nat)
    requires unit > 0
    requires now.bitOffset == if hasBitOffset then was.bitOffset else Reached(was.byteOffset, raw, unit)
    requires var t := if hasBitOffset then was.bitOffset % (8 * unit) else InUnit(raw, unit) + was.byteOffset % unit * 8;
             unit <= MAX_INTEGER_BYTES && 0 <= t < 8 * unit ==> Normalised(now, unit)
    ensures Spelled(hasBitOffset, was, raw, now, unit)
  {
    hide Reached, InUnit;
    DivMod(was.bitOffset, 8 * unit);
    ReachedExactly(was.byteOffset, raw, unit);
    if -128 <= raw < 128 {
      Int8Is(raw, 0);
    }
    if unit <= MAX_INTEGER_BYTES && 0 <= raw < 8 * unit {
      WithinUnit(was.byteOffset, raw, unit);
    }
  }

  /** What the position of a member depends on in its type, typedefs and qualifiers stripped. */
  datatype Underlying =
    | Enumeration(bits: nat)
    | Base(bits: nat, nameBits: nat) // the size its name implies, 0 when the name is not known
    | Other(bytes: nat, misread: nat) // `misread` is what the fields of a base type read as in this one
  {
    /** tag__size: whole bytes only. */
    function Size(): (bytes: nat)
      ensures if this.Other? then bytes == this.bytes else 8 * bytes <= this.bits < 8 * bytes + 8
    {
      match this
      case Other(bytes, _) => bytes
      case _ => bits / 8
    }

    /** The bits a bitfield's unit must have when the type has no size in bytes. */
    function IntendedBits(): nat {
      match this
      case Enumeration(bits) => bits
      case Base(bits, nameBits) => if bits != 0 then bits else nameBits
      case Other(_, misread) => misread
    }

    /** The bytes that many bits take. */
    function IntendedBytes(): (bytes: nat)
      ensures IntendedBits() <= 8 * bytes < IntendedBits() + 8
    {
      (IntendedBits() + 7) / 8
    }

    /** The size in bytes where there is one, and else eight times the bytes intended. */
    function Inferred(): nat {
      if Size() > 0 then Size() else 8 * IntendedBytes()
    }
  }

  predicate IsPowerOf2(n: nat) {
    n == 1 || (n > 1 && n % 2 == 0 && IsPowerOf2(n / 2))
  }

  lemma {:induction false} PowerOf2Exactly(n: nat)
    ensures IsPowerOf2(n) <==> exists k: nat :: n == Words.Pow2(k)
  {
    if n == 1 {
      assert Words.Pow2(0) == 1;
    } else if n > 1 && n % 2 == 0 {
      PowerOf2Exactly(n / 2);
      if k: nat :| n / 2 == Words.Pow2(k) {
        assert Words.Pow2(k + 1) == 2 * Words.Pow2(k);
      }
      if k: nat :| n == Words.Pow2(k) {
        assert Words.Pow2(k) == if k == 0 then 1 else 2 * Words.Pow2(k - 1);
      }
    } else {
      forall k: nat ensures n != Words.Pow2(k) {
        assert Words.Pow2(k) == if k == 0 then 1 else 2 * Words.Pow2(k - 1);
      }
    }
  }

  /** A power of two from 8 on is a multiple of 8. */
  lemma {:induction false} PowerOf2Bytes(n: nat)
    requires IsPowerOf2(n)
    ensures n >= 8 ==> n % 8 == 0
    ensures n < 8 ==> n in {1, 2, 4}
    ensures (n + 7) / 8 * 8 == if n < 8 then 8 else n
  {
    if n > 1 {
      PowerOf2Bytes(n / 2);
      if n >= 16 {
        var k := n / 2 / 8;
        assert n == 16 * k;
        DivUnique(n + 7, 8, 2 * k, 7);
      } else {
        assert n == 2 * (n / 2) && n / 2 in {1, 2, 4};
      }
    }
  }

  /** A member's position fields, as the loaders update them in place. */
  class Member {
    const isStatic: bool
    const hasBitOffset: bool
    var byteOffset: int
    var bitfieldOffset: Int8
    var bitOffset: int
    var byteSize: nat
    var bitSize: nat
    var bitfieldSize: nat

    constructor (isStatic: bool, hasBitOffset: bool, where: Place, byteSize: nat, bitfieldSize: nat)
      requires -128 <= where.bitfieldOffset < 128
      ensures this.isStatic == isStatic && this.hasBitOffset == hasBitOffset && Where() == where
      ensures this.byteSize == byteSize && this.bitfieldSize == bitfieldSize
    {
      this.isStatic, this.hasBitOffset := isStatic, hasBitOffset;
      byteOffset, bitfieldOffset, bitOffset := where.byteOffset, where.bitfieldOffset, where.bitOffset;
      this.byteSize, bitSize, this.bitfieldSize := byteSize, 0, bitfieldSize;
    }

    function Where(): Place
      reads `byteOffset, `bitfieldOffset, `bitOffset
    {
      Place(byteOffset, bitfieldOffset, bitOffset)
    }

    /** The size of the unit: as read, or from the kind. */
    function Unit(kind: Underlying): nat
      reads `byteSize
    {
      if byteSize > 0 then byteSize else kind.Inferred()
    }

    /** Offset of the field's lowest bit from its unit's start, before normalisation. */
    function RawOffset(littleEndian: bool, unit: nat): int
      reads `bitfieldOffset, `bitfieldSize
    {
      if littleEndian then 8 * unit - bitfieldOffset - bitfieldSize else bitfieldOffset
    }

    /** Start of the field in the struct, as the debug information states it. */
    function Start(littleEndian: bool, unit: nat): int
      reads `byteOffset, `bitfieldOffset, `bitOffset, `bitfieldSize
    {
      if hasBitOffset then bitOffset else 8 * byteOffset + RawOffset(littleEndian, unit)
    }

    /** The bit offset that is computed from them. */
    function Computed(littleEndian: bool, unit: nat): int
      reads `byteOffset, `bitfieldOffset, `bitOffset, `bitfieldSize
    {
      if hasBitOffset then bitOffset else Reached(byteOffset, RawOffset(littleEndian, unit), unit)
    }

    /** Offset of the field from the aligned unit that its (possibly unaligned) byte offset lies in. */
    function FromAligned(littleEndian: bool, unit: nat): int
      requires unit > 0
      reads `byteOffset, `bitfieldOffset, `bitOffset, `bitfieldSize
    {
      if hasBitOffset then bitOffset % (8 * unit)
      else InUnit(RawOffset(littleEndian, unit), unit) + byteOffset % unit * 8
    }

    /** The signed byte can hold the raw offset, or what it becomes one unit earlier. */
    predicate RawFits(littleEndian: bool, unit: nat)
      reads `bitfieldOffset, `bitfieldSize
    {
      var raw := RawOffset(littleEndian, unit);
      hasBitOffset || (if ToInt8(raw) < 0 then -128 <= raw + 8 * unit < 128 else 0 <= raw < 128)
    }

    /** Figure out the size of the unit when the debug information does not give it. */
    method InferByteSize(kind: Underlying)
      requires byteSize == 0
      modifies `byteSize
      ensures byteSize == kind.Inferred()
      ensures kind.Size() == 0 ==> (byteSize == kind.IntendedBytes() <==> kind.IntendedBits() == 0)
      ensures kind.Other? && kind.bytes > 0 ==> byteSize == kind.bytes
      ensures !kind.Other? && kind.bits >= 8 ==> 8 * byteSize <= kind.bits < 8 * byteSize + 8
      ensures (!kind.Other? && 0 < kind.bits < 8) || (kind.Base? && kind.bits == 0) || (kind.Other? && kind.bytes == 0) ==>
                var bits := if kind.Other? then kind.misread else if kind.bits > 0 then kind.bits else kind.nameBits;
                byteSize % 8 == 0 && bits <= byteSize < bits + 8
    {
      byteSize := kind.Size();
      if byteSize == 0 {
        var bits := match kind
          case Enumeration(bits) => bits
          case Base(bits, nameBits) => if bits != 0 then bits else nameBits
          case Other(_, misread) => misread;
        byteSize := (bits + 7) / 8 * 8;
      }
    }

    /**
     class_member__cache_byte_size. The bit offset is the stated one exactly when the signed byte holds the raw
     offset, and the place is normalised exactly when it holds the offset from the aligned unit, reduced to the
     unit. In units of up to 16 bytes that is when the field starts in the aligned unit its byte offset points
     into, as every DWARF 5 one does; otherwise the byte offset is one unit too far.
     */
    method CacheByteSize(kind: Underlying, littleEndian: bool, fixupSilly: bool)
      modifies this
      ensures isStatic ==> unchanged(this)
      ensures !isStatic && old(bitfieldSize) == 0 ==>
                && byteSize == (if old(byteSize) != 0 then old(byteSize) else kind.Size()) && bitSize == 8 * byteSize
                && Where() == old(Where()) && bitfieldSize == 0
      ensures !isStatic && old(bitfieldSize) > 0 ==> byteSize == old(Unit(kind)) && bitSize == 8 * byteSize
      ensures !isStatic && old(bitfieldSize) > 0 && byteSize == 0 ==>
                Where() == old(Where()).(bitfieldOffset := 0) && bitfieldSize == old(bitfieldSize)
      ensures !isStatic && old(bitfieldSize) > 0 && byteSize > 0 ==>
                && bitOffset == old(Computed(littleEndian, Unit(kind)))
                && (bitOffset == old(Start(littleEndian, Unit(kind))) <==> old(RawFits(littleEndian, Unit(kind))))
                && bitfieldSize == if fixupSilly && 8 * byteSize == old(bitfieldSize) && bitfieldOffset == 0 then 0 else old(bitfieldSize)
      ensures !isStatic && old(bitfieldSize) > 0 && byteSize > 0 ==>
                var n, t := NormalPlace(bitOffset, byteSize), old(FromAligned(littleEndian, Unit(kind)));
                && (Normalised(Where(), byteSize) <==> ToInt8(t) == t % (8 * byteSize))
                && (byteSize <= MAX_INTEGER_BYTES ==>
                     && (Normalised(Where(), byteSize) <==> 0 <= t < 8 * byteSize)
                     && Where() == if 0 <= t < 8 * byteSize then n
                                   else n.(byteOffset := n.byteOffset + byteSize, bitfieldOffset := ToInt8(t - 8 * byteSize)))
      ensures !isStatic && old(bitfieldSize) > 0 && byteSize > 0 ==>
                var raw := if littleEndian then 8 * byteSize - old(bitfieldOffset) - old(bitfieldSize) else old(bitfieldOffset);
                Spelled(hasBitOffset, old(Where()), raw, Where(), byteSize)
    {
      hide NormalPlace, Normalised, RawFits, FromAligned, Start, Computed, ToInt8, Underlying.Inferred, Spelled;
      if isStatic {
        return;
      }
      if bitfieldSize == 0 {
        byteSize := if byteSize != 0 then byteSize else kind.Size();
        bitSize := byteSize * 8;
        return;
      }
      if byteSize == 0 {
        InferByteSize(kind);
      }
      bitSize := byteSize * 8;
      if byteSize == 0 {
        bitfieldOffset := 0;
        return;
      }
      PlaceBitfield(littleEndian);
      if fixupSilly && byteSize * 8 == bitfieldSize && bitfieldOffset == 0 {
        bitfieldSize := 0;
      }
    }

    /** The rest of the function, with the size known. */
    method PlaceBitfield(littleEndian: bool)
      requires byteSize > 0 && bitSize == 8 * byteSize
      modifies this`byteOffset, this`bitfieldOffset, this`bitOffset
      ensures bitOffset == old(Computed(littleEndian, byteSize))
      ensures bitOffset == old(Start(littleEndian, byteSize)) <==> old(RawFits(littleEndian, byteSize))
      ensures var n, t := NormalPlace(bitOffset, byteSize), old(FromAligned(littleEndian, byteSize));
              && (Normalised(Where(), byteSize) <==> ToInt8(t) == t % (8 * byteSize))
              && (byteSize <= MAX_INTEGER_BYTES ==>
                   && (Normalised(Where(), byteSize) <==> 0 <= t < 8 * byteSize)
                   && Where() == if 0 <= t < 8 * byteSize then n
                                 else n.(byteOffset := n.byteOffset + byteSize, bitfieldOffset := ToInt8(t - 8 * byteSize)))
      ensures var raw := if littleEndian then 8 * byteSize - old(bitfieldOffset) - bitfieldSize else old(bitfieldOffset);
              Spelled(hasBitOffset, old(Where()), raw, Where(), byteSize)
    {
      hide NormalPlace, Normalised, ToInt8, Reached, InUnit, Spelled;
      ghost var raw, was := RawOffset(littleEndian, byteSize), Where();
      ReachedExactly(byteOffset, raw, byteSize);
      Unpack(littleEndian);
      Align();
      NormalPlaceUnique(Where(), byteSize);
      SpelledOut(hasBitOffset, was, raw, Where(), byteSize);
    }

    /** The offsets as the debug information gives them, with the unit offset made positive. */
    method Unpack(littleEndian: bool)
      requires byteSize > 0 && bitSize == 8 * byteSize
      modifies this`byteOffset, this`bitfieldOffset, this`bitOffset
      ensures bitOffset == 8 * byteOffset + bitfieldOffset == old(Computed(littleEndian, byteSize))
      ensures bitfieldOffset + byteOffset % byteSize * 8 == old(FromAligned(littleEndian, byteSize))
    {
      hide ToInt8;
      if hasBitOffset {
        UnpackedBits(bitOffset, byteSize);
      } else {
        SameRemainder(byteOffset, byteSize);
        Int8Is(bitfieldOffset, 0);
      }
      if !hasBitOffset {
        if littleEndian {
          bitfieldOffset := ToInt8(bitSize - bitfieldOffset - bitfieldSize);
        }
        bitOffset := byteOffset * 8 + bitfieldOffset;
      } else {
        byteOffset := bitOffset / 8;
        bitfieldOffset := bitOffset - byteOffset * 8;
      }
      if bitfieldOffset < 0 {
        bitfieldOffset := ToInt8(bitfieldOffset + bitSize);
        byteOffset := byteOffset - byteSize;
        bitOffset := byteOffset * 8 + bitfieldOffset;
      }
    }

    /** Align on the natural boundary of the underlying type. */
    method Align()
      requires byteSize > 0 && bitSize == byteSize * 8 && bitOffset == 8 * byteOffset + bitfieldOffset
      modifies this`byteOffset, this`bitfieldOffset
      ensures var n, t := NormalPlace(bitOffset, byteSize), old(bitfieldOffset) + old(byteOffset) % byteSize * 8;
              && (Where() == n <==> ToInt8(t) == t % bitSize)
              && (byteSize <= MAX_INTEGER_BYTES ==>
                   && (Where() == n <==> 0 <= t < bitSize)
                   && Where() == if 0 <= t < bitSize then n
                                 else n.(byteOffset := n.byteOffset + byteSize, bitfieldOffset := ToInt8(t - bitSize)))
    {
      AlignedPlace(byteOffset, bitfieldOffset, byteSize);
      hide NormalPlace, ToInt8;
      bitfieldOffset := ToInt8(bitfieldOffset + (byteOffset % byteSize) * 8);
      byteOffset := bitOffset / bitSize * bitSize / 8;
      if bitfieldOffset < 0 || bitfieldOffset >= bitSize {
        bitfieldOffset := ToInt8(bitfieldOffset - bitSize);
        byteOffset := byteOffset + byteSize;
      }
    }

    /**
     The bitfield part of class__fixup_btf_bitfields: the normal place exactly when the signed byte holds the
     offset in the unit, as it does for every BTF integer, none having more than 16 bytes.
     */
    method FixupBtf()
      requires byteSize > 0 && bitSize == 8 * byteSize && bitOffset >= 0
      modifies this`byteOffset, this`bitfieldOffset, this`bitOffset
      ensures Where() == NormalPlace(old(bitOffset), byteSize) <==> old(bitOffset) % (8 * byteSize) < 128
      ensures byteSize <= MAX_INTEGER_BYTES ==> Where() == NormalPlace(old(bitOffset), byteSize)
      ensures byteSize <= 16 ==>
                byteOffset % byteSize == 0 && 0 <= bitfieldOffset < 8 * byteSize && 8 * byteOffset + bitfieldOffset == bitOffset == old(bitOffset)
    {
      hide ToInt8, NormalPlace;
      RestIs(bitOffset, byteSize);
      NormalPlaceUnique(NormalPlace(bitOffset, byteSize), byteSize);
      byteOffset := bitOffset / bitSize * bitSize / 8;
      bitfieldOffset := ToInt8(bitOffset - byteOffset * 8);
      if bitfieldOffset < 0 {
        bitfieldOffset := ToInt8(bitfieldOffset + bitSize);
        byteOffset := byteOffset - byteSize;
        bitOffset := byteOffset * 8 + bitfieldOffset;
      }
    }

    /**
     class__fixup_ctf_bitfields for one member. The size an enumeration's bits or a base type's name imply is the
     unit; a member of another size is a bitfield in its normal place, every other one a plain field.
     */
    method FixupCtf(kind: Underlying)
      requires bitOffset >= 0
      requires kind.Base? ==> kind.nameBits % 8 == 0 && kind.nameBits <= 8 * MAX_INTEGER_BYTES
      modifies this`byteOffset, this`bitfieldOffset, this`byteSize, this`bitSize, this`bitfieldSize
      ensures kind.Other? ==> byteSize == kind.bytes && bitSize == 8 * byteSize
      ensures kind.Base? ==> byteSize == kind.nameBits / 8
      ensures kind.Enumeration? ==> byteSize == if !IsPowerOf2(kind.bits) then 4 else if kind.bits < 8 then 1 else kind.bits / 8
      ensures var plain := kind.Other? || byteSize == 0 || kind.bits == 8 * byteSize;
              && (plain ==> bitfieldSize == 0 && Where() == Place(bitOffset / 8, 0, bitOffset) && bitSize == 8 * byteSize)
              && (!plain ==> Where() == NormalPlace(bitOffset, byteSize) && bitSize == kind.bits && bitfieldSize == kind.bits % 256)
              && (!plain ==> byteOffset % byteSize == 0 && 0 <= bitfieldOffset < 8 * byteSize && 8 * byteOffset + bitfieldOffset == bitOffset)
    {
      hide IsPowerOf2, NormalPlace;
      bitfieldOffset, bitfieldSize, byteOffset := 0, 0, bitOffset / 8;
      var typeBits, integralBits := 0, 0;
      match kind {
        case Enumeration(bits) =>
          typeBits := bits;
          if IsPowerOf2(bits) {
            PowerOf2Bytes(bits);
            integralBits := (bits + 7) / 8 * 8;
          } else {
            integralBits := 32;
          }
        case Base(bits, nameBits) => typeBits, integralBits := bits, nameBits;
        case Other(bytes, _) =>
          byteSize := bytes;
          bitSize := byteSize * 8;
          return;
      }
      byteSize := integralBits / 8;
      if integralBits == 0 || typeBits == integralBits {
        bitSize := integralBits;
        return;
      }
      assert integralBits == 8 * byteSize && integralBits <= 128;
      NormalPlaceBits(bitOffset, byteSize);
      NormalPlaceUnique(NormalPlace(bitOffset, byteSize), byteSize);
      bitfieldOffset := bitOffset % integralBits;
      bitfieldSize := typeBits % 256;
      bitSize := typeBits;
      byteOffset := bitOffset / integralBits * integralBits / 8;
    }
  }

  /** An offset within one byte never leaves the unit the byte is in. */
  lemma ByteOffsetStays(b: int, o: int, unit: nat)
    requires unit > 0 && 0 <= o < 8
    ensures o + b % unit * 8 < unit * 8
  {
    DivMod(b, unit);
  }

  lemma SameRemainder(b: int, unit: nat)
    requires unit > 0
    ensures (b - unit) % unit == b % unit
  {
    DivMod(b, unit);
    DivUnique(b - unit, unit, b / unit - 1, b % unit);
  }

  /** What a bit offset leaves beyond its unit's start, and what the signed byte makes of it. */
  lemma RestIs(start: int, unit: nat)
    requires unit > 0
    ensures var b, n := start / (unit * 8) * (unit * 8) / 8, NormalPlace(start, unit);
            && n == Place(b, start - b * 8, start) && start - b * 8 == start % (8 * unit)
            && 0 <= start - b * 8 < 8 * unit && (ToInt8(start - b * 8) == start - b * 8 <==> start - b * 8 < 128)
  {
    hide ToInt8;
    var rest := start % (8 * unit);
    NormalPlaceBits(start, unit);
    EightUnits(start / (8 * unit), unit);
    DivMod(start, 8 * unit);
    Int8Is(rest, (rest + 128) / 256);
  }

  /** A field inside the unit its byte offset names, small enough for the signed byte. */
  lemma WithinUnit(b: int, raw: int, unit: nat)
    requires 0 < unit <= MAX_INTEGER_BYTES && 0 <= raw < 8 * unit
    ensures InUnit(raw, unit) == raw && Reached(b, raw, unit) == 8 * b + raw
  {
    Int8Is(raw, 0);
  }

  /** Re-basing a field from byte `b` to its aligned unit. */
  lemma AlignStep(b: int, o: int, unit: nat)
    requires unit > 0
    ensures (8 * b + o) % (8 * unit) == (o + b % unit * 8) % (8 * unit)
  {
    var t, q := o + b % unit * 8, b / unit;
    DivMod(b, unit);
    EightUnits(q, unit);
    assert 8 * b + o == q * (8 * unit) + t;
    DivMod(t, 8 * unit);
    var k := t / (8 * unit);
    assert q * (8 * unit) + k * (8 * unit) == (q + k) * (8 * unit);
    DivUnique(8 * b + o, 8 * unit, q + k, t % (8 * unit));
  }

  /** The normal place of what starts `o` bits from byte `b`, and what the signed byte makes of its offset. */
  lemma AlignedPlace(b: int, o: Int8, unit: nat)
    requires unit > 0
    ensures var t, s := o + b % unit * 8, 8 * b + o;
            && NormalPlace(s, unit) == Place(s / (unit * 8) * (unit * 8) / 8, t % (8 * unit), s)
            && 0 <= t % (8 * unit) < 8 * unit && (0 <= t < 8 * unit ==> t % (8 * unit) == t)
            && (unit <= MAX_INTEGER_BYTES ==>
                 && (0 <= t < 8 * unit <==> 0 <= ToInt8(t) < 8 * unit)
                 && (0 <= t < 8 * unit ==> ToInt8(t) == t)
                 && ToInt8(ToInt8(t) - 8 * unit) == ToInt8(t - 8 * unit))
  {
    hide ToInt8, NormalPlace;
    var t, s := o + b % unit * 8, 8 * b + o;
    NormalPlaceBits(s, unit);
    AlignStep(b, o, unit);
    DivMod(b, unit);
    DivMod(t, 8 * unit);
    if 0 <= t < 8 * unit {
      DivUnique(t, 8 * unit, 0, t);
    }
    if unit <= MAX_INTEGER_BYTES {
      SmallUnitFits(t, unit);
    }
  }

  /** An unaligned DWARF 4 field that the arithmetic moves one unit too far: 4 bits into the unit at 4, not at 8. */
  method UnalignedExample() returns (place: Place)
    ensures place == Place(8, 4, 36) && !Normalised(place, 4) && NormalPlace(36, 4) == Place(4, 4, 36)
  {
    var m := new Member(false, false, Place(2, 0, 16), 4, 12);
    m.CacheByteSize(Base(32, 32), true, false);
    place := Place(m.byteOffset, m.bitfieldOffset, m.bitOffset);
  }

  lemma UnpackedBits(start: int, unit: nat)
    requires unit > 0
    ensures var b, o := start / 8, start - start / 8 * 8;
            0 <= o < 8 && o + b % unit * 8 == start % (8 * unit) && start == 8 * b + o
  {
    var b, o := start / 8, start - start / 8 * 8;
    DivMod(start, 8);
    ByteOffsetStays(b, o, unit);
    AlignStep(b, o, unit);
    DivUnique(o + b % unit * 8, 8 * unit, 0, o + b % unit * 8);
  }

  /** A unit of type "int" without a size in the debug information is taken to have 32 bytes. */
  method InferredExample() returns (bytes: nat)
    ensures bytes == 32 && Base(0, 32).IntendedBytes() == 4
  {
    var m := new Member(false, false, Place(0, 0, 0), 0, 5);
    m.InferByteSize(Base(0, 32));
    bytes := m.byteSize;
  }

  /** A DWARF 5 field 128 bits into a unit of 32 bytes: its offset does not fit the signed byte. */
  method WideUnitExample() returns (place: Place)
    ensures place.bitOffset == 128 && !Normalised(place, 32)
  {
    var m := new Member(false, true, Place(0, 0, 128), 32, 12);
    m.CacheByteSize(Base(256, 0), true, false);
    place := Place(m.byteOffset, m.bitfieldOffset, m.bitOffset);
  }

  /**
   The three encodings of one field give one place, and it is normalised: a unit-aligned DWARF 4
   offset, the DWARF 5 offset and the BTF offset.
   */
  method EncodingsAgree(dwarf4: Member, dwarf5: Member, btf: Member, kind: Underlying, unit: nat, size: nat, start: nat)
    requires dwarf4 != dwarf5 && dwarf5 != btf && dwarf4 != btf && 0 < unit <= MAX_INTEGER_BYTES && 0 < size <= 8 * unit
    requires dwarf4.Unit(kind) == dwarf5.Unit(kind) == btf.byteSize == unit && !dwarf4.isStatic && !dwarf5.isStatic
    requires dwarf4.bitfieldSize == dwarf5.bitfieldSize == btf.bitfieldSize == size
    requires !dwarf4.hasBitOffset && dwarf4.byteOffset % unit == 0 && 0 <= 8 * unit - dwarf4.bitfieldOffset - size
    requires 0 <= dwarf4.bitfieldOffset && 8 * (dwarf4.byteOffset + unit) - dwarf4.bitfieldOffset - size == start
    requires dwarf5.hasBitOffset && dwarf5.bitOffset == start
    requires btf.bitOffset == start && btf.bitSize == 8 * unit
    modifies dwarf4, dwarf5, btf
    ensures dwarf4.Where() == dwarf5.Where() == btf.Where() == NormalPlace(start, unit)
    ensures btf.byteOffset % unit == 0 && 0 <= btf.bitfieldOffset < 8 * unit && 8 * btf.byteOffset + btf.bitfieldOffset == btf.bitOffset == start
  {
    hide NormalPlace, ToInt8, InUnit, Reached;
    WithinUnit(dwarf4.byteOffset, dwarf4.RawOffset(true, unit), unit);
    dwarf4.CacheByteSize(kind, true, false);
    dwarf5.CacheByteSize(kind, true, false);
    btf.FixupBtf();
    NormalPlaceUnique(btf.Where(), unit);
  }
}
