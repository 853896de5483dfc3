/** Words in a CTF buffer: byte order, and the packing of several fields into one word. */
module CtfBytes {
  import opened Words

  type Byte = b: nat | b < 256

  datatype Order = Little | Big

  /** The low 16 bits of a value as the host stores them. */
  function Put16(order: Order, v: nat): (bytes: seq<Byte>)
    ensures |bytes| == 2
  {
    var low, high := v % 256, v / 256 % 256;
    if order == Little then [low, high] else [high, low]
  }

  function Put32(order: Order, v: nat): (bytes: seq<Byte>)
    ensures |bytes| == 4
  {
    var low, high := Put16(order, v), Put16(order, v / 0x1_0000);
    if order == Little then low + high else high + low
  }

  function Native16(order: Order, bytes: seq<Byte>): (v: nat)
    requires |bytes| == 2
    ensures v < 0x1_0000
  {
    var a: nat, b: nat := bytes[0], bytes[1];
    if order == Little then a + 256 * b else b + 256 * a
  }

  function Native32(order: Order, bytes: seq<Byte>): (v: nat)
    requires |bytes| == 4
    ensures v < 0x1_0000_0000
  {
    var a, b := Native16(order, bytes[..2]), Native16(order, bytes[2..]);
    if order == Little then a + 0x1_0000 * b else b + 0x1_0000 * a
  }

  function Swap16(v: nat): nat {
    Or(v / 256, v * 256 % 0x1_0000)
  }

  function Swap32(v: nat): nat {
    Or(Or(Or(v / 0x100_0000, v / 0x1_0000 % 256 * 256), v / 256 % 256 * 0x1_0000), v % 256 * 0x100_0000)
  }

  /** A host reading a file, `swapped` when the magic number came out reversed. */
  datatype Reader = Reader(host: Order, swapped: bool) {
    /** The byte order the file was written in. */
    function FileOrder(): Order {
      if !swapped then host else if host == Little then Big else Little
    }

    function Get16(bytes: seq<Byte>): nat
      requires |bytes| == 2
    {
      var v := Native16(host, bytes);
      if swapped then Swap16(v) else v
    }

    function Get32(bytes: seq<Byte>): nat
      requires |bytes| == 4
    {
      var v := Native32(host, bytes);
      if swapped then Swap32(v) else v
    }

    /** Whoever wrote it, the low 16 bits come back. */
    lemma GetPut16(v: nat)
      ensures Get16(Put16(FileOrder(), v)) == v % 0x1_0000
    {
      SplitWord(v);
      if swapped {
        SwapBytes(v % 256, v / 256 % 256);
      }
    }

    lemma NativePut32(order: Order, v: nat)
      ensures Native32(order, Put32(order, v)) == v % 0x1_0000_0000
    {
      SplitWord(v);
      SplitWord(v / 0x1_0000);
      SplitDouble(v);
      var low, high := Put16(order, v), Put16(order, v / 0x1_0000);
      assert (low + high)[..2] == low && (low + high)[2..] == high;
      assert (high + low)[..2] == high && (high + low)[2..] == low;
    }

    lemma GetPut32(v: nat)
      ensures Get32(Put32(FileOrder(), v)) == v % 0x1_0000_0000
    {
      if !swapped {
        NativePut32(host, v);
      } else {
        var a, b, c, d := v % 256, v / 256 % 256, v / 0x1_0000 % 256, v / 0x1_0000 / 256 % 256;
        BytesOf(v);
        Foreign32(host, FileOrder(), v);
        SwapQuad(a, b, c, d);
      }
    }
  }

  lemma BytesOf(v: nat)
    ensures v % 0x1_0000_0000 ==
            v % 256 + 256 * (v / 256 % 256) + 0x1_0000 * (v / 0x1_0000 % 256) + 0x100_0000 * (v / 0x1_0000 / 256 % 256)
  {
    SplitWord(v);
    SplitWord(v / 0x1_0000);
    SplitDouble(v);
  }

  /** A word of the other byte order, read as it stands: its bytes reversed. */
  lemma Foreign32(host: Order, file: Order, v: nat)
    requires host != file
    ensures Native32(host, Put32(file, v)) ==
            v / 0x1_0000 / 256 % 256 + 256 * (v / 0x1_0000 % 256) + 0x1_0000 * (v / 256 % 256) + 0x100_0000 * (v % 256)
  {
    var low, high := Put16(file, v), Put16(file, v / 0x1_0000);
    assert (low + high)[..2] == low && (low + high)[2..] == high;
    assert (high + low)[..2] == high && (high + low)[2..] == low;
  }

  lemma SplitWord(v: nat)
    ensures v % 256 + 256 * (v / 256 % 256) == v % 0x1_0000
  {
    var w := v / 256;
    ModUnique(v, 0x1_0000, w / 256, v % 256 + 256 * (w % 256));
  }

  lemma SplitDouble(v: nat)
    ensures v % 0x1_0000 + 0x1_0000 * (v / 0x1_0000 % 0x1_0000) == v % 0x1_0000_0000
  {
    var w := v / 0x1_0000;
    ModUnique(v, 0x1_0000_0000, w / 0x1_0000, v % 0x1_0000 + 0x1_0000 * (w % 0x1_0000));
  }

  lemma Pow2Values()
    ensures Pow2(16) == 0x1_0000 && Pow2(24) == 0x100_0000 && Pow2(32) == 0x1_0000_0000
  {
    var eight := 8;
    assert Pow2(eight) == 0x100;
    hide Pow2;
    Pow2Add(eight, eight);
    Pow2Add(eight + eight, eight);
    Pow2Add(eight + eight, eight + eight);
  }

  lemma OrBytes(a: nat, b: nat)
    requires b < 256
    ensures Or(b, a * 256) == a * 256 + b
  {
    assert Pow2(8) == 256;
    OrFields(a, b, 8);
  }

  lemma OrHalves(a: nat, b: nat)
    requires b < 0x1_0000
    ensures Or(b, a * 0x1_0000) == a * 0x1_0000 + b
  {
    Pow2Values();
    OrFields(a, b, 16);
  }

  lemma OrTop(a: nat, b: nat)
    requires b < 0x100_0000
    ensures Or(b, a * 0x100_0000) == a * 0x100_0000 + b
  {
    Pow2Values();
    OrFields(a, b, 24);
  }

  lemma SwapBytes(a: Byte, b: Byte)
    ensures Swap16(b + 256 * a) == a + 256 * b
  {
    var v := b + 256 * a;
    assert v / 256 == a && v * 256 % 0x1_0000 == b * 256;
    OrBytes(b, a);
  }

  lemma Quad(a: Byte, b: Byte, c: Byte, d: Byte)
    ensures var v := d + 256 * c + 0x1_0000 * b + 0x100_0000 * a;
            v / 0x100_0000 == a && v / 0x1_0000 % 256 == b && v / 256 % 256 == c && v % 256 == d
  {
    var v := d + 256 * c + 0x1_0000 * b + 0x100_0000 * a;
    ModUnique(v, 256, c + 256 * b + 0x1_0000 * a, d);
    ModUnique(c + 256 * b + 0x1_0000 * a, 256, b + 256 * a, c);
    ModUnique(v, 0x1_0000, b + 256 * a, d + 256 * c);
    ModUnique(b + 256 * a, 256, a, b);
    ModUnique(v, 0x100_0000, a, d + 256 * c + 0x1_0000 * b);
  }

  lemma SwapQuad(a: Byte, b: Byte, c: Byte, d: Byte)
    ensures Swap32(d + 256 * c + 0x1_0000 * b + 0x100_0000 * a) == a + 256 * b + 0x1_0000 * c + 0x100_0000 * d
  {
    hide Or;
    Quad(a, b, c, d);
    OrBytes(b, a);
    OrHalves(c, a + 256 * b);
    OrTop(d, a + 256 * b + 0x1_0000 * c);
  }

  // ----- packed words -----

  const VLEN_MAX: nat := 0x3ff

  /** CTF_INFO_ENCODE of a type that is not a root. */
  function Info(kind: nat, vlen: nat): nat {
    Or(kind * 0x800, vlen)
  }

  function GetKind(info: nat): nat { info / 0x800 % 0x20 }
  function GetVlen(info: nat): nat { info % 0x400 }

  lemma Unpack(kind: nat, vlen: nat)
    requires kind < 0x20 && vlen <= VLEN_MAX
    ensures var v := kind * 0x800 + vlen; GetKind(v) == kind && GetVlen(v) == vlen && v < 0x1_0000
  {
    var v := kind * 0x800 + vlen;
    assert v / 0x800 == kind;
    assert v == vlen + 0x400 * (2 * kind);
  }

  lemma InfoIsSum(kind: nat, vlen: nat)
    requires vlen <= VLEN_MAX
    ensures Info(kind, vlen) == kind * 0x800 + vlen
  {
    assert Pow2(11) == 0x800;
    OrFields(kind, vlen, 11);
  }

  /** Kind and length come back from the packed word exactly when the length has at most ten bits. */
  lemma InfoRoundTrip(kind: nat, vlen: nat)
    requires kind < 0x20
    ensures GetKind(Info(kind, vlen)) == kind && GetVlen(Info(kind, vlen)) == vlen <==> vlen <= VLEN_MAX
    ensures vlen <= VLEN_MAX ==> Info(kind, vlen) < 0x1_0000
  {
    hide Info;
    if vlen <= VLEN_MAX {
      InfoIsSum(kind, vlen);
      Unpack(kind, vlen);
    } else {
      assert GetVlen(Info(kind, vlen)) < 0x400;
    }
  }

  /** CTF_TYPE_INT_ENCODE */
  function IntEncode(attrs: nat, offset: nat, bits: nat): nat {
    Or(Or(attrs * 0x100_0000, offset * 0x1_0000), bits)
  }

  function IntAttrs(v: nat): nat { v / 0x100_0000 }
  function IntBits(v: nat): nat { v % 0x1_0000 }

  lemma IntRoundTrip(bits: nat)
    requires bits < 0x1_0000
    ensures IntEncode(0, 0, bits) == bits && IntAttrs(bits) == 0 && IntBits(bits) == bits
  {
  }

  /** Three fields packed into the word of a number: what the macros for reading it give. */
  lemma NumberWord(attrs: nat, offset: nat, bits: nat)
    requires attrs < 256 && offset < 256 && bits < 0x1_0000
    ensures var v := IntEncode(attrs, offset, bits);
            && v == 0x100_0000 * attrs + 0x1_0000 * offset + bits && v < 0x1_0000_0000
            && IntAttrs(v) == attrs && IntBits(v) == bits && v % 256 == bits % 256
  {
    hide Or;
    Pow2Values();
    var low := offset * 0x1_0000 + bits;
    OrAbove(attrs, offset, bits);
    var v := 0x100_0000 * attrs + low;
    ModUnique(v, 0x100_0000, attrs, low);
    ModUnique(v, 0x1_0000, 256 * attrs + offset, bits);
    ModUnique(bits, 256, bits / 256, bits % 256);
    ModUnique(v, 256, 0x1_0000 * attrs + 256 * offset + bits / 256, bits % 256);
  }

  lemma OrAbove(attrs: nat, offset: nat, bits: nat)
    requires offset < 256 && bits < 0x1_0000
    ensures IntEncode(attrs, offset, bits) == 0x100_0000 * attrs + 0x1_0000 * offset + bits
  {
    hide Or;
    Pow2Values();
    OrFields(attrs, offset * 0x1_0000, 24);
    assert Or(attrs * 0x100_0000, offset * 0x1_0000) == (256 * attrs + offset) * 0x1_0000;
    OrFields(256 * attrs + offset, bits, 16);
  }

  /** Each byte of a word, counted from the low end or from the high one. */
  lemma PutBytes(v: nat)
    requires v < 0x1_0000_0000
    ensures Put32(Little, v) == [v % 256, v / 0x100 % 256, v / 0x1_0000 % 256, v / 0x100_0000]
    ensures Put32(Big, v) == [v / 0x100_0000, v / 0x1_0000 % 256, v / 0x100 % 256, v % 256]
  {
    assert v / 0x1_0000 / 256 % 256 == v / 0x100_0000 by {
      ModUnique(v / 0x1_0000, 256, v / 0x100_0000, v / 0x1_0000 % 256);
    }
  }

  /** The bit offset as create_full_members puts it together, in a 32-bit word. */
  function FullOffset(high: nat, low: nat): nat {
    Or(high * 0x1_0000 % 0x1_0000_0000, low)
  }

  /** The writer splits at bit 32, the reader joins at bit 16: only offsets below 2^32 come back. */
  lemma FullOffsetRoundTrip(offset: nat)
    ensures FullOffset(offset / 0x1_0000_0000, offset % 0x1_0000_0000) == offset <==> offset < 0x1_0000_0000
  {
    var high, low := offset / 0x1_0000_0000, offset % 0x1_0000_0000;
    if high > 0 {
      Pow2Values();
      OrBound(high * 0x1_0000 % 0x1_0000_0000, low, 32);
    }
  }
}
