/** The packed file allocation table: how one entry is stored in the table's
    bytes, the cursor that steps through the entries of a block, and the
    geometry check that keeps every valid entry inside the table.

    The table is held as one byte sequence.  Bytes are integers, and a bitwise
    "or" of fields that do not overlap is written as a sum. */
module FatFormat {
  import opened Sequences
  import opened Multiples

  const FREE := 0
  const EOF := 0x0FFF_FFFF
  const FIRST := 2
  /** MAX_BUF_PER_PAGE with 4 KiB pages: the capacity of a batch of buffers. */
  const MAX_BUFS := 8

  type Byte = b: int | 0 <= b < 256

  datatype Variant = Fat12 | Fat16 | Fat32

  /** From this value on, a stored entry is a bad-cluster mark or an end mark. */
  function BadMark(v: Variant): int {
    match v case Fat12 => 0xFF7 case Fat16 => 0xFFF7 case Fat32 => 0x0FFF_FFF7
  }

  function EofMark(v: Variant): int {
    match v case Fat12 => 0xFFF case Fat16 => 0xFFFF case Fat32 => 0x0FFF_FFFF
  }

  function Bits(v: Variant): int {
    match v case Fat12 => 12 case Fat16 => 16 case Fat32 => 32
  }

  /** Number of bytes that hold some bit of an entry. */
  function Width(v: Variant): int {
    match v case Fat12 => 2 case Fat16 => 2 case Fat32 => 4
  }

  function Address(v: Variant, e: nat): nat {
    match v case Fat12 => e + e / 2 case Fat16 => 2 * e case Fat32 => 4 * e
  }

  ghost predicate Inside(v: Variant, bytes: seq<Byte>, e: nat) {
    Address(v, e) + Width(v) <= |bytes|
  }

  /** The bits of the entry at address a, before marks are interpreted. */
  function StoredAt(v: Variant, bytes: seq<Byte>, a: nat, odd: bool): int
    requires a + Width(v) <= |bytes|
  {
    var b0: int, b1: int := bytes[a], bytes[a + 1];
    match v
    case Fat12 => if odd then b0 / 16 + b1 * 16 else b0 + b1 % 16 * 256
    case Fat16 => b0 + b1 * 256
    case Fat32 =>
      var b2: int, b3: int := bytes[a + 2], bytes[a + 3];
      b0 + b1 * 256 + b2 * 65536 + b3 % 16 * 16777216
  }

  /** fat12_ent_get, fat16_ent_get, fat32_ent_get. */
  function GetAt(v: Variant, bytes: seq<Byte>, a: nat, odd: bool): int
    requires a + Width(v) <= |bytes|
  {
    var next := StoredAt(v, bytes, a, odd);
    if next >= BadMark(v) then EOF else next
  }

  function Stored(v: Variant, bytes: seq<Byte>, e: nat): int
    requires Inside(v, bytes, e)
  {
    StoredAt(v, bytes, Address(v, e), e % 2 == 1)
  }

  /** The value entry e decodes to. */
  function Get(v: Variant, bytes: seq<Byte>, e: nat): int
    requires Inside(v, bytes, e)
  {
    GetAt(v, bytes, Address(v, e), e % 2 == 1)
  }

  lemma GetIs(v: Variant, bytes: seq<Byte>, e: nat)
    requires Inside(v, bytes, e)
    ensures Get(v, bytes, e) == if Stored(v, bytes, e) >= BadMark(v) then EOF else Stored(v, bytes, e)
  {
    hide StoredAt, Address;
  }

  /** A value that fits the entry's bits, or the common end mark. */
  predicate Fits(v: Variant, value: int) {
    value == EOF || 0 <= value <= EofMark(v)
  }

  function Mark(v: Variant, value: int): int {
    if value == EOF then EofMark(v) else value
  }

  /** fat12_ent_put, fat16_ent_put, fat32_ent_put. */
  function PutAt(v: Variant, bytes: seq<Byte>, a: nat, odd: bool, value: int): (r: seq<Byte>)
    requires a + Width(v) <= |bytes| && Fits(v, value)
    ensures |r| == |bytes|
    ensures forall i :: 0 <= i < |bytes| && !(a <= i < a + Width(v)) ==> r[i] == bytes[i]
  {
    var n := Mark(v, value);
    match v
    case Fat12 =>
      if odd then bytes[a := n % 16 * 16 + bytes[a] % 16][a + 1 := n / 16]
      else bytes[a := n % 256][a + 1 := bytes[a + 1] / 16 * 16 + n / 256]
    case Fat16 => bytes[a := n % 256][a + 1 := n / 256]
    case Fat32 =>
      bytes[a := n % 256][a + 1 := n / 256 % 256][a + 2 := n / 65536 % 256]
        [a + 3 := n / 16777216 + bytes[a + 3] / 16 * 16]
  }

  function Put(v: Variant, bytes: seq<Byte>, e: nat, value: int): (r: seq<Byte>)
    requires Inside(v, bytes, e) && Fits(v, value)
    ensures |r| == |bytes|
  {
    PutAt(v, bytes, Address(v, e), e % 2 == 1, value)
  }

  /** What was put is what is read, exactly when it is not a mark other than EOF. */
  lemma PutThenGet(v: Variant, bytes: seq<Byte>, e: nat, value: int)
    requires Inside(v, bytes, e) && Fits(v, value)
    ensures Stored(v, Put(v, bytes, e, value), e) == Mark(v, value)
    ensures Get(v, Put(v, bytes, e, value), e) == value <==> value == EOF || value < BadMark(v)
  {
    match v
    case Fat12 => PutThenGet12(bytes, e, value);
    case Fat16 =>
    case Fat32 => PutThenGet32(bytes, e, value);
  }

  lemma PutThenGet12(bytes: seq<Byte>, e: nat, value: int)
    requires Inside(Fat12, bytes, e) && Fits(Fat12, value)
    ensures Stored(Fat12, Put(Fat12, bytes, e, value), e) == Mark(Fat12, value)
  {
    var r := Put(Fat12, bytes, e, value);
    var a := Address(Fat12, e);
    var n := Mark(Fat12, value);
    if e % 2 == 1 {
      assert r[a] / 16 == n % 16 by { HighNibble(n % 16, bytes[a] % 16); }
    } else {
      assert r[a + 1] % 16 == n / 256 by { HighNibble(bytes[a + 1] / 16, n / 256); }
    }
  }

  lemma PutThenGet32(bytes: seq<Byte>, e: nat, value: int)
    requires Inside(Fat32, bytes, e) && Fits(Fat32, value)
    ensures Stored(Fat32, Put(Fat32, bytes, e, value), e) == Mark(Fat32, value)
  {
    var r := Put(Fat32, bytes, e, value);
    var a := Address(Fat32, e);
    var n := Mark(Fat32, value);
    assert r[a + 3] % 16 == n / 16777216 by { HighNibble(bytes[a + 3] / 16, n / 16777216); }
    SplitWord(n);
  }

  lemma HighNibble(high: int, low: int)
    requires 0 <= low < 16
    ensures (high * 16 + low) / 16 == high && (high * 16 + low) % 16 == low
  {
  }

  lemma SplitWord(n: int)
    requires 0 <= n
    ensures n == n % 256 + n / 256 % 256 * 256 + n / 65536 % 256 * 65536 + n / 16777216 * 16777216
  {
    assert n / 65536 == n / 256 / 256;
    assert n / 16777216 == n / 65536 / 256;
  }

  /** Writing one entry leaves every other entry's value alone, also for two
      12-bit entries that share a byte. */
  lemma PutKeepsOthers(v: Variant, bytes: seq<Byte>, e: nat, value: int, other: nat)
    requires Inside(v, bytes, e) && Fits(v, value) && Inside(v, bytes, other) && other != e
    ensures Get(v, Put(v, bytes, e, value), other) == Get(v, bytes, other)
  {
    var r := Put(v, bytes, e, value);
    var b := Address(v, other);
    if v.Fat12? && (other == e + 1 || other == e - 1) {
      PutKeepsNeighbour(bytes, e, value, other);
    } else {
      assert forall i :: b <= i < b + Width(v) ==> r[i] == bytes[i];
    }
  }

  lemma PutKeepsNeighbour(bytes: seq<Byte>, e: nat, value: int, other: nat)
    requires Inside(Fat12, bytes, e) && Fits(Fat12, value) && Inside(Fat12, bytes, other)
    requires other == e + 1 || other == e - 1
    ensures Stored(Fat12, Put(Fat12, bytes, e, value), other) == Stored(Fat12, bytes, other)
  {
    var a := Address(Fat12, e);
    var n := Mark(Fat12, value);
    if e % 2 == 1 {
      HighNibble(n % 16, bytes[a] % 16);
    } else {
      HighNibble(bytes[a + 1] / 16, n / 256);
    }
  }

  // ----- entries as half bytes -----

  /** Half byte n of the table, the low half of a byte first. */
  function Half(bytes: seq<Byte>, n: nat): (r: nat)
    requires n / 2 < |bytes|
    ensures r < 16
  {
    if n % 2 == 0 then bytes[n / 2] % 16 else bytes[n / 2] / 16
  }

  /** The three half bytes of a number on a FAT12 table. */
  ghost predicate Holds12(bytes: seq<Byte>, e: nat, x: nat) {
    && (3 * e + 2) / 2 < |bytes|
    && Half(bytes, 3 * e) == x % 16 && Half(bytes, 3 * e + 1) == x / 16 % 16 && Half(bytes, 3 * e + 2) == x / 256
  }

  ghost predicate Holds16(bytes: seq<Byte>, e: nat, x: nat) {
    && 2 * e + 1 < |bytes| && bytes[2 * e] == x % 256 && bytes[2 * e + 1] == x / 256
  }

  /** Four bytes, of which the highest half byte is not part of the number. */
  ghost predicate Holds28(bytes: seq<Byte>, e: nat, x: nat) {
    && 4 * e + 3 < |bytes| && bytes[4 * e] == x % 256 && bytes[4 * e + 1] == x / 0x100 % 256
    && bytes[4 * e + 2] == x / 0x1_0000 % 256 && bytes[4 * e + 3] % 16 == x / 0x100_0000
  }

  /** Entry e of a table holds x: 12, 16 or 28 bits, lowest first. */
  ghost predicate HoldsEntry(v: Variant, bytes: seq<Byte>, e: nat, x: nat) {
    match v case Fat12 => Holds12(bytes, e, x) case Fat16 => Holds16(bytes, e, x) case Fat32 => Holds28(bytes, e, x)
  }

  lemma HalvesOf12(bytes: seq<Byte>, e: nat)
    requires Inside(Fat12, bytes, e)
    ensures var a := e + e / 2;
            && a + 1 < |bytes| && (3 * e + 2) / 2 == a + 1
            && (if e % 2 == 0 then
                  && Half(bytes, 3 * e) == bytes[a] % 16 && Half(bytes, 3 * e + 1) == bytes[a] / 16
                  && Half(bytes, 3 * e + 2) == bytes[a + 1] % 16
                else
                  && Half(bytes, 3 * e) == bytes[a] / 16 && Half(bytes, 3 * e + 1) == bytes[a + 1] % 16
                  && Half(bytes, 3 * e + 2) == bytes[a + 1] / 16)
  {
    var h := e / 2;
    if e % 2 == 0 {
      assert e == 2 * h && 3 * e == 2 * (3 * h) && e + h == 3 * h;
      assert (3 * e) / 2 == 3 * h && (3 * e + 1) / 2 == 3 * h && (3 * e + 2) / 2 == 3 * h + 1;
    } else {
      assert e == 2 * h + 1 && 3 * e == 2 * (3 * h + 1) + 1 && e + h == 3 * h + 1;
      assert (3 * e) / 2 == 3 * h + 1 && (3 * e + 1) / 2 == 3 * h + 2 && (3 * e + 2) / 2 == 3 * h + 2;
    }
  }

  /** What is stored in an entry is the number its bits hold. */
  lemma StoredIsHeld(v: Variant, bytes: seq<Byte>, e: nat, x: nat)
    requires Inside(v, bytes, e)
    ensures Stored(v, bytes, e) == x <==> HoldsEntry(v, bytes, e, x)
  {
    match v
    case Fat12 => StoredIsHeld12(bytes, e, x);
    case Fat16 =>
    case Fat32 => StoredIsHeld28(bytes, e, x);
  }

  lemma StoredIsHeld12(bytes: seq<Byte>, e: nat, x: nat)
    requires Inside(Fat12, bytes, e)
    ensures Stored(Fat12, bytes, e) == x <==> Holds12(bytes, e, x)
  {
    HalvesOf12(bytes, e);
    hide Half;
    var a := e + e / 2;
    var b0: int, b1: int := bytes[a], bytes[a + 1];
    if e % 2 == 0 {
      ThreeHalves(x, b0 % 16, b0 / 16, b1 % 16);
    } else {
      ThreeHalves(x, b0 / 16, b1 % 16, b1 / 16);
    }
  }

  lemma ThreeHalves(x: nat, a: int, b: int, c: int)
    requires 0 <= a < 16 && 0 <= b < 16 && 0 <= c < 16
    ensures x == a + 16 * b + 256 * c <==> a == x % 16 && b == x / 16 % 16 && c == x / 256
  {
  }

  lemma StoredIsHeld28(bytes: seq<Byte>, e: nat, x: nat)
    requires Inside(Fat32, bytes, e)
    ensures Stored(Fat32, bytes, e) == x <==> Holds28(bytes, e, x)
  {
    var a := 4 * e;
    FourParts(x, bytes[a], bytes[a + 1], bytes[a + 2], bytes[a + 3] % 16);
  }

  lemma FourParts(x: nat, a: int, b: int, c: int, d: int)
    requires 0 <= a < 256 && 0 <= b < 256 && 0 <= c < 256 && 0 <= d
    ensures x == a + 0x100 * b + 0x1_0000 * c + 0x100_0000 * d <==>
            a == x % 256 && b == x / 0x100 % 256 && c == x / 0x1_0000 % 256 && d == x / 0x100_0000
  {
    assert x / 0x1_0000 == x / 0x100 / 0x100 && x / 0x100_0000 == x / 0x100 / 0x100 / 0x100;
    if x == a + 0x100 * b + 0x1_0000 * c + 0x100_0000 * d {
      assert x % 256 == a && x / 0x100 == b + 0x100 * c + 0x1_0000 * d;
      assert x / 0x100 % 256 == b && x / 0x100 / 0x100 == c + 0x100 * d;
    }
  }

  /** An entry reads as the number it holds, or as the end where that is a mark. */
  lemma HeldReadsAs(v: Variant, bytes: seq<Byte>, e: nat, x: nat)
    requires Inside(v, bytes, e) && HoldsEntry(v, bytes, e, x)
    ensures Get(v, bytes, e) ==
            match v
            case Fat12 => if x >= 0xFF7 then 0x0FFF_FFFF else x
            case Fat16 => if x >= 0xFFF7 then 0x0FFF_FFFF else x
            case Fat32 => if x >= 0x0FFF_FFF7 then 0x0FFF_FFFF else x
  {
    hide Stored, HoldsEntry, Get;
    StoredIsHeld(v, bytes, e, x);
    GetIs(v, bytes, e);
  }

  /** After a put the entry holds the value, or the mark of the end, and the half
      byte of FAT32 that is not part of the number is as it was. */
  lemma PutHolds(v: Variant, bytes: seq<Byte>, e: nat, value: int)
    requires Inside(v, bytes, e) && Fits(v, value)
    ensures HoldsEntry(v, Put(v, bytes, e, value), e,
                       if value != 0x0FFF_FFFF then value
                       else match v case Fat12 => 0xFFF case Fat16 => 0xFFFF case Fat32 => 0x0FFF_FFFF)
    ensures v.Fat32? ==> Put(v, bytes, e, value)[4 * e + 3] / 16 == bytes[4 * e + 3] / 16
  {
    PutThenGet(v, bytes, e, value);
    var x := if value != 0x0FFF_FFFF then value
             else match v case Fat12 => 0xFFF case Fat16 => 0xFFFF case Fat32 => 0x0FFF_FFFF;
    StoredIsHeld(v, Put(v, bytes, e, value), e, x);
    hide Stored, HoldsEntry;
    if v.Fat32? { HighNibble(bytes[4 * e + 3] / 16, Mark(v, value) / 16777216); }
  }

  // ----- entries and blocks -----

  /** A table of fatLength blocks of blockSize bytes; entries 2 <= e < maxCluster are valid. */
  datatype Geometry = Geometry(variant: Variant, blockSize: nat, fatLength: nat, maxCluster: nat) {
    ghost predicate Valid() {
      && blockSize >= 512 && blockSize % 4 == 0
      && FIRST <= maxCluster <= BadMark(variant)
      && forall e: nat :: e < maxCluster ==> Address(variant, e) + Width(variant) <= fatLength * blockSize
    }

    /** fat_valid_entry */
    predicate ValidEntry(e: int) { FIRST <= e < maxCluster }
  }

  /** A cursor on one entry: the buffers held (block and, for an entry split
      over two blocks, the next one) and the addresses of its first two bytes. */
  datatype Cursor = Cursor(entry: nat, block: nat, buffers: nat, p0: nat, p1: nat) {
    /** The block numbers of the held buffers. */
    function Blocks(): (r: seq<nat>)
      ensures buffers == 1 ==> |r| == 1
      ensures |r| <= 2
    {
      if buffers == 2 then [block, block + 1] else [block]
    }
  }

  /** Placing a cursor directly: ent_blocknr, ent_bread, ent_set_ptr. */
  function Direct(g: Geometry, e: nat): Cursor
    requires g.blockSize > 0
  {
    var address := Address(g.variant, e);
    var offset := address % g.blockSize;
    var block := address / g.blockSize;
    var data := block * g.blockSize;
    if g.variant.Fat12? && offset + 1 >= g.blockSize
    then Cursor(e, block, 2, data + offset, data + g.blockSize)
    else Cursor(e, block, 1, data + offset, data + offset + 1)
  }

  /** Stepping a cursor: fat12_ent_next, fat16_ent_next, fat32_ent_next.  The
      flag is false when the buffers held do not reach the next entry. */
  function Next(g: Geometry, c: Cursor): (r: (bool, Cursor))
    ensures r.1.entry == c.entry + 1
  {
    var end := c.block * g.blockSize + g.blockSize;
    match g.variant
    case Fat12 =>
      var next := c.p1 + 1 + c.entry % 2;
      if c.buffers == 1 then
        if next < end - 1 then (true, c.(entry := c.entry + 1, p0 := next - 1, p1 := next))
        else (false, c.(entry := c.entry + 1))
      else
        (true, Cursor(c.entry + 1, c.block + 1, 1, next - 1, next))
    case Fat16 =>
      if c.p0 < end - 2 then (true, c.(entry := c.entry + 1, p0 := c.p0 + 2, p1 := c.p0 + 3))
      else (false, c.(entry := c.entry + 1))
    case Fat32 =>
      if c.p0 < end - 4 then (true, c.(entry := c.entry + 1, p0 := c.p0 + 4, p1 := c.p0 + 5))
      else (false, c.(entry := c.entry + 1))
  }

  /** The offset of a multiple of w in a block whose size is one too. */
  lemma AlignedOffset(a: nat, d: nat, w: nat)
    requires d > 0 && (w == 2 || w == 4) && a % w == 0 && d % w == 0
    ensures a % d % w == 0 && a % d + w <= d
  {
    var b, k := a / w, d / w;
    QuotientOf(b, k);
    var q, r := b / k, b % k;
    var p := q * k;
    assert b == p + r && a == w * b && d == w * k;
    assert q * d == w * p;
    assert a == q * d + w * r;
    QuotientIs(a, d, q);
  }

  /** A stepped cursor is the cursor a direct access would have built: same
      buffers and same bytes, so it decodes the same entry. */
  lemma NextIsDirect(g: Geometry, e: nat)
    requires g.Valid() && Next(g, Direct(g, e)).0
    ensures Next(g, Direct(g, e)).1 == Direct(g, e + 1)
  {
    if g.variant.Fat12? {
      NextIsDirect12(g, e);
    } else {
      NextIsDirectAligned(g, e);
    }
  }

  lemma NextIsDirect12(g: Geometry, e: nat)
    requires g.variant.Fat12? && g.blockSize >= 512 && Next(g, Direct(g, e)).0
    ensures Next(g, Direct(g, e)).1 == Direct(g, e + 1)
  {
    var d := g.blockSize;
    var a := Address(g.variant, e);
    var c := Direct(g, e);
    QuotientOf(a, d);
    var b := Address(g.variant, e + 1);
    assert b == a + 1 + e % 2;
    if c.buffers == 1 {
      QuotientIs(b, d, c.block);
    } else {
      assert (c.block + 1) * d == c.block * d + d;
      QuotientIs(b, d, c.block + 1);
    }
  }

  lemma WidthDivides(v: Variant, e: nat, d: nat)
    requires !v.Fat12? && d % 4 == 0
    ensures (Width(v) == 2 || Width(v) == 4) && Address(v, e) % Width(v) == 0 && d % Width(v) == 0
  {
    match v {
      case Fat16 =>
        assert Width(v) == 2 && Address(v, e) == 2 * e;
        assert d == 2 * (2 * (d / 4));
        EvenMultiple(e, 2);
        EvenMultiple(2 * (d / 4), 2);
      case Fat32 =>
        assert Width(v) == 4 && Address(v, e) == 4 * e;
        EvenMultiple(e, 4);
    }
  }

  lemma EvenMultiple(x: nat, w: nat)
    requires w == 2 || w == 4
    ensures (w * x) % w == 0
  {
    if w == 2 { assert (2 * x) % 2 == 0; } else { assert (4 * x) % 4 == 0; }
  }

  lemma AddressAligned(v: Variant, e: nat, d: nat)
    requires !v.Fat12? && d >= 512 && d % 4 == 0
    ensures Address(v, e) % d + Width(v) <= d
  {
    hide Address, Width;
    WidthDivides(v, e, d);
    AlignedOffset(Address(v, e), d, Width(v));
  }

  /** What a directly placed cursor holds. */
  lemma DirectIs(g: Geometry, e: nat)
    requires g.blockSize >= 512 && g.blockSize % 4 == 0
    ensures var a, d := Address(g.variant, e), g.blockSize;
            && a == a / d * d + a % d && a % d < d
            && Direct(g, e) == Cursor(e, a / d, if g.variant.Fat12? && a % d + 1 == d then 2 else 1, a, a + 1)
            && (!g.variant.Fat12? ==> a % d + Width(g.variant) <= d)
  {
    hide Address, Width;
    QuotientOf(Address(g.variant, e), g.blockSize);
    if !g.variant.Fat12? { AddressAligned(g.variant, e, g.blockSize); }
  }

  lemma NextIsDirectAligned(g: Geometry, e: nat)
    requires !g.variant.Fat12? && g.blockSize >= 512 && g.blockSize % 4 == 0 && Next(g, Direct(g, e)).0
    ensures Next(g, Direct(g, e)).1 == Direct(g, e + 1)
  {
    hide Direct;
    DirectIs(g, e);
    DirectIs(g, e + 1);
    var d, w, a := g.blockSize, Width(g.variant), Address(g.variant, e);
    assert Address(g.variant, e + 1) == a + w;
    hide Address;
    SameBlock(a, d, w);
  }

  /** When a step goes on: on FAT16 and FAT32 while the next entry is in the same
      block; on FAT12 from an entry split over two blocks always, and else while
      the next entry ends at least one byte before the end of the block. */
  lemma NextGoesOnIff(g: Geometry, e: nat)
    requires g.Valid()
    ensures var d := g.blockSize;
            Next(g, Direct(g, e)).0 <==>
            match g.variant
            case Fat12 =>
              var a, b := e + e / 2, e + 1 + (e + 1) / 2;
              a % d == d - 1 || b + 2 < (a / d + 1) * d
            case Fat16 => (2 * e + 2) / d == 2 * e / d
            case Fat32 => (4 * e + 4) / d == 4 * e / d
  {
    if g.variant.Fat12? { GoesOn12(g, e); } else { GoesOnAligned(g, e); }
  }

  lemma GoesOn12(g: Geometry, e: nat)
    requires g.variant.Fat12? && g.blockSize >= 512
    ensures var d, a, b := g.blockSize, e + e / 2, e + 1 + (e + 1) / 2;
            Next(g, Direct(g, e)).0 <==> a % d == d - 1 || b + 2 < (a / d + 1) * d
  {
    var d, a := g.blockSize, e + e / 2;
    QuotientOf(a, d);
    assert e + 1 + (e + 1) / 2 == a + 1 + e % 2;
    assert (a / d + 1) * d == a / d * d + d;
  }

  lemma GoesOnAligned(g: Geometry, e: nat)
    requires !g.variant.Fat12? && g.blockSize >= 512 && g.blockSize % 4 == 0
    ensures var d, w := g.blockSize, Width(g.variant);
            Next(g, Direct(g, e)).0 <==> (Address(g.variant, e) + w) / d == Address(g.variant, e) / d
  {
    hide Direct;
    DirectIs(g, e);
    var d, w, a := g.blockSize, Width(g.variant), Address(g.variant, e);
    WidthDivides(g.variant, e, d);
    AlignedOffset(a, d, w);
    hide Address;
    QuotientOf(a, d);
    if a % d + w < d {
      SameBlock(a, d, w);
    } else {
      assert (a / d + 1) * d == a / d * d + d;
      QuotientIs(a + w, d, a / d + 1);
    }
  }

  /** The addresses after an aligned one, up to the end of its block. */
  lemma SameBlock(a: nat, d: nat, k: nat)
    requires d > 0 && a % d + k < d
    ensures (a + k) / d == a / d && (a + k) % d == a % d + k
  {
    QuotientOf(a, d);
    QuotientIs(a + k, d, a / d);
  }

  /** The first address of the next block. */
  lemma NextBlock(a: nat, d: nat)
    requires d > 0 && a % d + 1 == d
    ensures (a + 1) / d == a / d + 1 && a + 1 == (a / d + 1) * d
  {
    QuotientOf(a, d);
    assert (a / d + 1) * d == a / d * d + d;
    QuotientIs(a + 1, d, a / d + 1);
  }

  lemma ByteInBlocks(d: nat, a: nat, i: nat, blocks: seq<nat>)
    requires d > 0 && a <= i && blocks != [] && blocks[0] == a / d
    requires a % d + (i - a) < d || (i == a + 1 && a % d + 1 == d && |blocks| == 2 && blocks[1] == a / d + 1)
    ensures i / d in blocks
  {
    if a % d + (i - a) < d {
      SameBlock(a, d, i - a);
      assert blocks[0] == i / d;
    } else {
      NextBlock(a, d);
      assert blocks[1] == i / d;
    }
  }

  /** The cursor's addresses are the entry's, and its buffers hold every byte of it. */
  lemma DirectCovers(g: Geometry, e: nat)
    requires g.Valid()
    ensures var c := Direct(g, e); var a := Address(g.variant, e);
            && c.p0 == a && c.p1 == a + 1 && (c.buffers == 1 || c.buffers == 2)
            && forall i :: a <= i < a + Width(g.variant) ==> i / g.blockSize in c.Blocks()
  {
    hide Direct, Address;
    var d, w, a := g.blockSize, Width(g.variant), Address(g.variant, e);
    DirectIs(g, e);
    var blocks := Direct(g, e).Blocks();
    forall i | a <= i < a + w
      ensures i / d in blocks
    {
      ByteInBlocks(d, a, i, blocks);
    }
  }

  // ----- geometry -----

  const TWO32 := 0x1_0000_0000

  /** calc_fat_clusters, before the result is cut to 32 bits. */
  function FatClusters(v: Variant, blockSize: nat, fatLength: nat): nat {
    if v.Fat12? then fatLength * blockSize * 8 / 12
    else blockSize * 8 / Bits(v) * fatLength
  }

  /** The end of fat_fill_super's geometry check: the number of clusters the
      data area asks for, cut to what the table can hold, in 32-bit arithmetic.
      Returns max_cluster, or None where the mount is refused. */
  function MountGeometry(v: Variant, blockSize: nat, fatLength: nat, dataClusters: nat, maxFat: nat)
    : (r: Option<nat>)
  {
    var fatClusters := FatClusters(v, blockSize, fatLength) % TWO32;
    var room := (fatClusters - FIRST) % TWO32;
    var total := if dataClusters < room then dataClusters else room;
    if total > maxFat then None else Some(total + FIRST)
  }

  /** Every accepted geometry keeps the bytes of every valid entry inside the
      table, also where the cluster count wraps at 32 bits. */
  lemma AcceptedGeometryFits(v: Variant, blockSize: nat, fatLength: nat, dataClusters: nat, maxFat: nat, e: nat)
    requires blockSize in {512, 1024, 2048, 4096} && fatLength > 0
    requires maxFat < TWO32 - FIRST
    requires var m := MountGeometry(v, blockSize, fatLength, dataClusters, maxFat); m.Some? && e < m.value
    ensures Address(v, e) + Width(v) <= fatLength * blockSize
  {
    var all := FatClusters(v, blockSize, fatLength);
    assert all >= 128 by {
      if v.Fat12? {
        assert fatLength * blockSize >= 512;
      } else {
        assert blockSize * 8 / Bits(v) >= 128;
      }
    }
    assert e < all;
    match v
    case Fat12 =>
    case Fat16 => assert blockSize * 8 / 16 == blockSize / 2;
    case Fat32 => assert blockSize * 8 / 32 == blockSize / 4;
  }

  /** Links to every valid cluster read back as themselves exactly when no valid
      cluster number is a bad-cluster mark. */
  lemma LinksReadBack(v: Variant, bytes: seq<Byte>, e: nat, maxCluster: nat)
    requires Inside(v, bytes, e) && FIRST < maxCluster <= EofMark(v)
    ensures (forall c | FIRST <= c < maxCluster :: Get(v, Put(v, bytes, e, c), e) == c)
            <==> maxCluster <= BadMark(v)
  {
    forall c | FIRST <= c < maxCluster
      ensures Get(v, Put(v, bytes, e, c), e) == c <==> c < BadMark(v)
    {
      PutThenGet(v, bytes, e, c);
    }
    if maxCluster > BadMark(v) {
      assert Get(v, Put(v, bytes, e, maxCluster - 1), e) != maxCluster - 1;
    }
  }

  /** MAX_FAT12, MAX_FAT16 and MAX_FAT32 of the kernel's headers. */
  function MaxFat(v: Variant): nat {
    match v case Fat12 => 0xFF4 case Fat16 => 0xFFF4 case Fat32 => 0x0FFF_FFF6
  }

  /** The entries that fit a table. */
  ghost function EntriesIn(v: Variant, blockSize: nat, fatLength: nat): nat {
    match v
    case Fat12 => fatLength * blockSize * 8 / 12
    case Fat16 => blockSize / 2 * fatLength
    case Fat32 => blockSize / 4 * fatLength
  }

  lemma FatClustersAre(v: Variant, blockSize: nat, fatLength: nat)
    requires blockSize in {512, 1024, 2048, 4096}
    ensures FatClusters(v, blockSize, fatLength) == EntriesIn(v, blockSize, fatLength)
  {
    assert blockSize * 8 / 16 == blockSize / 2 && blockSize * 8 / 32 == blockSize / 4;
  }

  /** A mount is accepted exactly when the clusters of the data area or the entries
      of the table are few enough, and then uses as many as both have. */
  lemma AcceptedIff(v: Variant, blockSize: nat, fatLength: nat, dataClusters: nat)
    requires blockSize in {512, 1024, 2048, 4096} && 2 <= EntriesIn(v, blockSize, fatLength) < 0x1_0000_0000
    ensures var most := match v case Fat12 => 0xFF4 case Fat16 => 0xFFF4 case Fat32 => 0x0FFF_FFF6;
            var room := EntriesIn(v, blockSize, fatLength) - 2;
            var m := MountGeometry(v, blockSize, fatLength, dataClusters, MaxFat(v));
            && (m.Some? <==> dataClusters <= most || room <= most)
            && (m.Some? ==> m.value == 2 + if dataClusters < room then dataClusters else room)
  {
    hide EntriesIn, FatClusters;
    FatClustersAre(v, blockSize, fatLength);
  }

  /** An accepted geometry is a valid one, with links that read back, except for
      the largest FAT32 volume. */
  lemma AcceptedIsValidIff(v: Variant, blockSize: nat, fatLength: nat, dataClusters: nat)
    requires blockSize in {512, 1024, 2048, 4096} && fatLength > 0
    requires MountGeometry(v, blockSize, fatLength, dataClusters, MaxFat(v)).Some?
    ensures var m := MountGeometry(v, blockSize, fatLength, dataClusters, MaxFat(v)).value;
            Geometry(v, blockSize, fatLength, m).Valid() <==> !(v == Fat32 && m == 0x0FFF_FFF8)
  {
    var m := MountGeometry(v, blockSize, fatLength, dataClusters, MaxFat(v)).value;
    assert FIRST <= m && (m <= BadMark(v) <==> !(v == Fat32 && m == 0x0FFF_FFF8));
    forall e: nat | e < m ensures Address(v, e) + Width(v) <= fatLength * blockSize {
      AcceptedGeometryFits(v, blockSize, fatLength, dataClusters, MaxFat(v), e);
    }
  }

  /** That volume is accepted, and the link to its last cluster is lost. */
  lemma LargestVolumeLosesALink(bytes: seq<Byte>, e: nat)
    requires Inside(Fat32, bytes, e)
    ensures MountGeometry(Fat32, 512, 0x20_0000, 0x0FFF_FFF6, MaxFat(Fat32)) == Some(0x0FFF_FFF8)
    ensures Get(Fat32, Put(Fat32, bytes, e, 0x0FFF_FFF7), e) == EOF
  {
    hide *;
    LargestIsAccepted();
    LinkToBadMark(bytes, e);
  }

  lemma LargestIsAccepted()
    ensures MountGeometry(Fat32, 512, 0x20_0000, 0x0FFF_FFF6, MaxFat(Fat32)) == Some(0x0FFF_FFF8)
  {
  }

  lemma LinkToBadMark(bytes: seq<Byte>, e: nat)
    requires Inside(Fat32, bytes, e)
    ensures Get(Fat32, Put(Fat32, bytes, e, 0x0FFF_FFF7), e) == EOF
  {
    hide Put, Get, Stored;
    PutThenGet(Fat32, bytes, e, 0x0FFF_FFF7);
    GetIs(Fat32, Put(Fat32, bytes, e, 0x0FFF_FFF7), e);
  }
}
