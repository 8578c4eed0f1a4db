/** Long file names of vfat: a name is cut into records of 13 UTF-16 units, the
    last piece first, in front of the 8.3 record; the parser puts it together
    again. */
module LongName {
  import opened FatFormat

  const RECORD := 32
  const PER_SLOT := 13
  const MAX_SLOTS := 20
  const ATTR_EXT := 15
  const LAST := 64
  const DELETED := 0xe5

  type Unit = x: int | 0 <= x < 0x1_0000

  type Record = r: seq<Byte> | |r| == RECORD witness seq(RECORD, _ => 0)

  // ----- records -----

  function Low(u: Unit): Byte { u % 256 }

  function High(u: Unit): Byte { u / 256 }

  function Join(low: Byte, high: Byte): Unit {
    var l: int, h: int := low, high;
    l + 256 * h
  }

  lemma JoinOfParts(u: Unit)
    ensures Join(Low(u), High(u)) == u
  {
  }

  /** fatwchar_to16 */
  function Pack(units: seq<Unit>): (r: seq<Byte>)
    ensures |r| == 2 * |units|
    ensures forall k :: 0 <= k < |units| ==> r[2 * k] == Low(units[k]) && r[2 * k + 1] == High(units[k])
  {
    if units == [] then [] else Pack(units[..|units| - 1]) + [Low(units[|units| - 1]), High(units[|units| - 1])]
  }

  /** fat16_towchar */
  function Unpack(bytes: seq<Byte>): (r: seq<Unit>)
    ensures |r| == |bytes| / 2
  {
    seq(|bytes| / 2, k requires 0 <= k < |bytes| / 2 => Join(bytes[2 * k], bytes[2 * k + 1]))
  }

  lemma UnpackOfPack(units: seq<Unit>)
    ensures Unpack(Pack(units)) == units
  {
    hide Low, High, Join, Pack;
    forall k | 0 <= k < |units| ensures Unpack(Pack(units))[k] == units[k] {
      JoinOfParts(units[k]);
    }
  }

  predicate IsLast(r: Record) { (r[0] / LAST) % 2 == 1 }

  /** The slot number without the mark of the last slot. */
  function Number(r: Record): nat { if IsLast(r) then r[0] - LAST else r[0] }

  function Attr(r: Record): Byte { r[11] }

  function Sum(r: Record): Byte { r[13] }

  function Units(r: Record): (u: seq<Unit>)
    ensures |u| == PER_SLOT
  {
    Unpack(r[1..11]) + Unpack(r[14..26]) + Unpack(r[28..32])
  }

  function SlotRecord(id: Byte, sum: Byte, units: seq<Unit>): (r: Record)
    requires |units| == PER_SLOT
  {
    [id] + Pack(units[..5]) + [ATTR_EXT, 0, sum] + Pack(units[5..11]) + [0, 0] + Pack(units[11..])
  }

  lemma SlotReadsBack(id: Byte, sum: Byte, units: seq<Unit>)
    requires |units| == PER_SLOT
    ensures var r := SlotRecord(id, sum, units);
            r[0] == id && Attr(r) == ATTR_EXT && Sum(r) == sum && Units(r) == units
  {
    hide Pack, Unpack;
    var r := SlotRecord(id, sum, units);
    assert r[1..11] == Pack(units[..5]);
    assert r[14..26] == Pack(units[5..11]);
    assert r[28..32] == Pack(units[11..]);
    UnpackOfPack(units[..5]);
    UnpackOfPack(units[5..11]);
    UnpackOfPack(units[11..]);
    assert units == units[..5] + units[5..11] + units[11..];
  }

  /** Where unit k of a slot lies in the record. */
  function Place(k: nat): (r: nat)
    requires k < 13
    ensures k < 5 ==> r == 1 + 2 * k
    ensures 5 <= k < 11 ==> r == 14 + 2 * (k - 5)
    ensures 11 <= k ==> r == 28 + 2 * (k - 11)
  {
    if k < 5 then 1 + 2 * k else if k < 11 then 4 + 2 * k else 6 + 2 * k
  }

  /** The record byte by byte: number, units with the low byte first in three
      groups, attributes 15, and zeros. */
  ghost predicate IsSlot(r: Record, id: int, sum: int, units: seq<Unit>) {
    && |units| == 13 && r[0] == id && r[11] == 15 && r[12] == 0 && r[13] == sum && r[26] == 0 && r[27] == 0
    && forall k :: 0 <= k < 13 ==> r[Place(k)] == units[k] % 256 && r[Place(k) + 1] == units[k] / 256
  }

  lemma SlotRecordIs(id: Byte, sum: Byte, units: seq<Unit>)
    requires |units| == PER_SLOT
    ensures IsSlot(SlotRecord(id, sum, units), id, sum, units)
  {
    var r := SlotRecord(id, sum, units);
    hide Pack, SlotRecord;
    SlotParts(id, sum, units);
    forall k | 0 <= k < 13 ensures r[Place(k)] == units[k] % 256 && r[Place(k) + 1] == units[k] / 256 {
      if k < 5 {
        var g := units[..5];
        assert r[1..11][2 * k] == Low(g[k]) && r[1..11][2 * k + 1] == High(g[k]);
      } else if k < 11 {
        var g := units[5..11];
        assert r[14..26][2 * (k - 5)] == Low(g[k - 5]) && r[14..26][2 * (k - 5) + 1] == High(g[k - 5]);
      } else {
        var g := units[11..];
        assert r[28..32][2 * (k - 11)] == Low(g[k - 11]) && r[28..32][2 * (k - 11) + 1] == High(g[k - 11]);
      }
    }
  }

  lemma SlotParts(id: Byte, sum: Byte, units: seq<Unit>)
    requires |units| == PER_SLOT
    ensures var r := SlotRecord(id, sum, units);
            && r[0] == id && r[11] == 15 && r[12] == 0 && r[13] == sum && r[26] == 0 && r[27] == 0
            && r[1..11] == Pack(units[..5]) && r[14..26] == Pack(units[5..11]) && r[28..32] == Pack(units[11..])
  {
    hide Pack;
  }

  /** fat_checksum: rotate right by one and add. */
  function Rotate(s: Byte, c: Byte): Byte { ((s % 2) * 128 + s / 2 + c) % 256 }

  function Checksum(name: seq<Byte>): Byte
    requires name != []
    decreases |name|
  {
    if |name| == 1 then name[0] else Rotate(Checksum(name[..|name| - 1]), name[|name| - 1])
  }

  /** Rotating the sum left again gives the sum before the character. */
  lemma RotateBack(s: Byte, c: Byte)
    ensures var t: int := (Rotate(s, c) - c) % 256; 2 * t % 256 + 2 * t / 256 == s
  {
    var u: int := (s % 2) * 128 + s / 2;
    assert 0 <= u < 256;
    assert (Rotate(s, c) - c) % 256 == u by {
      var x := u + c;
      assert x % 256 == x || x % 256 == x - 256;
    }
  }

  /** The checksum of "README  TXT". */
  lemma ChecksumOfReadme()
    ensures Checksum([82, 69, 65, 68, 77, 69, 32, 32, 84, 88, 84]) == 115
  {
    hide Checksum;
    var d: seq<Byte> := [82];
    ChecksumOne(82);
    ChecksumNext(d, 69, 82, 110);
    d := d + [69];
    ChecksumNext(d, 65, 110, 120);
    d := d + [65];
    ChecksumNext(d, 68, 120, 128);
    d := d + [68];
    ChecksumNext(d, 77, 128, 141);
    d := d + [77];
    ChecksumNext(d, 69, 141, 11);
    d := d + [69];
    ChecksumNext(d, 32, 11, 165);
    d := d + [32];
    ChecksumNext(d, 32, 165, 242);
    d := d + [32];
    ChecksumNext(d, 84, 242, 205);
    d := d + [84];
    ChecksumNext(d, 88, 205, 62);
    d := d + [88];
    ChecksumNext(d, 84, 62, 115);
    d := d + [84];
    assert d == [82, 69, 65, 68, 77, 69, 32, 32, 84, 88, 84];
  }

  lemma ChecksumOne(c: Byte)
    ensures Checksum([c]) == c
  {
  }

  lemma ChecksumNext(d: seq<Byte>, c: Byte, s: Byte, r: Byte)
    requires d != [] && Checksum(d) == s && Rotate(s, c) == r
    ensures Checksum(d + [c]) == r
  {
    assert (d + [c])[..|d|] == d;
  }

  // ----- building -----

  /** The end of xlate_to_uni: a zero and then 0xffff up to a multiple of 13. */
  function Padded(name: seq<Unit>): (r: seq<Unit>)
    ensures |r| % PER_SLOT == 0 && |name| <= |r| < |name| + PER_SLOT && name <= r
    ensures |name| < |r| ==> r[|name|] == 0
    ensures forall k :: |name| < k < |r| ==> r[k] == 0xffff
  {
    if |name| % PER_SLOT == 0 then name
    else name + [0] + seq(PER_SLOT - 1 - |name| % PER_SLOT, _ => 0xffff)
  }

  method Pad(name: seq<Unit>) returns (r: seq<Unit>)
    ensures r == Padded(name)
  {
    r := name;
    if |r| % PER_SLOT != 0 {
      r := r + [0];
      if |r| % PER_SLOT != 0 {
        var fill := PER_SLOT - |r| % PER_SLOT;
        for i := 0 to fill
          invariant r == name + [0] + seq(i, _ => 0xffff)
        {
          r := r + [0xffff];
        }
      }
    }
  }

  /** Record k of a name: slot count - k, the first record marked as the last slot. */
  function NthRecord(padded: seq<Unit>, sum: Byte, k: nat): Record
    requires |padded| % PER_SLOT == 0 && k < |padded| / PER_SLOT <= MAX_SLOTS
  {
    var i := |padded| / PER_SLOT - k;
    SlotRecord(if k == 0 then LAST + i else i, sum, padded[(i - 1) * PER_SLOT..i * PER_SLOT])
  }

  /** The slot loop of vfat_build_slots. */
  method BuildSlots(name: seq<Unit>, alias: seq<Byte>) returns (slots: seq<Record>)
    requires 0 < |name| <= 255 && |alias| == 11
    ensures |slots| == |Padded(name)| / PER_SLOT <= MAX_SLOTS
    ensures forall k :: 0 <= k < |slots| ==> slots[k] == NthRecord(Padded(name), Checksum(alias), k)
    ensures forall k :: 0 <= k < |slots| ==>
              var i := |slots| - k;
              IsSlot(slots[k], i + (if k == 0 then 64 else 0), Checksum(alias), Padded(name)[13 * (i - 1)..13 * i])
  {
    hide SlotRecord, Checksum, IsSlot;
    var padded := Pad(name);
    var sum := Checksum(alias);
    var count := |padded| / PER_SLOT;
    slots := [];
    var i := count;
    while i > 0
      invariant 0 <= i <= count && |slots| == count - i
      invariant forall k :: 0 <= k < |slots| ==>
                  slots[k] == SlotRecord(count - k, sum, padded[(count - k - 1) * PER_SLOT..(count - k) * PER_SLOT])
    {
      slots := slots + [SlotRecord(i, sum, padded[(i - 1) * PER_SLOT..i * PER_SLOT])];
      i := i - 1;
    }
    slots := slots[0 := Marked(slots[0])];
    MarkedIs(count, sum, padded[(count - 1) * PER_SLOT..count * PER_SLOT]);
    forall k | 0 <= k < |slots|
      ensures var i := |slots| - k;
              IsSlot(slots[k], i + (if k == 0 then 64 else 0), sum, padded[13 * (i - 1)..13 * i])
    {
      var i := |slots| - k;
      SlotRecordIs(if k == 0 then LAST + i else i, sum, padded[(i - 1) * PER_SLOT..i * PER_SLOT]);
    }
  }

  /** slots[0].id |= 0x40 */
  function Marked(r: Record): Record { if IsLast(r) then r else r[0 := r[0] + LAST] }

  lemma MarkedIs(i: nat, sum: Byte, units: seq<Unit>)
    requires |units| == PER_SLOT && i <= MAX_SLOTS
    ensures Marked(SlotRecord(i, sum, units)) == SlotRecord(LAST + i, sum, units)
  {
    hide Pack;
  }

  // ----- parsing -----

  datatype Parsed = Ok | Invalid | NotLongName | Eof

  /** How the slots that begin at a record end. */
  datatype Slots = Complete | Broken | Foreign | Ended

  predicate IsFree(r: Record): (b: bool)
    ensures b <==> r[0] in {0, 0xe5}
  {
    r[0] == 0 || r[0] == DELETED
  }

  /** A record with an 8.3 name. */
  predicate IsShort(r: Record): (b: bool)
    ensures b <==> r[0] !in {0, 0xe5} && r[11] != 15 && (r[11] / 8) % 2 == 0
  {
    !IsFree(r) && Attr(r) != ATTR_EXT && (Attr(r) / 8) % 2 == 0
  }

  /** Do the slots of one name, all n of them, begin at this record? */
  ghost predicate Proper(dir: seq<Record>, first: nat, n: nat) {
    && 1 <= n <= MAX_SLOTS && first + n <= |dir| && IsLast(dir[first]) && Number(dir[first]) == n
    && forall k :: first < k < first + n ==>
         Attr(dir[k]) == ATTR_EXT && Number(dir[k]) == n - (k - first) && Sum(dir[k]) == Sum(dir[first])
  }

  /** The slots of one name, with the 8.3 record they belong to. */
  ghost predicate LongEntry(dir: seq<Record>, first: nat, n: nat) {
    Proper(dir, first, n) && first + n < |dir| && IsShort(dir[first + n])
  }

  /** The buffer once a slot was stored; the slot marked as last also ends the name. */
  function Stored(buffer: seq<Unit>, slot: nat, r: Record): (b: seq<Unit>)
    requires (slot + 1) * PER_SLOT < |buffer|
    ensures |b| == |buffer|
  {
    var b := buffer[..slot * PER_SLOT] + Units(r) + buffer[(slot + 1) * PER_SLOT..];
    if IsLast(r) then b[(slot + 1) * PER_SLOT := 0] else b
  }

  lemma StoredUnit(buffer: seq<Unit>, slot: nat, r: Record, q: nat)
    requires (slot + 1) * PER_SLOT < |buffer| && q < |buffer|
    ensures Stored(buffer, slot, r)[q] ==
            if slot * PER_SLOT <= q < (slot + 1) * PER_SLOT then Units(r)[q - slot * PER_SLOT]
            else if q == (slot + 1) * PER_SLOT && IsLast(r) then 0
            else buffer[q]
  {
    hide Units;
  }

  /** The buffer once slots n - 1 down to m were stored. */
  function Filled(buffer: seq<Unit>, dir: seq<Record>, first: nat, n: nat, m: nat): (b: seq<Unit>)
    requires m <= n && n * PER_SLOT < |buffer| && first + n <= |dir|
    ensures |b| == |buffer|
    decreases n - m
  {
    if m == n then buffer else Stored(Filled(buffer, dir, first, n, m + 1), m, dir[first + (n - 1 - m)])
  }

  method StoreSlot(unicode: array<Unit>, slot: nat, r: Record)
    requires (slot + 1) * PER_SLOT < unicode.Length
    modifies unicode
    ensures unicode[..] == Stored(old(unicode[..]), slot, r)
  {
    hide Units;
    var units, from := Units(r), slot * PER_SLOT;
    for i := 0 to PER_SLOT
      invariant forall q :: 0 <= q < unicode.Length ==>
                  unicode[q] == if from <= q < from + i then units[q - from] else old(unicode[q])
    {
      unicode[from + i] := units[i];
    }
    if IsLast(r) { unicode[(slot + 1) * PER_SLOT] := 0; }
    forall q | 0 <= q < unicode.Length ensures unicode[q] == Stored(old(unicode[..]), slot, r)[q] {
      StoredUnit(old(unicode[..]), slot, r, q);
    }
  }

  /** The slot loop of fat_parse_long. */
  method ParseSlots(dir: seq<Record>, first: nat, unicode: array<Unit>, ghost before: seq<Unit>)
    returns (r: Slots, pos: nat)
    requires first < |dir| && IsLast(dir[first]) && 1 <= Number(dir[first]) <= MAX_SLOTS
    requires MAX_SLOTS * PER_SLOT < unicode.Length && before == unicode[..]
    modifies unicode
    ensures first < pos <= |dir| && (r == Broken ==> first + 1 < pos)
    ensures r == Ended ==> pos == |dir|
    ensures r == Foreign ==> dir[pos - 1][11] != 15
    ensures r == Broken ==> dir[pos - 1][11] == 15
    ensures var n := Number(dir[first]);
            && (r == Complete <==> Proper(dir, first, n) && first + n < |dir|)
            && (r == Complete ==> pos == first + n + 1 && unicode[..] == Filled(before, dir, first, n, 0))
  {
    hide Stored, Units;
    var slots := Number(dir[first]);
    var slot := slots;
    var ds := dir[first];
    pos := first + 1;
    while true
      invariant 1 <= slot <= slots && pos == first + 1 + (slots - slot) && pos <= |dir| && ds == dir[pos - 1]
      invariant forall k :: first < k < pos ==>
                  Attr(dir[k]) == ATTR_EXT && Number(dir[k]) == slots - (k - first) && Sum(dir[k]) == Sum(dir[first])
      invariant first + slots <= |dir| ==> unicode[..] == Filled(before, dir, first, slots, slot)
      decreases slot
    {
      slot := slot - 1;
      StoreSlot(unicode, slot, ds);
      if pos == |dir| { return Ended, pos; }
      pos := pos + 1;
      if slot == 0 { return Complete, pos; }
      ds := dir[pos - 1];
      if Attr(ds) != ATTR_EXT { return Foreign, pos; }
      if Number(ds) != slot { return Broken, pos; }
      if Sum(ds) != Sum(dir[first]) { return Broken, pos; }
    }
  }

  /** fat_parse_long on any directory.  A result is a proper sequence of slots in
      front of an 8.3 record, and such a sequence where parsing starts is found. */
  method ParseLong(dir: seq<Record>, start: nat, unicode: array<Unit>)
    returns (r: Parsed, pos: nat, slots: nat, ghost n: nat)
    requires 1 <= start <= |dir| && MAX_SLOTS * PER_SLOT < unicode.Length
    modifies unicode
    ensures start <= pos <= |dir|
    ensures r == Ok ==>
              && n < pos && LongEntry(dir, pos - 1 - n, n)
              && slots == (if Checksum(dir[pos - 1][..11]) == Sum(dir[pos - 1 - n]) then n else 0)
              && forall q :: 0 <= q <= n * PER_SLOT ==> unicode[q] == Heard(dir, pos - 1 - n, n, q)
    ensures r == Eof ==> pos == |dir|
    ensures r == NotLongName ==> dir[pos - 1][11] != 15
    ensures r == Invalid ==>
              !IsShort(dir[pos - 1]) || !IsLast(dir[pos - 1]) || !(1 <= Number(dir[pos - 1]) <= 20)
    ensures LongEntry(dir, start - 1, Number(dir[start - 1])) ==>
              r == Ok && n == Number(dir[start - 1]) && pos == start + n
  {
    hide Checksum, Filled, Heard, Units;
    pos, slots, n := start, 0, 0;
    while true
      invariant start <= pos <= |dir|
      invariant pos > start ==> !LongEntry(dir, start - 1, Number(dir[start - 1]))
      decreases |dir| - pos
    {
      var first := pos - 1;
      var ds := dir[first];
      if !IsLast(ds) || Number(ds) > MAX_SLOTS || Number(ds) == 0 { return Invalid, pos, slots, 0; }
      slots, n := Number(ds), Number(ds);
      ghost var before := unicode[..];
      var how;
      how, pos := ParseSlots(dir, first, unicode, before);
      match how {
        case Ended => return Eof, pos, slots, n;
        case Foreign => return NotLongName, pos, slots, n;
        case Broken =>
        case Complete =>
          var de := dir[pos - 1];
          if de[0] == DELETED { return Invalid, pos, slots, n; }
          if Attr(de) != ATTR_EXT {
            if IsFree(de) || (Attr(de) / 8) % 2 == 1 { return Invalid, pos, slots, n; }
            if Checksum(de[..11]) != Sum(ds) { slots := 0; }
            FilledIsHeard(before, dir, first, n);
            return Ok, pos, slots, n;
          }
      }
    }
  }

  /** Unit q of the name that n slots spell.  A slot that carries the mark of the
      last one ends the name after it, wherever it is. */
  function Heard(dir: seq<Record>, first: nat, n: nat, q: nat): Unit
    requires 1 <= n && first + n <= |dir| && q <= n * PER_SLOT
  {
    var slot := q / PER_SLOT;
    if q == n * PER_SLOT || (q % PER_SLOT == 0 && slot > 0 && IsLast(dir[first + (n - slot)])) then 0
    else Units(dir[first + (n - 1 - slot)])[q % PER_SLOT]
  }

  lemma {:induction false} FilledFrom(buffer: seq<Unit>, dir: seq<Record>, first: nat, n: nat, m: nat, q: nat)
    requires 1 <= n && m < n && n * PER_SLOT < |buffer| && first + n <= |dir| && IsLast(dir[first])
    requires m * PER_SLOT <= q <= n * PER_SLOT
    ensures Filled(buffer, dir, first, n, m)[q] ==
            if q == m * PER_SLOT then Units(dir[first + (n - 1 - m)])[0] else Heard(dir, first, n, q)
    decreases n - m
  {
    hide Units, Stored, IsLast;
    StoredUnit(Filled(buffer, dir, first, n, m + 1), m, dir[first + (n - 1 - m)], q);
    if m + 1 < n && (m + 1) * PER_SLOT <= q { FilledFrom(buffer, dir, first, n, m + 1, q); }
  }

  lemma FilledIsHeard(buffer: seq<Unit>, dir: seq<Record>, first: nat, n: nat)
    requires 1 <= n && n * PER_SLOT < |buffer| && first + n <= |dir| && IsLast(dir[first])
    ensures forall q :: 0 <= q <= n * PER_SLOT ==> Filled(buffer, dir, first, n, 0)[q] == Heard(dir, first, n, q)
  {
    hide Units, Filled, Heard;
    forall q | 0 <= q <= n * PER_SLOT ensures Filled(buffer, dir, first, n, 0)[q] == Heard(dir, first, n, q) {
      FilledFrom(buffer, dir, first, n, 0, q);
      HeardFirst(dir, first, n);
    }
  }

  lemma HeardFirst(dir: seq<Record>, first: nat, n: nat)
    requires 1 <= n && first + n <= |dir|
    ensures Heard(dir, first, n, 0) == Units(dir[first + (n - 1)])[0]
  {
  }

  // ----- a name that was written is read back -----

  lemma NthReadsBack(padded: seq<Unit>, sum: Byte, k: nat)
    requires |padded| % PER_SLOT == 0 && k < |padded| / PER_SLOT <= MAX_SLOTS
    ensures var r, i := NthRecord(padded, sum, k), |padded| / PER_SLOT - k;
            && Attr(r) == ATTR_EXT && Sum(r) == sum && Number(r) == i && (IsLast(r) <==> k == 0)
            && Units(r) == padded[(i - 1) * PER_SLOT..i * PER_SLOT]
  {
    hide SlotRecord, Units;
    var i := |padded| / PER_SLOT - k;
    SlotReadsBack(if k == 0 then LAST + i else i, sum, padded[(i - 1) * PER_SLOT..i * PER_SLOT]);
  }

  /** The records of a padded name, somewhere in a directory. */
  ghost predicate HoldsName(dir: seq<Record>, first: nat, padded: seq<Unit>, sum: Byte) {
    && |padded| % PER_SLOT == 0 && 1 <= |padded| / PER_SLOT <= MAX_SLOTS && first + |padded| / PER_SLOT <= |dir|
    && forall k :: first <= k < first + |padded| / PER_SLOT ==> dir[k] == NthRecord(padded, sum, k - first)
  }

  lemma WrittenIsProper(dir: seq<Record>, first: nat, padded: seq<Unit>, sum: Byte)
    requires HoldsName(dir, first, padded, sum)
    ensures Proper(dir, first, |padded| / PER_SLOT) && Sum(dir[first]) == sum
  {
    hide NthRecord, IsLast, Number;
    var n := |padded| / PER_SLOT;
    forall k | first <= k < first + n
      ensures Attr(dir[k]) == ATTR_EXT && Number(dir[k]) == n - (k - first) && Sum(dir[k]) == sum
              && (IsLast(dir[k]) <==> k == first)
    {
      NthReadsBack(padded, sum, k - first);
    }
  }

  lemma WrittenIsHeard(dir: seq<Record>, first: nat, padded: seq<Unit>, sum: Byte, q: nat)
    requires HoldsName(dir, first, padded, sum) && q <= |padded|
    ensures Heard(dir, first, |padded| / PER_SLOT, q) == if q == |padded| then 0 else padded[q]
  {
    hide NthRecord, IsLast, Units;
    if q < |padded| {
      var n, slot := |padded| / PER_SLOT, q / PER_SLOT;
      NthReadsBack(padded, sum, n - 1 - slot);
      assert dir[first + (n - 1 - slot)] == NthRecord(padded, sum, n - 1 - slot);
      if slot > 0 {
        NthReadsBack(padded, sum, n - slot);
        assert dir[first + (n - slot)] == NthRecord(padded, sum, n - slot);
      }
      assert padded[slot * PER_SLOT..(slot + 1) * PER_SLOT][q % PER_SLOT] == padded[q];
    }
  }

  /** A name of 1 to 255 units that stands in a directory, in front of the 8.3
      record it was built for, is parsed back: the same units with a zero after
      them, all slots counted. */
  method ParseWritten(dir: seq<Record>, first: nat, ghost name: seq<Unit>, unicode: array<Unit>)
    returns (r: Parsed, pos: nat, slots: nat)
    requires 0 < |name| <= 255 && MAX_SLOTS * PER_SLOT < unicode.Length
    requires var n := |Padded(name)| / PER_SLOT;
             && first + n < |dir| && IsShort(dir[first + n])
             && HoldsName(dir, first, Padded(name), Checksum(dir[first + n][..11]))
    modifies unicode
    ensures r == Ok && slots == |Padded(name)| / PER_SLOT && pos == first + slots + 1
    ensures unicode[..|name|] == name && unicode[|name|] == 0
  {
    hide NthRecord, Heard, Checksum, Number, IsLast;
    ghost var padded := Padded(name);
    ghost var sum := Checksum(dir[first + |padded| / PER_SLOT][..11]);
    WrittenIsProper(dir, first, padded, sum);
    ghost var n;
    r, pos, slots, n := ParseLong(dir, first + 1, unicode);
    forall q | 0 <= q <= |padded| ensures unicode[q] == if q == |padded| then 0 else padded[q] {
      WrittenIsHeard(dir, first, padded, sum, q);
    }
  }

  /** What is built into slots is parsed back, anywhere in a directory. */
  method BuildThenParse(before: seq<Record>, name: seq<Unit>, short: Record, after: seq<Record>, unicode: array<Unit>)
    returns (r: Parsed, pos: nat, slots: nat)
    requires 0 < |name| <= 255 && IsShort(short) && MAX_SLOTS * PER_SLOT < unicode.Length
    modifies unicode
    ensures r == Ok && slots == |Padded(name)| / PER_SLOT && pos == |before| + slots + 1
    ensures unicode[..|name|] == name && unicode[|name|] == 0
  {
    hide NthRecord, Checksum, Padded;
    var built := BuildSlots(name, short[..11]);
    var dir := before + built + [short] + after;
    assert dir[|before| + |built|] == short;
    r, pos, slots := ParseWritten(dir, |before|, name, unicode);
  }
}
