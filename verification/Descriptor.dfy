/** The 128-byte integrity descriptor at the end of a device: how it is built,
    how it is checked, and what the check accepts. */
module Descriptor {
  import opened Sequences
  import opened LittleEndian
  import opened Crc32c

  const SIZE := 128
  const DIGEST_AT := 32
  const CRC_AT := 64
  const RESERVED_AT := 68
  const DIGEST_SIZE := 32

  const MAGIC: seq<Byte> := [0x56, 0x46, 0x49, 0x4e, 0x54, 0x45, 0x47, 0x00]

  // ----- layout -----

  function Zeros(n: nat): (r: seq<Byte>)
    ensures |r| == n && forall i :: 0 <= i < n ==> r[i] == 0
  {
    seq(n, _ => 0)
  }

  /** Magic, version, descriptor size, hash algorithm, digest length, hashed size. */
  function Head(size: Word64): (r: seq<Byte>)
    ensures |r| == 32
  {
    MAGIC + Put32(1) + Put32(128) + Put32(1) + Put32(32) + Put64(size)
  }

  function Raw(digest: seq<Byte>, size: Word64, crc: seq<Byte>): (r: seq<Byte>)
    requires |digest| == DIGEST_SIZE && |crc| == 4
    ensures |r| == SIZE
  {
    Head(size) + digest + crc + Zeros(SIZE - RESERVED_AT)
  }

  /** The descriptor of a digest; its checksum is taken with the checksum field zero. */
  function Encode(digest: seq<Byte>, size: Word64): (r: seq<Byte>)
    requires |digest| == DIGEST_SIZE
    ensures |r| == SIZE
  {
    Raw(digest, size, Put32(Checksum(Raw(digest, size, Zeros(4)))))
  }

  /** What a descriptor says, if it is the descriptor of some digest. */
  function Read(raw: seq<Byte>, size: Word64): (r: Option<seq<Byte>>)
    requires |raw| == SIZE
    ensures r.Some? ==> |r.value| == DIGEST_SIZE
  {
    var digest := raw[DIGEST_AT..CRC_AT];
    if raw == Encode(digest, size) then Some(digest) else None
  }

  lemma RawParts(digest: seq<Byte>, size: Word64, crc: seq<Byte>)
    requires |digest| == DIGEST_SIZE && |crc| == 4
    ensures var r := Raw(digest, size, crc);
            && r[..DIGEST_AT] == Head(size) && r[DIGEST_AT..CRC_AT] == digest
            && r[CRC_AT..RESERVED_AT] == crc && r[RESERVED_AT..] == Zeros(SIZE - RESERVED_AT)
            && Splice(r, CRC_AT, Zeros(4)) == Raw(digest, size, Zeros(4))
  {
    hide Head;
  }

  lemma RawFromParts(raw: seq<Byte>, size: Word64)
    requires |raw| == SIZE && raw[..DIGEST_AT] == Head(size) && raw[RESERVED_AT..] == Zeros(SIZE - RESERVED_AT)
    ensures raw == Raw(raw[DIGEST_AT..CRC_AT], size, raw[CRC_AT..RESERVED_AT])
    ensures Splice(raw, CRC_AT, Zeros(4)) == Raw(raw[DIGEST_AT..CRC_AT], size, Zeros(4))
  {
    hide Head;
  }

  /** Writing a descriptor and reading it gives the digest back. */
  lemma ReadOfEncode(digest: seq<Byte>, size: Word64)
    requires |digest| == DIGEST_SIZE
    ensures Read(Encode(digest, size), size) == Some(digest)
  {
    hide Checksum, Put32, Head;
    RawParts(digest, size, Put32(Checksum(Raw(digest, size, Zeros(4)))));
  }

  /** The check accepts exactly the descriptors that were written for this size. */
  lemma ReadIffEncoded(raw: seq<Byte>, size: Word64, digest: seq<Byte>)
    requires |raw| == SIZE
    ensures Read(raw, size) == Some(digest) <==> |digest| == DIGEST_SIZE && raw == Encode(digest, size)
  {
    hide Encode;
    if Read(raw, size) == Some(digest) {
      assert digest == raw[DIGEST_AT..CRC_AT];
    }
    if |digest| == DIGEST_SIZE && raw == Encode(digest, size) {
      ReadOfEncode(digest, size);
    }
  }

  // ----- the code -----

  lemma SpliceZeros(done: seq<Byte>, n: nat, s: seq<Byte>)
    requires |s| <= n
    ensures Splice(done + Zeros(n), |done|, s) == done + s + Zeros(n - |s|)
  {
  }

  /** The buffer that write_descriptor builds. */
  method Build(digest: seq<Byte>, size: Word64) returns (raw: seq<Byte>)
    requires |digest| == DIGEST_SIZE
    ensures raw == Encode(digest, size)
  {
    hide Put32, Put64, Checksum, Splice, Zeros;
    raw := Zeros(SIZE);
    assert raw == [] + Zeros(SIZE);
    raw := Splice(raw, 0, MAGIC);
    SpliceZeros([], 128, MAGIC);
    assert [] + MAGIC == MAGIC;
    raw := Splice(raw, 8, Put32(1));
    SpliceZeros(MAGIC, 120, Put32(1));
    raw := Splice(raw, 12, Put32(128));
    SpliceZeros(MAGIC + Put32(1), 116, Put32(128));
    raw := Splice(raw, 16, Put32(1));
    SpliceZeros(MAGIC + Put32(1) + Put32(128), 112, Put32(1));
    raw := Splice(raw, 20, Put32(32));
    SpliceZeros(MAGIC + Put32(1) + Put32(128) + Put32(1), 108, Put32(32));
    raw := Splice(raw, 24, Put64(size));
    SpliceZeros(MAGIC + Put32(1) + Put32(128) + Put32(1) + Put32(32), 104, Put64(size));
    raw := Splice(raw, 32, digest);
    SpliceZeros(Head(size), 96, digest);
    assert raw == Raw(digest, size, Zeros(4)) by {
      ZerosAdd(Head(size) + digest, 4, 60);
    }
    var crc := HashCrc32(raw);
    Get32OfPut(Checksum(raw));
    raw := Splice(raw, CRC_AT, Put32(Get32(crc)));
    SpliceCrc(digest, size, crc);
  }

  lemma ZerosAdd(done: seq<Byte>, m: nat, n: nat)
    ensures done + Zeros(m + n) == done + Zeros(m) + Zeros(n)
  {
  }

  lemma SpliceCrc(digest: seq<Byte>, size: Word64, crc: seq<Byte>)
    requires |digest| == DIGEST_SIZE && |crc| == 4
    ensures Splice(Raw(digest, size, Zeros(4)), CRC_AT, crc) == Raw(digest, size, crc)
  {
    hide Head;
  }

  lemma HeadFields(h: seq<Byte>, size: Word64)
    requires |h| == 32
    ensures h == Head(size) <==>
            && h[..8] == MAGIC && h[8..12] == Put32(1) && h[12..16] == Put32(128)
            && h[16..20] == Put32(1) && h[20..24] == Put32(32) && h[24..] == Put64(size)
  {
    hide Put32, Put64;
    assert h == h[..8] + h[8..12] + h[12..16] + h[16..20] + h[20..24] + h[24..];
    if h == Head(size) {
      var a := MAGIC + Put32(1) + Put32(128) + Put32(1) + Put32(32);
      assert h == a + Put64(size) && |a| == 24 && h[..24] == a && h[24..] == Put64(size);
      var b := MAGIC + Put32(1) + Put32(128) + Put32(1);
      assert h[..20] == b && h[20..24] == Put32(32);
      var c := MAGIC + Put32(1) + Put32(128);
      assert h[..16] == c && h[16..20] == Put32(1);
      var d := MAGIC + Put32(1);
      assert h[..12] == d && h[12..16] == Put32(128);
      assert h[..8] == MAGIC && h[8..12] == Put32(1);
    }
  }

  /** The fixed fields, as validate_descriptor checks them after the checksum. */
  method FixedFields(raw: seq<Byte>, size: Word64) returns (ok: bool)
    requires |raw| == SIZE
    ensures ok <==> raw[..DIGEST_AT] == Head(size)
  {
    hide Put32, Put64, Get32, Get64, Head;
    var h := raw[..DIGEST_AT];
    HeadFields(h, size);
    Get32Is(raw[8..12], 1);
    Get32Is(raw[12..16], 128);
    Get32Is(raw[16..20], 1);
    Get32Is(raw[20..24], 32);
    Get64Is(raw[24..32], size);
    assert h[..8] == raw[..8] && h[8..12] == raw[8..12] && h[12..16] == raw[12..16]
           && h[16..20] == raw[16..20] && h[20..24] == raw[20..24] && h[24..] == raw[24..32];
    if raw[..8] != MAGIC { return false; }
    if Get32(raw[8..12]) != 1 { return false; }
    if Get32(raw[12..16]) != 128 { return false; }
    if Get32(raw[16..20]) != 1 { return false; }
    if Get32(raw[20..24]) != 32 { return false; }
    if Get64(raw[24..32]) != size { return false; }
    return true;
  }

  /** The scan of the reserved bytes. */
  method ReservedIsZero(raw: seq<Byte>) returns (ok: bool)
    requires |raw| == SIZE
    ensures ok <==> raw[RESERVED_AT..] == Zeros(SIZE - RESERVED_AT)
  {
    var i := RESERVED_AT;
    while i < SIZE
      invariant RESERVED_AT <= i <= SIZE
      invariant forall j :: RESERVED_AT <= j < i ==> raw[j] == 0
    {
      if raw[i] != 0 {
        assert raw[RESERVED_AT..][i - RESERVED_AT] != 0;
        return false;
      }
      i := i + 1;
    }
    return true;
  }

  /** validate_descriptor */
  method Validate(raw: seq<Byte>, size: Word64) returns (r: Option<seq<Byte>>)
    requires |raw| == SIZE
    ensures r == Read(raw, size)
  {
    hide Put32, Get32, Head, Checksum, Raw, Splice, Zeros;
    var stored := Get32(raw[CRC_AT..RESERVED_AT]);
    var copy := Splice(raw, CRC_AT, Zeros(4));
    var crc := HashCrc32(copy);
    Get32OfPut(Checksum(copy));
    var computed := Get32(crc);
    Get32Is(raw[CRC_AT..RESERVED_AT], computed);
    var fixed := FixedFields(raw, size);
    var zero := ReservedIsZero(raw);
    ghost var digest := raw[DIGEST_AT..CRC_AT];
    RawParts(digest, size, Put32(Checksum(Raw(digest, size, Zeros(4)))));
    if fixed && zero {
      RawFromParts(raw, size);
    }
    if computed != stored || !fixed || !zero {
      return None;
    }
    return Some(raw[DIGEST_AT..CRC_AT]);
  }

  // ----- what a descriptor is, byte by byte -----

  /** The record as footer.c lays it out: numbers lowest byte first, and the
      checksum of the record with its field zero. */
  ghost predicate Describes(raw: seq<Byte>, digest: seq<Byte>, n: nat) {
    && |raw| == 128 && raw[..8] == [0x56, 0x46, 0x49, 0x4e, 0x54, 0x45, 0x47, 0x00]
    && Holds32(raw[8..12], 1) && Holds32(raw[12..16], 128) && Holds32(raw[16..20], 1) && Holds32(raw[20..24], 32)
    && Holds64(raw[24..32], n) && raw[32..64] == digest
    && Holds32(raw[64..68], Checksum(raw[..64] + [0, 0, 0, 0] + raw[68..]) as int)
    && forall i :: 68 <= i < 128 ==> raw[i] == 0
  }

  lemma Head32(s: seq<Byte>, v: bv32)
    requires |s| == 4
    ensures s == Put32(v) <==> Holds32(s, v as int)
  {
    hide Put32;
    Put32Holds(v);
    if Holds32(s, v as int) {
      forall i | 0 <= i < 4 ensures s[i] == Put32(v)[i] { SameByte(s[i], Put32(v)[i]); }
    }
  }

  lemma Head64(s: seq<Byte>, n: Word64)
    requires |s| == 8
    ensures s == Put64(n) <==> Holds64(s, n)
  {
    hide Put64, Holds64;
    Put64Holds(n);
    if Holds64(s, n) { Holds64OneToOne(s, Put64(n), n); }
  }

  /** The head is right exactly when its numbers are. */
  lemma HeadIs(h: seq<Byte>, n: Word64)
    requires |h| == 32
    ensures h == Head(n) <==>
            && h[..8] == [0x56, 0x46, 0x49, 0x4e, 0x54, 0x45, 0x47, 0x00]
            && Holds32(h[8..12], 1) && Holds32(h[12..16], 128) && Holds32(h[16..20], 1) && Holds32(h[20..24], 32)
            && Holds64(h[24..], n)
  {
    hide Put32, Put64, Head, Holds32, Holds64;
    HeadFields(h, n);
    Head32(h[8..12], 1);
    Head32(h[12..16], 128);
    Head32(h[16..20], 1);
    Head32(h[20..24], 32);
    Head64(h[24..], n);
    assert 1 as bv32 as int == 1 && 128 as bv32 as int == 128 && 32 as bv32 as int == 32;
  }

  lemma RawIff(raw: seq<Byte>, digest: seq<Byte>, n: Word64, crc: seq<Byte>)
    requires |raw| == SIZE && |digest| == DIGEST_SIZE && |crc| == 4
    ensures raw == Raw(digest, n, crc) <==>
            && raw[..32] == Head(n) && raw[32..64] == digest && raw[64..68] == crc
            && forall i :: 68 <= i < 128 ==> raw[i] == 0
  {
    hide Head;
    RawParts(digest, n, crc);
    if && raw[..32] == Head(n) && raw[32..64] == digest && raw[64..68] == crc
       && (forall i :: 68 <= i < 128 ==> raw[i] == 0) {
      RawFromParts(raw, n);
    }
  }

  /** The check accepts a record exactly when it is one, field by field. */
  lemma ReadIffDescribes(raw: seq<Byte>, n: Word64, digest: seq<Byte>)
    requires |raw| == SIZE
    ensures Read(raw, n) == Some(digest) <==> Describes(raw, digest, n)
  {
    hide Put32, Head, Checksum, Raw, Holds32, Holds64, Splice;
    var d := raw[32..64];
    var blank := Raw(d, n, Zeros(4));
    var crc := Put32(Checksum(blank));
    RawIff(raw, d, n, crc);
    HeadIs(raw[..32], n);
    HeadSlices(raw);
    RawIff(raw[..64] + [0, 0, 0, 0] + raw[68..], d, n, Zeros(4));
    Head32(raw[64..68], Checksum(raw[..64] + [0, 0, 0, 0] + raw[68..]));
  }

  lemma HeadSlices(raw: seq<Byte>)
    requires |raw| == SIZE
    ensures var h := raw[..32];
            && h[..8] == raw[..8] && h[8..12] == raw[8..12] && h[12..16] == raw[12..16] && h[16..20] == raw[16..20]
            && h[20..24] == raw[20..24] && h[24..] == raw[24..32]
    ensures var b := raw[..64] + [0, 0, 0, 0] + raw[68..];
            && |b| == SIZE && b[..32] == raw[..32] && b[32..64] == raw[32..64] && b[64..68] == Zeros(4)
            && forall i :: 68 <= i < 128 ==> b[i] == raw[i]
  {
  }

  // ----- what the checksum detects -----

  function Blank(raw: seq<Byte>): (r: seq<Byte>)
    requires |raw| == SIZE
    ensures |r| == SIZE
    ensures forall i :: 0 <= i < SIZE ==> r[i] == if CRC_AT <= i < RESERVED_AT then 0 else raw[i]
  {
    Splice(raw, CRC_AT, Zeros(4))
  }

  lemma StoredChecksum(raw: seq<Byte>, size: Word64)
    requires |raw| == SIZE && Read(raw, size).Some?
    ensures raw[CRC_AT..RESERVED_AT] == Put32(Checksum(Blank(raw)))
  {
    hide Put32, Head, Checksum, Raw, Splice, Zeros;
    var digest := raw[DIGEST_AT..CRC_AT];
    RawParts(digest, size, Put32(Checksum(Raw(digest, size, Zeros(4)))));
  }

  lemma Put32OneToOne(a: bv32, b: bv32)
    requires Put32(a) == Put32(b)
    ensures a == b
  {
    hide Put32, Get32;
    Get32OfPut(a);
    Get32OfPut(b);
  }

  /** raw and raw' agree outside four consecutive bytes. */
  ghost predicate DifferWithin(raw: seq<Byte>, raw': seq<Byte>, k: nat) {
    |raw| == |raw'| && forall i :: 0 <= i < |raw| && !(k <= i < k + 4) ==> raw'[i] == raw[i]
  }

  lemma SameIfBothRead(raw: seq<Byte>, raw': seq<Byte>, size: Word64, k: nat)
    requires |raw| == SIZE && DifferWithin(raw, raw', k) && k + 4 <= SIZE
    requires k + 4 <= CRC_AT || k == CRC_AT || RESERVED_AT <= k
    requires Read(raw, size).Some? && Read(raw', size).Some?
    ensures raw' == raw
  {
    hide Put32, Head, Checksum, Raw, Splice, Zeros, Read;
    StoredChecksum(raw, size);
    StoredChecksum(raw', size);
    var x, y := Blank(raw), Blank(raw');
    if k == CRC_AT {
      assert x == y;
    } else {
      assert raw[CRC_AT..RESERVED_AT] == raw'[CRC_AT..RESERVED_AT];
      Put32OneToOne(Checksum(x), Checksum(y));
      DetectsShortBurst(x, y, k);
    }
    SameFromBlank(raw, raw');
  }

  lemma SameFromBlank(raw: seq<Byte>, raw': seq<Byte>)
    requires |raw| == |raw'| == SIZE && Blank(raw) == Blank(raw')
    requires raw[CRC_AT..RESERVED_AT] == raw'[CRC_AT..RESERVED_AT]
    ensures raw == raw'
  {
    hide Blank;
    forall i | 0 <= i < SIZE ensures raw[i] == raw'[i] {
      if CRC_AT <= i < RESERVED_AT {
        assert raw[i] == raw[CRC_AT..RESERVED_AT][i - CRC_AT];
        assert raw'[i] == raw'[CRC_AT..RESERVED_AT][i - CRC_AT];
      } else {
        assert Blank(raw)[i] == Blank(raw')[i];
      }
    }
  }

  /** A change of an accepted descriptor within four consecutive bytes that do
      not straddle an edge of the checksum field is always rejected. */
  lemma RejectsShortBurst(raw: seq<Byte>, raw': seq<Byte>, size: Word64, k: nat)
    requires |raw| == SIZE && DifferWithin(raw, raw', k) && k + 4 <= SIZE && raw' != raw
    requires k + 4 <= CRC_AT || k == CRC_AT || RESERVED_AT <= k
    requires Read(raw, size).Some?
    ensures Read(raw', size) == None
  {
    hide Read;
    if Read(raw', size).Some? {
      SameIfBothRead(raw, raw', size, k);
    }
  }

  // ----- on a device -----

  /** The device after write_descriptor: only its last 128 bytes change. */
  lemma StoredOnDevice(device: seq<Byte>, digest: seq<Byte>, size: Word64)
    requires |device| > 4096 && |digest| == DIGEST_SIZE
    ensures var after := Splice(device, |device| - SIZE, Encode(digest, size));
            && |after| == |device| && after[..|device| - SIZE] == device[..|device| - SIZE]
            && Read(after[|device| - SIZE..], size) == Some(digest)
  {
    hide Encode, Read;
    ReadOfEncode(digest, size);
    var after := Splice(device, |device| - SIZE, Encode(digest, size));
    assert after[|device| - SIZE..] == Encode(digest, size);
  }
}
