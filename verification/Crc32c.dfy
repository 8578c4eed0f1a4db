/** The portable CRC32C loop, and why it detects every change confined to four
    consecutive bytes: a step is linear and one-to-one. */
module Crc32c {
  import opened LittleEndian

  const POLYNOMIAL: bv32 := 0x82f6_3b78
  const INITIAL: bv32 := 0xffff_ffff

  function Xor(a: bv32, b: bv32): bv32 { a ^ b }

  function Half(c: bv32): bv32 { c >> 1 }

  function Odd(c: bv32): bool { c & 1 == 1 }

  function Fold(odd: bool): bv32 { if odd then POLYNOMIAL else 0 }

  /** One step of the inner loop of crc32c_update. */
  function BitStep(c: bv32): bv32 { Xor(Half(c), Fold(Odd(c))) }

  function Steps(c: bv32, n: nat): bv32 {
    if n == 0 then c else BitStep(Steps(c, n - 1))
  }

  function ByteStep(c: bv32, b: Byte): bv32 { Steps(Xor(c, b as bv32), 8) }

  /** The register after the bytes of data. */
  function Crc(c: bv32, data: seq<Byte>): bv32 {
    if data == [] then c else ByteStep(Crc(c, data[..|data| - 1]), data[|data| - 1])
  }

  /** The checksum of a byte string. */
  function Checksum(data: seq<Byte>): bv32 { !Crc(INITIAL, data) }

  method BitLoop(start: bv32) returns (r: bv32)
    ensures r == Steps(start, 8)
  {
    r := start;
    var bit := 0;
    while bit < 8
      invariant 0 <= bit <= 8 && r == Steps(start, bit)
    {
      r := BitOnce(r);
      bit := bit + 1;
    }
  }

  method BitOnce(c: bv32) returns (r: bv32)
    ensures r == BitStep(c)
  {
    r := (c >> 1) ^ (if c & 1 == 1 then POLYNOMIAL else 0);
  }

  /** crc32c_update, the portable branch. */
  method Update(crc: bv32, data: seq<Byte>) returns (r: bv32)
    ensures r == Crc(crc, data)
  {
    hide Steps, Xor;
    r := crc;
    var i := 0;
    while i < |data|
      invariant 0 <= i <= |data| && r == Crc(crc, data[..i])
    {
      assert data[..i + 1][..i] == data[..i];
      r := BitLoop(Xor(r, data[i] as bv32));
      i := i + 1;
    }
    assert data[..i] == data;
  }

  /** hash_crc32 */
  method HashCrc32(data: seq<Byte>) returns (digest: seq<Byte>)
    ensures digest == Put32(Checksum(data))
  {
    var crc := Update(INITIAL, data);
    digest := Put32(!crc);
  }

  // ----- the check value -----

  function Eight(c: bv32): bv32 {
    var d := BitStep(BitStep(BitStep(BitStep(c))));
    BitStep(BitStep(BitStep(BitStep(d))))
  }

  lemma StepsFour(c: bv32, n: nat)
    ensures Steps(c, n + 4) == BitStep(BitStep(BitStep(BitStep(Steps(c, n)))))
  {
    hide BitStep;
    assert Steps(c, n + 2) == BitStep(BitStep(Steps(c, n)));
    assert Steps(c, n + 4) == BitStep(BitStep(Steps(c, n + 2)));
  }

  lemma StepsEight(c: bv32)
    ensures Steps(c, 8) == Eight(c)
  {
    hide BitStep;
    StepsFour(c, 0);
    StepsFour(c, 4);
  }

  lemma NextIs(c: bv32, b: Byte, r: bv32)
    requires Eight(Xor(c, b as bv32)) == r
    ensures ByteStep(c, b) == r
  {
    hide Eight, Steps, Xor;
    StepsEight(Xor(c, b as bv32));
  }

  lemma CrcNext(c: bv32, data: seq<Byte>, b: Byte)
    ensures Crc(c, data + [b]) == ByteStep(Crc(c, data), b)
  {
    hide ByteStep;
    assert (data + [b])[..|data|] == data;
  }

  /** The published check value of CRC-32C: the checksum of "123456789". */
  lemma CheckValue()
    ensures Checksum([0x31, 0x32, 0x33, 0x34, 0x35, 0x36, 0x37, 0x38, 0x39]) == 0xe306_9283
  {
    hide ByteStep, Crc;
    BytesAre();
    CrcNone(INITIAL);
    var d: seq<Byte> := [];
    CrcNext(INITIAL, d, 0x31);
    d := d + [0x31];
    CrcNext(INITIAL, d, 0x32);
    d := d + [0x32];
    CrcNext(INITIAL, d, 0x33);
    d := d + [0x33];
    CrcNext(INITIAL, d, 0x34);
    d := d + [0x34];
    CrcNext(INITIAL, d, 0x35);
    d := d + [0x35];
    CrcNext(INITIAL, d, 0x36);
    d := d + [0x36];
    CrcNext(INITIAL, d, 0x37);
    d := d + [0x37];
    CrcNext(INITIAL, d, 0x38);
    d := d + [0x38];
    CrcNext(INITIAL, d, 0x39);
    d := d + [0x39];
    assert d == [0x31, 0x32, 0x33, 0x34, 0x35, 0x36, 0x37, 0x38, 0x39];
  }

  lemma CrcNone(c: bv32)
    ensures Crc(c, []) == c
  {
  }

  lemma BytesAre()
    ensures ByteStep(0xffff_ffff, 0x31) == 0x6f0a_661c
    ensures ByteStep(0x6f0a_661c, 0x32) == 0x8caa_3b9f
    ensures ByteStep(0x8caa_3b9f, 0x33) == 0xef84_d04d
    ensures ByteStep(0xef84_d04d, 0x34) == 0x09c5_0b11
    ensures ByteStep(0x09c5_0b11, 0x35) == 0xe72e_dcca
    ensures ByteStep(0xe72e_dcca, 0x36) == 0xbeca_8e79
    ensures ByteStep(0xbeca_8e79, 0x37) == 0xedbd_6815
    ensures ByteStep(0xedbd_6815, 0x38) == 0x9f78_7f65
    ensures ByteStep(0x9f78_7f65, 0x39) == 0x1cf9_6d7c
  {
    hide ByteStep;
    NextIs(0xffff_ffff, 0x31, 0x6f0a_661c);
    NextIs(0x6f0a_661c, 0x32, 0x8caa_3b9f);
    NextIs(0x8caa_3b9f, 0x33, 0xef84_d04d);
    NextIs(0xef84_d04d, 0x34, 0x09c5_0b11);
    NextIs(0x09c5_0b11, 0x35, 0xe72e_dcca);
    NextIs(0xe72e_dcca, 0x36, 0xbeca_8e79);
    NextIs(0xbeca_8e79, 0x37, 0xedbd_6815);
    NextIs(0xedbd_6815, 0x38, 0x9f78_7f65);
    NextIs(0x9f78_7f65, 0x39, 0x1cf9_6d7c);
  }

  // ----- linear and one-to-one -----

  lemma XorCancel(a: bv32, b: bv32, c: bv32)
    requires Xor(a, c) == Xor(b, c)
    ensures a == b
  {
  }

  lemma XorAssoc(a: bv32, b: bv32, c: bv32)
    ensures Xor(Xor(a, b), c) == Xor(a, Xor(b, c)) && Xor(a, b) == Xor(b, a)
  {
  }

  lemma XorSwap(a: bv32, b: bv32, c: bv32, d: bv32)
    ensures Xor(Xor(a, b), Xor(c, d)) == Xor(Xor(a, c), Xor(b, d))
  {
    hide Xor;
    XorAssoc(a, b, Xor(c, d));
    XorAssoc(b, c, d);
    XorAssoc(c, b, d);
    XorAssoc(a, c, Xor(b, d));
  }

  lemma HalfLinear(a: bv32, b: bv32)
    ensures Half(Xor(a, b)) == Xor(Half(a), Half(b))
  {
  }

  lemma OddLinear(a: bv32, b: bv32)
    ensures Odd(Xor(a, b)) == (Odd(a) != Odd(b))
  {
  }

  lemma FoldLinear(p: bool, q: bool)
    ensures Fold(p != q) == Xor(Fold(p), Fold(q))
  {
  }

  lemma BitStepLinear(a: bv32, b: bv32)
    ensures BitStep(Xor(a, b)) == Xor(BitStep(a), BitStep(b))
  {
    hide Xor, Half, Odd, Fold;
    HalfLinear(a, b);
    OddLinear(a, b);
    FoldLinear(Odd(a), Odd(b));
    XorSwap(Half(a), Half(b), Fold(Odd(a)), Fold(Odd(b)));
  }

  /** The polynomial's top bit tells which of the two cases applied. */
  lemma BitStepOneToOne(a: bv32, b: bv32)
    requires BitStep(a) == BitStep(b)
    ensures a == b
  {
  }

  lemma {:induction false} StepsLinear(a: bv32, b: bv32, n: nat)
    ensures Steps(Xor(a, b), n) == Xor(Steps(a, n), Steps(b, n))
  {
    hide Xor, BitStep;
    if n > 0 {
      StepsLinear(a, b, n - 1);
      BitStepLinear(Steps(a, n - 1), Steps(b, n - 1));
    }
  }

  lemma {:induction false} StepsOneToOne(a: bv32, b: bv32, n: nat)
    requires Steps(a, n) == Steps(b, n)
    ensures a == b
  {
    hide BitStep;
    if n > 0 {
      BitStepOneToOne(Steps(a, n - 1), Steps(b, n - 1));
      StepsOneToOne(a, b, n - 1);
    }
  }

  lemma {:induction false} StepsAdd(c: bv32, m: nat, n: nat)
    ensures Steps(c, m + n) == Steps(Steps(c, m), n)
  {
    hide BitStep;
    if n > 0 {
      StepsAdd(c, m, n - 1);
    }
  }

  /** Registers that differ stay different over the same bytes. */
  lemma {:induction false} CrcOneToOne(a: bv32, b: bv32, data: seq<Byte>)
    requires Crc(a, data) == Crc(b, data)
    ensures a == b
  {
    hide Xor, Steps;
    if data != [] {
      var d, last := data[..|data| - 1], data[|data| - 1] as bv32;
      StepsOneToOne(Xor(Crc(a, d), last), Xor(Crc(b, d), last), 8);
      XorCancel(Crc(a, d), Crc(b, d), last);
      CrcOneToOne(a, b, d);
    }
  }

  lemma {:induction false} CrcAppend(c: bv32, x: seq<Byte>, y: seq<Byte>)
    ensures Crc(c, x + y) == Crc(Crc(c, x), y)
    decreases |y|
  {
    hide ByteStep;
    if y == [] {
      assert x + y == x;
    } else {
      assert (x + y)[..|x + y| - 1] == x + y[..|y| - 1];
      CrcAppend(c, x, y[..|y| - 1]);
    }
  }

  // ----- four bytes are one word -----

  function Shift(b: Byte, k: bv32): bv32
    requires k <= 24
  {
    (b as bv32) << k
  }

  /** Eight steps move a byte down by eight places. */
  lemma ShiftStep(b: Byte, k: bv32)
    requires 1 <= k <= 24
    ensures BitStep(Shift(b, k)) == Shift(b, k - 1)
  {
  }

  lemma ShiftSteps(b: Byte, k: bv32)
    requires k == 8 || k == 16 || k == 24
    ensures Steps(Shift(b, k), 8) == Shift(b, k - 8)
  {
    hide Shift, BitStep;
    ShiftStep(b, k);
    ShiftStep(b, k - 1);
    ShiftStep(b, k - 2);
    ShiftStep(b, k - 3);
    ShiftStep(b, k - 4);
    ShiftStep(b, k - 5);
    ShiftStep(b, k - 6);
    ShiftStep(b, k - 7);
    EightSteps(Shift(b, k));
  }

  lemma EightSteps(c: bv32)
    ensures Steps(c, 8) == BitStep(BitStep(BitStep(BitStep(BitStep(BitStep(BitStep(BitStep(c))))))))
  {
    hide BitStep;
    Unroll(c, 1);
    Unroll(c, 2);
    Unroll(c, 3);
    Unroll(c, 4);
    Unroll(c, 5);
    Unroll(c, 6);
    Unroll(c, 7);
    Unroll(c, 8);
    hide Steps;
  }

  lemma Unroll(c: bv32, n: nat)
    requires n > 0
    ensures Steps(c, n) == BitStep(Steps(c, n - 1)) && Steps(c, 0) == c
  {
  }

  lemma ShiftDown(b: Byte)
    ensures Shift(b, 0) == b as bv32
    ensures Steps(Shift(b, 8), 8) == Shift(b, 0)
    ensures Steps(Shift(b, 16), 16) == Shift(b, 0)
    ensures Steps(Shift(b, 24), 24) == Shift(b, 0)
  {
    assert Shift(b, 0) == b as bv32;
    hide Shift, Steps;
    ShiftSteps(b, 8);
    ShiftSteps(b, 16);
    ShiftSteps(b, 24);
    StepsAdd(Shift(b, 16), 8, 8);
    StepsAdd(Shift(b, 24), 8, 16);
  }

  /** A byte that comes in after m steps might as well have been there, m places up. */
  lemma Absorb(x: bv32, b: Byte, m: nat, k: bv32)
    requires k <= 24 && Steps(Shift(b, k), m) == b as bv32
    ensures ByteStep(Steps(x, m), b) == Steps(Xor(x, Shift(b, k)), m + 8)
  {
    hide Xor, Steps, Shift;
    StepsLinear(x, Shift(b, k), m);
    StepsAdd(Xor(x, Shift(b, k)), m, 8);
  }

  /** The four bytes placed one above the other. */
  function Word(b0: Byte, b1: Byte, b2: Byte, b3: Byte): bv32 {
    Xor(Xor(Xor(b0 as bv32, Shift(b1, 8)), Shift(b2, 16)), Shift(b3, 24))
  }

  lemma CrcOfFour(c: bv32, b0: Byte, b1: Byte, b2: Byte, b3: Byte)
    ensures Crc(c, [b0, b1, b2, b3]) == ByteStep(ByteStep(ByteStep(ByteStep(c, b0), b1), b2), b3)
  {
    hide ByteStep;
    var s := [b0, b1, b2, b3];
    assert s[..3] == [b0, b1, b2] && [b0, b1, b2][..2] == [b0, b1] && [b0, b1][..1] == [b0] && [b0][..0] == [];
    assert Crc(c, [b0]) == ByteStep(c, b0);
    assert Crc(c, [b0, b1]) == ByteStep(Crc(c, [b0]), b1);
    assert Crc(c, [b0, b1, b2]) == ByteStep(Crc(c, [b0, b1]), b2);
  }

  /** The register after four bytes is 32 steps from the old one with the word they form. */
  lemma CrcOfWord(c: bv32, b0: Byte, b1: Byte, b2: Byte, b3: Byte)
    ensures Crc(c, [b0, b1, b2, b3]) == Steps(Xor(c, Word(b0, b1, b2, b3)), 32)
  {
    hide Xor, Shift, Steps, Crc;
    CrcOfFour(c, b0, b1, b2, b3);
    ShiftDown(b1);
    ShiftDown(b2);
    ShiftDown(b3);
    var x1 := Xor(c, b0 as bv32);
    var x2 := Xor(x1, Shift(b1, 8));
    var x3 := Xor(x2, Shift(b2, 16));
    Absorb(x1, b1, 8, 8);
    Absorb(x2, b2, 16, 16);
    Absorb(x3, b3, 24, 24);
    XorAssoc(c, b0 as bv32, Shift(b1, 8));
    XorAssoc(c, Xor(b0 as bv32, Shift(b1, 8)), Shift(b2, 16));
    XorAssoc(c, Xor(Xor(b0 as bv32, Shift(b1, 8)), Shift(b2, 16)), Shift(b3, 24));
  }

  /** Each byte can be read back from the word. */
  lemma WordByte0(b0: Byte, b1: Byte, b2: Byte, b3: Byte)
    ensures Word(b0, b1, b2, b3) & 0xff == b0 as bv32
  {
  }

  lemma WordByte1(b0: Byte, b1: Byte, b2: Byte, b3: Byte)
    ensures (Word(b0, b1, b2, b3) >> 8) & 0xff == b1 as bv32
  {
  }

  lemma WordByte2(b0: Byte, b1: Byte, b2: Byte, b3: Byte)
    ensures (Word(b0, b1, b2, b3) >> 16) & 0xff == b2 as bv32
  {
  }

  lemma WordByte3(b0: Byte, b1: Byte, b2: Byte, b3: Byte)
    ensures (Word(b0, b1, b2, b3) >> 24) & 0xff == b3 as bv32
  {
  }

  lemma WidenOneToOne(a: Byte, b: Byte)
    requires a as bv32 == b as bv32
    ensures a == b
  {
  }

  lemma WordOneToOne(a0: Byte, a1: Byte, a2: Byte, a3: Byte, b0: Byte, b1: Byte, b2: Byte, b3: Byte)
    requires Word(a0, a1, a2, a3) == Word(b0, b1, b2, b3)
    ensures a0 == b0 && a1 == b1 && a2 == b2 && a3 == b3
  {
    hide Word;
    WordByte0(a0, a1, a2, a3);
    WordByte0(b0, b1, b2, b3);
    WidenOneToOne(a0, b0);
    WordByte1(a0, a1, a2, a3);
    WordByte1(b0, b1, b2, b3);
    WidenOneToOne(a1, b1);
    WordByte2(a0, a1, a2, a3);
    WordByte2(b0, b1, b2, b3);
    WidenOneToOne(a2, b2);
    WordByte3(a0, a1, a2, a3);
    WordByte3(b0, b1, b2, b3);
    WidenOneToOne(a3, b3);
  }

  /** Four bytes can be told apart by the register they leave. */
  lemma FourOneToOne(c: bv32, p: seq<Byte>, q: seq<Byte>)
    requires |p| == |q| == 4 && Crc(c, p) == Crc(c, q)
    ensures p == q
  {
    hide Crc, Steps, Word, Xor;
    assert p == [p[0], p[1], p[2], p[3]] && q == [q[0], q[1], q[2], q[3]];
    var v, w := Word(p[0], p[1], p[2], p[3]), Word(q[0], q[1], q[2], q[3]);
    CrcOfWord(c, p[0], p[1], p[2], p[3]);
    CrcOfWord(c, q[0], q[1], q[2], q[3]);
    StepsOneToOne(Xor(c, v), Xor(c, w), 32);
    XorAssoc(c, v, 0);
    XorAssoc(c, w, 0);
    XorCancel(v, w, c);
    WordOneToOne(p[0], p[1], p[2], p[3], q[0], q[1], q[2], q[3]);
  }

  lemma ChecksumIsCrc(x: seq<Byte>, y: seq<Byte>)
    requires Checksum(x) == Checksum(y)
    ensures Crc(INITIAL, x) == Crc(INITIAL, y)
  {
    hide Crc;
  }

  lemma Window<T>(x: seq<T>, y: seq<T>, k: nat)
    requires |x| == |y| && k + 4 <= |x|
    requires forall i :: 0 <= i < |x| && !(k <= i < k + 4) ==> x[i] == y[i]
    ensures x == x[..k] + x[k..k + 4] + x[k + 4..] && y == x[..k] + y[k..k + 4] + x[k + 4..]
  {
  }

  /** Byte strings of the same checksum that differ at most within four
      consecutive bytes are the same. */
  lemma DetectsShortBurst(x: seq<Byte>, y: seq<Byte>, k: nat)
    requires |x| == |y| && k + 4 <= |x| && Checksum(x) == Checksum(y)
    requires forall i :: 0 <= i < |x| && !(k <= i < k + 4) ==> x[i] == y[i]
    ensures x == y
  {
    hide Crc, Checksum;
    var pre, p, q, post := x[..k], x[k..k + 4], y[k..k + 4], x[k + 4..];
    Window(x, y, k);
    ChecksumIsCrc(x, y);
    SameWindow(INITIAL, pre, p, q, post);
  }

  lemma SameWindow(c: bv32, pre: seq<Byte>, p: seq<Byte>, q: seq<Byte>, post: seq<Byte>)
    requires |p| == |q| == 4 && Crc(c, pre + p + post) == Crc(c, pre + q + post)
    ensures p == q
  {
    hide Crc;
    CrcAppend(c, pre, p);
    CrcAppend(c, pre + p, post);
    CrcAppend(c, pre, q);
    CrcAppend(c, pre + q, post);
    CrcOneToOne(Crc(Crc(c, pre), p), Crc(Crc(c, pre), q), post);
    FourOneToOne(Crc(c, pre), p, q);
  }
}
