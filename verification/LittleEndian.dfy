/** Little-endian words in byte strings. */
module LittleEndian {
  type Byte = bv8

  /** put_le32 */
  function Put32(v: bv32): (r: seq<Byte>)
    ensures |r| == 4
  {
    [(v & 0xff) as bv8, ((v >> 8) & 0xff) as bv8, ((v >> 16) & 0xff) as bv8, ((v >> 24) & 0xff) as bv8]
  }

  /** get_le32 */
  function Get32(s: seq<Byte>): bv32
    requires |s| == 4
  {
    (s[0] as bv32) | ((s[1] as bv32) << 8) | ((s[2] as bv32) << 16) | ((s[3] as bv32) << 24)
  }

  lemma Get32OfPut(v: bv32)
    ensures Get32(Put32(v)) == v
  {
  }

  lemma Put32OfGet(s: seq<Byte>)
    requires |s| == 4
    ensures Put32(Get32(s)) == s
  {
  }

  /** The stored number is v exactly when the bytes are those of v. */
  lemma Get32Is(s: seq<Byte>, v: bv32)
    requires |s| == 4
    ensures Get32(s) == v <==> s == Put32(v)
  {
    hide Get32, Put32;
    Get32OfPut(v);
    Put32OfGet(s);
  }

  /** A 64-bit word as the number it holds. */
  type Word64 = n: nat | n < 0x1_0000_0000_0000_0000

  /** The k lowest digits of n to base 256, lowest first. */
  function Digits(n: nat, k: nat): (r: seq<Byte>)
    ensures |r| == k
  {
    if k == 0 then [] else [(n % 256) as bv8] + Digits(n / 256, k - 1)
  }

  /** put_le64 */
  function Put64(n: Word64): (r: seq<Byte>)
    ensures |r| == 8
  {
    Digits(n, 8)
  }

  /** get_le64 */
  function Get64(s: seq<Byte>): Word64
    requires |s| == 8
  {
    var low, high := Get32(s[..4]), Get32(s[4..]);
    (low as int) + 0x1_0000_0000 * (high as int)
  }

  // ----- as numbers -----

  /** The four bytes hold n, lowest byte first. */
  ghost predicate Holds32(s: seq<Byte>, n: nat) {
    && |s| == 4 && n < 0x1_0000_0000
    && s[0] as int == n % 256 && s[1] as int == n / 0x100 % 256
    && s[2] as int == n / 0x1_0000 % 256 && s[3] as int == n / 0x100_0000 % 256
  }

  /** The eight bytes hold n, lowest byte first. */
  ghost predicate Holds64(s: seq<Byte>, n: nat) {
    && |s| == 8 && n < 0x1_0000_0000_0000_0000
    && s[0] as int == n % 256 && s[1] as int == n / 0x100 % 256
    && s[2] as int == n / 0x1_0000 % 256 && s[3] as int == n / 0x100_0000 % 256
    && s[4] as int == n / 0x1_0000_0000 % 256 && s[5] as int == n / 0x100_0000_0000 % 256
    && s[6] as int == n / 0x1_0000_0000_0000 % 256 && s[7] as int == n / 0x100_0000_0000_0000 % 256
  }

  function Sum4(s: seq<Byte>): nat
    requires |s| == 4
  {
    (s[0] as int) + 0x100 * (s[1] as int) + 0x1_0000 * (s[2] as int) + 0x100_0000 * (s[3] as int)
  }

  lemma Get32Value(s: seq<Byte>)
    requires |s| == 4
    ensures Get32(s) as int == Sum4(s)
  {
    OrIsSum(s[0], s[1], s[2], s[3]);
  }

  lemma OrIsSum(a: Byte, b: Byte, c: Byte, d: Byte)
    ensures ((a as bv32) | ((b as bv32) << 8) | ((c as bv32) << 16) | ((d as bv32) << 24)) as int ==
            (a as int) + 0x100 * (b as int) + 0x1_0000 * (c as int) + 0x100_0000 * (d as int)
  {
  }

  lemma LowDigit(n: nat, d: int, m: int)
    requires n == d + 256 * m && 0 <= d < 256
    ensures n % 256 == d && n / 256 == m
  {
  }

  lemma Dividing(n: nat)
    ensures n / 0x1_0000 == n / 256 / 256 && n / 0x100_0000 == n / 256 / 256 / 256
  {
  }

  /** Four digits of a number below 2^32. */
  lemma FourDigits(n: nat, a: int, b: int, c: int, d: int)
    requires 0 <= a < 256 && 0 <= b < 256 && 0 <= c < 256 && 0 <= d < 256
    ensures n == a + 0x100 * b + 0x1_0000 * c + 0x100_0000 * d <==> DigitsAre(n, a, b, c, d)
  {
    if n == a + 0x100 * b + 0x1_0000 * c + 0x100_0000 * d {
      DigitsOfSum(n, a, b, c, d);
    }
    if DigitsAre(n, a, b, c, d) {
      SumOfDigits(n);
    }
  }

  ghost predicate DigitsAre(n: nat, a: int, b: int, c: int, d: int) {
    && n < 0x1_0000_0000 && a == n % 256 && b == n / 0x100 % 256
    && c == n / 0x1_0000 % 256 && d == n / 0x100_0000 % 256
  }

  lemma DigitsOfSum(n: nat, a: int, b: int, c: int, d: int)
    requires 0 <= a < 256 && 0 <= b < 256 && 0 <= c < 256 && 0 <= d < 256
    requires n == a + 0x100 * b + 0x1_0000 * c + 0x100_0000 * d
    ensures DigitsAre(n, a, b, c, d)
  {
    LowDigit(n, a, b + 0x100 * c + 0x1_0000 * d);
    LowDigit(n / 256, b, c + 0x100 * d);
    LowDigit(n / 256 / 256, c, d);
    Dividing(n);
  }

  lemma SumOfDigits(n: nat)
    requires n < 0x1_0000_0000
    ensures n == n % 256 + 0x100 * (n / 0x100 % 256) + 0x1_0000 * (n / 0x1_0000 % 256)
                 + 0x100_0000 * (n / 0x100_0000 % 256)
  {
    Dividing(n);
    var m := n / 256;
    assert n == n % 256 + 256 * m;
    var k := m / 256;
    assert m == m % 256 + 256 * k;
    assert k == k % 256 + 256 * (k / 256);
    assert k / 256 < 256;
  }

  /** A word of 32 bits is stored lowest byte first. */
  lemma Put32Holds(v: bv32)
    ensures Holds32(Put32(v), v as int)
  {
    hide Get32, Put32;
    var s := Put32(v);
    Get32OfPut(v);
    Get32Value(s);
    FourDigits(v as int, s[0] as int, s[1] as int, s[2] as int, s[3] as int);
  }

  lemma DigitsFirst(n: nat, k: nat)
    requires k > 0
    ensures Digits(n, k)[0] as int == n % 256 && Digits(n, k)[1..] == Digits(n / 256, k - 1)
  {
    ByteOf(n % 256);
  }

  /** Four digits, and the digits behind them. */
  lemma DigitsFour(n: nat, k: nat)
    requires k >= 4
    ensures var r := Digits(n, k);
            && r[0] as int == n % 256 && r[1] as int == n / 0x100 % 256
            && r[2] as int == n / 0x1_0000 % 256 && r[3] as int == n / 0x100_0000 % 256
            && r[4..] == Digits(n / 0x1_0000_0000, k - 4)
  {
    hide Digits;
    var r := Digits(n, k);
    var n1, n2, n3 := n / 256, n / 256 / 256, n / 256 / 256 / 256;
    DigitsFirst(n, k);
    DigitsFirst(n1, k - 1);
    DigitsFirst(n2, k - 2);
    DigitsFirst(n3, k - 3);
    Dividing(n);
    assert n / 0x1_0000_0000 == n3 / 256;
    assert r[1] == r[1..][0] && r[2] == r[1..][1..][0] && r[3] == r[1..][1..][1..][0];
    assert r[4..] == r[1..][1..][1..][1..];
  }

  lemma {:induction false} ByteOf(n: nat)
    requires n < 256
    ensures (n as bv8) as int == n
  {
    if n > 0 {
      ByteOf(n - 1);
      NextByte((n - 1) as bv8);
      BackToByte(((n - 1) as bv8) + 1);
    }
  }

  lemma NextByte(b: Byte)
    requires (b as int) < 255
    ensures (b + 1) as int == (b as int) + 1
  {
  }

  lemma BackToByte(b: Byte)
    ensures (b as int) as bv8 == b
  {
  }

  lemma Put64Holds(n: Word64)
    ensures Holds64(Put64(n), n)
  {
    hide Digits;
    var r, high := Put64(n), n / 0x1_0000_0000;
    DigitsFour(n, 8);
    DigitsFour(high, 4);
    HighWord(n);
    assert r[4] == r[4..][0] && r[5] == r[4..][1] && r[6] == r[4..][2] && r[7] == r[4..][3];
  }

  /** Bytes hold one number, and a number is held by one string of bytes. */
  lemma Holds64OneToOne(s: seq<Byte>, t: seq<Byte>, n: nat)
    requires Holds64(s, n) && Holds64(t, n)
    ensures s == t
  {
    forall i | 0 <= i < 8 ensures s[i] == t[i] {
      SameByte(s[i], t[i]);
    }
  }

  lemma SameByte(a: Byte, b: Byte)
    ensures a as int == b as int <==> a == b
  {
  }

  /** The digits of the low and of the high word. */
  lemma LowWord(n: nat)
    ensures var low := n % 0x1_0000_0000;
            && n % 256 == low % 256 && n / 0x100 % 256 == low / 0x100 % 256
            && n / 0x1_0000 % 256 == low / 0x1_0000 % 256 && n / 0x100_0000 % 256 == low / 0x100_0000 % 256
  {
    var low, high := n % 0x1_0000_0000, n / 0x1_0000_0000;
    var one, two, three := low / 256, low / 256 / 256, low / 256 / 256 / 256;
    LowDigit(n, low % 256, one + 0x100_0000 * high);
    LowDigit(n / 256, one % 256, two + 0x1_0000 * high);
    LowDigit(n / 256 / 256, two % 256, three + 0x100 * high);
    Dividing(n);
    Dividing(low);
  }

  lemma HighWord(n: nat)
    ensures var high := n / 0x1_0000_0000;
            && n / 0x100_0000_0000 == high / 0x100 && n / 0x1_0000_0000_0000 == high / 0x1_0000
            && n / 0x100_0000_0000_0000 == high / 0x100_0000
  {
  }

  lemma Halves(s: seq<Byte>, n: nat)
    requires |s| == 8
    ensures Holds64(s, n) <==> Holds32(s[..4], n % 0x1_0000_0000) && Holds32(s[4..], n / 0x1_0000_0000)
  {
    LowWord(n);
    HighWord(n);
    assert n < 0x1_0000_0000_0000_0000 <==> n / 0x1_0000_0000 < 0x1_0000_0000;
  }

  lemma Sum4Holds(s: seq<Byte>, n: nat)
    requires |s| == 4
    ensures Sum4(s) == n <==> Holds32(s, n)
  {
    FourDigits(n, s[0] as int, s[1] as int, s[2] as int, s[3] as int);
  }

  /** The bytes read as n exactly when they hold n. */
  lemma Get64Holds(s: seq<Byte>, n: nat)
    requires |s| == 8
    ensures Get64(s) == n <==> Holds64(s, n)
  {
    hide Get32, Sum4;
    var l, h := s[..4], s[4..];
    Get32Value(l);
    Get32Value(h);
    Halves(s, n);
    Sum4Holds(l, n % 0x1_0000_0000);
    Sum4Holds(h, n / 0x1_0000_0000);
    Words(Get32(l) as int, Get32(h) as int, n);
  }

  lemma Words(low: int, high: int, n: nat)
    requires 0 <= low < 0x1_0000_0000
    ensures low + 0x1_0000_0000 * high == n <==> low == n % 0x1_0000_0000 && high == n / 0x1_0000_0000
  {
  }

  /** The stored number is n exactly when the bytes are those of n. */
  lemma Get64Is(s: seq<Byte>, n: Word64)
    requires |s| == 8
    ensures Get64(s) == n <==> s == Put64(n)
  {
    hide Get64, Put64, Holds64;
    Get64Holds(s, n);
    Put64Holds(n);
    if Holds64(s, n) { Holds64OneToOne(s, Put64(n), n); }
  }
}
