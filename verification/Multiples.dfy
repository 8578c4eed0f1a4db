/** Quotients, and positions in blocks of equal size. */
module Multiples {
  lemma MultipleApart(k: int, d: int)
    requires d > 0
    ensures k >= 1 ==> k * d >= d
    ensures k <= -1 ==> k * d <= -d
  {
    if k >= 1 {
      assert k * d == d + (k - 1) * d;
    } else if k <= -1 {
      assert k * d == -d + (k + 1) * d;
    }
  }

  lemma QuotientIs(a: nat, d: nat, q: nat)
    requires d > 0 && q * d <= a < q * d + d
    ensures a / d == q && a % d == a - q * d
  {
    QuotientOf(a, d);
    var p: int := a / d;
    assert (p - q) * d == p * d - q * d;
    MultipleApart(p - q, d);
  }

  lemma QuotientOf(a: nat, d: nat)
    requires d > 0
    ensures a / d * d <= a < a / d * d + d && a == a / d * d + a % d
  {
  }

  lemma ProductAtLeast(q: nat, d: nat)
    requires d > 0
    ensures q <= q * d
  {
  }

  lemma QuotientAtMost(a: nat, d: nat, q: nat)
    requires d > 0 && q == a / d
    ensures q <= a
  {
    QuotientOf(a, d);
    ProductAtLeast(q, d);
  }

  /** start is a multiple of per: the first of a block. */
  ghost predicate Starts(per: nat, start: nat)
    requires per > 0
  {
    start % per == 0
  }

  lemma NextStarts(per: nat, start: nat)
    requires per > 0 && Starts(per, start)
    ensures Starts(per, start + per)
  {
    QuotientOf(start, per);
    var q := start / per;
    assert (q + 1) * per == q * per + per;
    QuotientIs(start + per, per, q + 1);
  }

  lemma NextMultiple(per: nat, x: nat, y: nat)
    requires per > 0 && Starts(per, x) && Starts(per, y)
    ensures Starts(per, x + y)
  {
    QuotientOf(x, per);
    QuotientOf(y, per);
    var p, q := x / per, y / per;
    assert (p + q) * per == p * per + q * per;
    QuotientIs(x + y, per, p + q);
  }

  lemma OffsetInBlock(per: nat, start: nat, pos: nat)
    requires per > 0 && Starts(per, start) && start <= pos < start + per
    ensures pos % per == pos - start
  {
    QuotientOf(start, per);
    QuotientIs(pos, per, start / per);
  }

  lemma BlockFits(per: nat, start: nat, n: nat)
    requires per > 0 && Starts(per, start) && Starts(per, n) && start < n
    ensures start + per <= n
  {
    QuotientOf(start, per);
    QuotientOf(n, per);
    var q, m := start / per, n / per;
    assert (m - q) * per == m * per - q * per;
    MultipleApart(m - q, per);
  }

  lemma StartOf(per: nat, pos: nat)
    requires per > 0
    ensures pos % per <= pos && Starts(per, pos - pos % per)
  {
    QuotientOf(pos, per);
    QuotientIs(pos - pos % per, per, pos / per);
  }
}
