/** Arithmetic of file sizes in bytes, blocks and clusters. */
module FileBlocks {
  import opened Multiples

  /** n units of `per` smaller units. */
  function Sectors(n: nat, per: nat): nat { n * per }

  /** The number of blocks that hold x bytes. */
  function Blocks(x: nat, blockSize: nat): nat
    requires blockSize > 0
  {
    (x + (blockSize - 1)) / blockSize
  }

  lemma SectorsIs(n: nat, per: nat)
    ensures Sectors(n, per) == n * per
  {
  }

  lemma ClusterIs(s: nat, per: nat)
    requires per >= 1
    ensures ClusterOf(s, per) == s / per && OffsetIn(s, per) == s % per
  {
  }

  lemma SectorsAdd(n: nat, k: nat, per: nat)
    requires per >= 1
    ensures Sectors(n, per) / per == n && Sectors(n, per) + Sectors(k, per) == Sectors(n + k, per)
  {
    QuotientIs(n * per, per, n);
  }

  lemma SectorsMonotone(n: nat, k: nat, per: nat)
    requires n <= k
    ensures Sectors(n, per) <= Sectors(k, per)
  {
    assert Sectors(k, per) == Sectors(n, per) + (k - n) * per;
  }

  /** A size in sectors of 512 bytes counts whole blocks. */
  lemma SectorsInBlocks(n: nat, perCluster: nat, perBlock: nat)
    requires perBlock >= 1
    ensures Sectors(n, Sectors(perCluster, perBlock)) / perBlock == Sectors(n, perCluster)
  {
    assert n * (perCluster * perBlock) == n * perCluster * perBlock;
    QuotientIs(n * perCluster * perBlock, perBlock, n * perCluster);
  }

  lemma SectorsNest(n: nat, k: nat, per: nat)
    ensures Sectors(n, Sectors(k, per)) == Sectors(Sectors(n, k), per)
  {
  }

  lemma BlocksWithin(x: nat, m: nat, blockSize: nat)
    requires blockSize > 0
    ensures x <= Sectors(m, blockSize) <==> Blocks(x, blockSize) <= m
  {
    var y := x + (blockSize - 1);
    QuotientOf(y, blockSize);
    var q := y / blockSize;
    if q <= m {
      SectorsMonotone(q, m, blockSize);
    } else {
      SectorsMonotone(m + 1, q, blockSize);
      assert Sectors(m + 1, blockSize) == Sectors(m, blockSize) + blockSize;
    }
  }

  lemma BlocksOfWhole(m: nat, blockSize: nat)
    requires blockSize > 0
    ensures Blocks(Sectors(m, blockSize), blockSize) == m
  {
    QuotientIs(m * blockSize + (blockSize - 1), blockSize, m);
  }

  lemma BlocksAtLeast(x: nat, blockSize: nat)
    requires blockSize > 0
    ensures x / blockSize <= Blocks(x, blockSize)
  {
    QuotientOf(x, blockSize);
    var q := x / blockSize;
    if q > 0 {
      BlocksWithin(x, q - 1, blockSize);
      assert Sectors(q - 1, blockSize) + blockSize == Sectors(q, blockSize);
      if x == Sectors(q - 1, blockSize) + blockSize { }
    }
  }

  /** A byte count that ends before block s although s is its last started block is whole. */
  lemma WholeBlocks(x: nat, s: nat, blockSize: nat)
    requires blockSize > 0 && s == x / blockSize && s >= Blocks(x, blockSize)
    ensures x == Sectors(s, blockSize)
  {
    QuotientOf(x, blockSize);
    BlocksWithin(x, s, blockSize);
  }

  /** The cluster of a file that holds block s, and the block's place in it. */
  function ClusterOf(s: nat, per: nat): nat
    requires per >= 1
  {
    s / per
  }

  function OffsetIn(s: nat, per: nat): (r: nat)
    requires per >= 1
    ensures r < per
  {
    s % per
  }

  /** Block s comes before block n * per exactly when its cluster comes before cluster n. */
  lemma BlockInCluster(s: nat, n: nat, per: nat)
    requires per >= 1
    ensures s < Sectors(n, per) <==> ClusterOf(s, per) < n
    ensures s == Sectors(ClusterOf(s, per), per) + OffsetIn(s, per)
  {
    QuotientOf(s, per);
    var q := s / per;
    if q < n {
      SectorsMonotone(q + 1, n, per);
      assert Sectors(q + 1, per) == Sectors(q, per) + per;
    } else {
      SectorsMonotone(n, q, per);
    }
  }
}
