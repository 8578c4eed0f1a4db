/** Adding records to a directory that is a chain of clusters: the records, the
    chain, the table and the size of the directory change together. */
module DirGrowth {
  import opened Sequences
  import opened Multiples
  import opened FatFormat
  import opened FatChain
  import opened FatTable
  import opened FileBlocks
  import opened FatInode
  import opened LongName
  import opened DirSlots

  const RECORD_SIZE: nat := 32

  /** The chain c with its table grew to c', or nothing changed. */
  ghost predicate Lengthened(t: Table, t': Table, c: seq<int>, c': seq<int>) {
    && c <= c'
    && if c' == c then t' == t else Grown(t, t', c, c'[|c|..])
  }

  /** A directory of whole clusters has no odd size. */
  lemma WholeClusters(n: nat, per: nat, bytes: nat)
    requires per >= 1 && bytes >= 1
    ensures Sectors(per, bytes) >= 1 && Sectors(Sectors(n, per), bytes) % Sectors(per, bytes) == 0
  {
    SectorsMonotone(1, per, bytes);
    SectorsNest(n, per, bytes);
    QuotientIs(n * Sectors(per, bytes), Sectors(per, bytes), n);
  }

  /** The bytes of n and of k clusters together. */
  lemma ClustersAdd(n: nat, k: nat, per: nat, bytes: nat)
    requires per >= 1 && bytes >= 1
    ensures Sectors(Sectors(n, per), bytes) + Sectors(k, Sectors(per, bytes)) == Sectors(Sectors(n + k, per), bytes)
  {
    SectorsNest(k, per, bytes);
    SectorsAdd(n, k, per);
    SectorsAdd(Sectors(n, per), Sectors(k, per), bytes);
  }

  class DirFile {
    const dir: Directory
    const inode: Inode

    /** The size of the directory is that of its chain. */
    ghost predicate Counted()
      reads inode, inode.fat
    {
      && inode.Sized()
      && inode.size == inode.mmu == Sectors(Sectors(|inode.chain|, inode.secPerClus), inode.fat.geo.blockSize)
    }

    /** The records fill the clusters of the chain, and the size says so. */
    ghost predicate Valid()
      reads dir, inode, inode.fat
    {
      && dir.Valid() && Counted() && Sectors(dir.per, RECORD_SIZE) == inode.fat.geo.blockSize
      && dir.perCluster == Sectors(inode.secPerClus, dir.per)
      && |dir.recs| == Sectors(|inode.chain|, dir.perCluster)
    }

    constructor (dir: Directory, inode: Inode)
      requires dir.Valid() && inode.Sized() && Sectors(dir.per, RECORD_SIZE) == inode.fat.geo.blockSize
      requires dir.perCluster == Sectors(inode.secPerClus, dir.per)
      requires |dir.recs| == Sectors(|inode.chain|, dir.perCluster)
      requires inode.size == inode.mmu == Sectors(Sectors(|inode.chain|, inode.secPerClus), inode.fat.geo.blockSize)
      ensures this.dir == dir && this.inode == inode && Valid()
    {
      this.dir, this.inode := dir, inode;
    }

    /** The chain's part of the third stage: allocate, fill, link, and count the
        new clusters in the size.  The assertion is the source's "odd directory
        size" error. */
    method Grow(nr: nat, fill: bool, memory: bool) returns (err: int)
      requires Counted() && 1 <= nr <= MAX_BUFS / 2
      modifies inode, inode.fat`bytes, inode.fat`tab, inode.fat`copies, inode.fat`prevFree, inode.fat`freeClusters,
               inode.fat`freeValid
      ensures inode.fat.Valid()
      ensures err == 0 || inode.fat.Faultless() ==> Counted()
      ensures err == 0 ==> |inode.chain| == |old(inode.chain)| + nr
      ensures err == 0 ==> Lengthened(old(inode.fat.tab), inode.fat.tab, old(inode.chain), inode.chain)
      ensures inode.fat.Faultless() && err != 0 ==>
                inode.fat.tab == old(inode.fat.tab) && inode.chain == old(inode.chain)
      ensures inode.fat.Faultless() && old(inode.fat.Exact()) ==>
                && inode.fat.Exact()
                && (err == 0 <==> nr <= CountFree(old(inode.fat.tab)) && fill && |old(inode.chain)| <= inode.limit + 1)
                && (err == ENOSPC <==> nr > CountFree(old(inode.fat.tab)))
    {
      hide inode.Owned, inode.fat.Mirrored, Grown, CountFree, Sectors;
      ghost var c := inode.chain;
      err := inode.Append(nr, fill, memory);
      var bytes := Sectors(inode.secPerClus, inode.fat.geo.blockSize);
      WholeClusters(|c|, inode.secPerClus, inode.fat.geo.blockSize);
      if err == 0 {
        assert inode.size % bytes == 0;
        ClustersAdd(|c|, nr, inode.secPerClus, inode.fat.geo.blockSize);
        inode.CountIn(Sectors(nr, bytes));
      }
    }

    /** fat_add_entries on a directory with a chain.  `need` is the number of new
        clusters it takes; `fill` says whether their buffers can be had. */
    method AddEntries(slots: seq<Record>, root: bool, garbage: seq<Record>, faults: Faults, fill: bool, memory: bool)
      returns (r: Exit, pos: nat, last: nat, ghost need: nat)
      requires Valid() && 1 <= |slots| <= MAX_RECORDS && |garbage| == 2 * dir.perCluster
      modifies dir`recs, inode, inode.fat`bytes, inode.fat`tab, inode.fat`copies, inode.fat`prevFree,
               inode.fat`freeClusters, inode.fat`freeValid
      ensures inode.fat.Valid() && dir.Valid() && (r == Done || inode.fat.Faultless() ==> Valid())
      ensures r == Done ==> Added(old(dir.recs), dir.recs, pos, slots) && last == pos + |slots| - 1
      ensures r == Done ==>
                && Lengthened(old(inode.fat.tab), inode.fat.tab, old(inode.chain), inode.chain)
                && |inode.chain| == |old(inode.chain)| + need
      ensures r != Done ==> InUseKept(old(dir.recs), dir.recs)
      ensures r != Done && inode.fat.Faultless() ==>
                inode.fat.tab == old(inode.fat.tab) && inode.chain == old(inode.chain)
      ensures need > 0 ==>
                && pos <= |old(dir.recs)| < pos + |slots| && AllFree(old(dir.recs), pos, |old(dir.recs)| - pos)
                && NoRoom(old(dir.recs), |slots|, |old(dir.recs)|)
                && need == Clusters(pos + |slots| - |old(dir.recs)|, dir.perCluster) <= 2
      ensures need == 0 && r == Done ==> pos + |slots| <= |old(dir.recs)|
      ensures inode.fat.Faultless() && old(inode.fat.Exact()) ==> inode.fat.Exact()
      ensures (&& inode.fat.Faultless() && old(inode.fat.Exact()) && faults.longSync && faults.shortSync && fill
               && (root || old(inode.start) != 0) && |old(dir.recs)| < DIR_LIMIT - 1
               && |old(inode.chain)| <= inode.limit + 1) ==>
                && (r == Done <==> need <= CountFree(old(inode.fat.tab)))
                && (r == NoSpace <==> need > CountFree(old(inode.fat.tab)))
    {
      hide inode.Sized, inode.fat.Valid, inode.fat.Mirrored, Grown, CountFree, Sectors, NoRoom, Added, InUseKept,
        SameFree, Clusters, Starts;
      inode.TableIsValid();
      ghost var before, c := dir.recs, inode.chain;
      need := 0;
      var more, free;
      r, more, pos, last, free := dir.Place(slots, false, !root && inode.start == 0, faults);
      if r != Done || !more {
        if r == Done { AddedBounds(before, dir.recs, pos, slots); }
        return;
      }
      var nr := Clusters(|slots| - free, dir.perCluster);
      OneOrTwoClusters(|slots| - free, dir.perCluster);
      need := nr;
      var err := Grow(nr, fill, memory);
      r := dir.Extend(slots, pos, free, garbage, faults.(alloc := err != ENOSPC, chain := err == 0), before);
      SectorsAdd(|c|, nr, dir.perCluster);
    }
  }
}
