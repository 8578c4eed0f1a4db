/** An inode's cluster chain: lookup through the cluster cache, growing the
    chain, cutting it, and mapping a file block for reading or writing. */
module FatInode {
  import opened FatFormat
  import opened Multiples
  import opened FatChain
  import opened FatTable
  import opened ClusterCache
  import opened FileBlocks

  class Inode {
    /** The table of the file system, and the guard against chain loops. */
    const fat: Fat
    const limit: nat
    /** Cluster size in sectors of 512 bytes and in blocks, and the first data block. */
    const clusterSectors: nat
    const secPerClus: nat
    const dataStart: nat

    var start: int
    /** Allocated size in sectors of 512 bytes, file size, and mmu_private, the
        size up to which blocks have been handed out, in bytes. */
    var iBlocks: nat
    var size: nat
    var mmu: nat
    /** The cache: runs with the most recently used first. */
    var lru: seq<Run>
    var nrCaches: nat
    var validId: nat
    /** The clusters of the chain. */
    ghost var chain: seq<int>

    ghost predicate CacheValid()
      reads this, fat
    {
      && AllReal(fat.tab, limit, start, lru)
      && nrCaches == |lru| <= MAX_CACHE
      && 0 < validId < TWO32
    }

    /** The inode owns a well-formed chain and its books are right. */
    ghost predicate Owned()
      reads this, fat
    {
      && fat.Valid() && fat.Mirrored({}) && CacheValid()
      && limit <= 0x7F_FFFF && clusterSectors >= 1
      && IsChain(fat.tab, chain) && start == Start(chain)
      && iBlocks == Sectors(|chain|, clusterSectors)
    }

    /** Clusters consist of whole blocks and blocks of whole sectors, and the
        handed-out size covers the file and is covered by the chain. */
    ghost predicate Sized()
      reads this, fat
    {
      && Owned() && secPerClus >= 1 && dataStart >= 1 && fat.geo.blockSize % 512 == 0
      && clusterSectors == Sectors(secPerClus, fat.geo.blockSize / 512)
      && size <= mmu <= Sectors(Sectors(|chain|, secPerClus), fat.geo.blockSize)
    }

    lemma Shape()
      requires Sized()
      ensures Owned() && secPerClus >= 1 && dataStart >= 1 && fat.geo.blockSize >= 512
      ensures forall i :: 0 <= i < |chain| ==> chain[i] >= FIRST
    {
    }

    lemma TableIsValid()
      requires Sized()
      ensures fat.Valid()
    {
    }

    /** fat_alloc_inode and the chain part of fat_fill_inode. */
    constructor (fat: Fat, secPerClus: nat, dataStart: nat, start: int, size: nat, iBlocks: nat,
                 ghost chain: seq<int>)
      requires fat.Valid() && fat.Mirrored({}) && IsChain(fat.tab, chain) && start == Start(chain)
      requires secPerClus >= 1 && dataStart >= 1 && fat.geo.blockSize % 512 == 0
      requires iBlocks == Sectors(|chain|, Sectors(secPerClus, fat.geo.blockSize / 512))
      requires size <= Sectors(Sectors(|chain|, secPerClus), fat.geo.blockSize)
      ensures this.fat == fat && this.chain == chain && this.secPerClus == secPerClus
      ensures Sized()
    {
      this.fat, this.secPerClus, this.dataStart, this.chain := fat, secPerClus, dataStart, chain;
      var sectors := Sectors(secPerClus, fat.geo.blockSize / 512);
      SectorsMonotone(1, secPerClus, fat.geo.blockSize / 512);
      clusterSectors := sectors;
      limit := LoopLimit(sectors);
      this.start, this.iBlocks, this.size, mmu := start, iBlocks, size, size;
      lru, nrCaches, validId := [], 0, ALWAYS_VALID + 1;
    }

    /** s_maxbytes >> cluster_bits */
    static function LoopLimit(sectors: nat): (r: nat)
      requires sectors >= 1
      ensures r <= 0x7F_FFFF
      ensures r * (sectors * 512) <= 0xFFFF_FFFF < (r + 1) * (sectors * 512)
    {
      var bytes := sectors * 512;
      QuotientOf(0xFFFF_FFFF, bytes);
      var r := 0xFFFF_FFFF / bytes;
      assert r * bytes >= r * 512 by { SectorsMonotone(512, bytes, r); }
      r
    }

    // ----- the cache -----

    /** The loop of fat_cache_lookup: a run that holds position fclus, or the one
        that begins last before it. */
    static method CacheSearch(lru: seq<Run>, fclus: int) returns (hit: int, offset: int)
      requires forall k :: 0 <= k < |lru| ==> lru[k].fcluster >= 1 && lru[k].contig >= 0
      ensures -1 <= hit < |lru| && (hit == -1 <==> offset == -1)
      ensures hit == -1 ==> forall k :: 0 <= k < |lru| ==> lru[k].fcluster > fclus
      ensures hit >= 0 ==> 0 <= offset <= lru[hit].contig && lru[hit].fcluster + offset <= fclus
      ensures hit >= 0 && lru[hit].fcluster + offset < fclus ==>
                && offset == lru[hit].contig
                && forall k :: 0 <= k < |lru| && lru[k].fcluster <= fclus ==> lru[k].fcluster <= lru[hit].fcluster
    {
      hit, offset := -1, -1;
      var best := 0;
      for i := 0 to |lru|
        invariant -1 <= hit < i && (hit == -1 <==> offset == -1) && best == if hit == -1 then 0 else lru[hit].fcluster
        invariant hit >= 0 ==> offset == lru[hit].contig && best + offset < fclus
        invariant forall k :: 0 <= k < i && lru[k].fcluster <= fclus ==> lru[k].fcluster <= best
      {
        var p := lru[i];
        if p.fcluster <= fclus && best < p.fcluster {
          hit, best := i, p.fcluster;
          if p.fcluster + p.contig < fclus {
            offset := p.contig;
          } else {
            offset := fclus - p.fcluster;
            break;
          }
        }
      }
    }

    /** fat_cache_lookup */
    method CacheLookup(fclus: int) returns (offset: int, cid: Building, f: int, d: int)
      requires CacheValid()
      modifies this`lru
      ensures CacheValid() && forall r :: r in lru <==> r in old(lru)
      ensures offset >= -1
      ensures offset >= 0 ==> cid.run in lru && cid.id == validId && f == cid.run.fcluster + offset <= fclus
                              && d == At(cid.run, f) && offset <= cid.run.contig
      ensures offset == -1 ==> lru == old(lru) && forall r :: r in lru ==> r.fcluster > fclus
      ensures offset >= 0 ==>
                exists i :: 0 <= i < |old(lru)| && lru == [old(lru)[i]] + old(lru)[..i] + old(lru)[i + 1..]
                            && old(lru)[i] == cid.run
      ensures offset >= 0 && f != fclus ==> offset == cid.run.contig
      ensures offset >= 0 && f != fclus ==>
                forall r :: r in lru && r.fcluster <= fclus ==> r.fcluster <= cid.run.fcluster
    {
      hide Reaches, Real, AllReal, Front;
      RunShapes(fat.tab, limit, start, lru);
      cid, f, d := Building(ALWAYS_VALID, Run(-1, -1, 0)), 0, 0;
      var hit;
      hit, offset := CacheSearch(lru, fclus);
      if hit >= 0 {
        cid := Building(validId, lru[hit]);
        f, d := cid.run.fcluster + offset, cid.run.dcluster + offset;
        FrontIsReal(fat.tab, limit, start, lru, hit);
        lru := Front(lru, hit);
      }
    }

    /** fat_cache_merge: widen the run that begins where the new one does.  The
        assertion is the source's BUG_ON. */
    method CacheMerge(run: Run) returns (at: int)
      requires CacheValid() && Real(fat.tab, limit, start, run)
      modifies this`lru
      ensures CacheValid() && |lru| == |old(lru)| && -1 <= at < |lru|
      ensures at == -1 ==> lru == old(lru) && forall i :: 0 <= i < |lru| ==> lru[i].fcluster != run.fcluster
      ensures at >= 0 ==> lru[at].fcluster == run.fcluster && lru[at].contig >= run.contig
      ensures at >= 0 ==> forall i :: 0 <= i < |lru| ==> lru[i] == old(lru)[i] || lru[i] == run
      ensures at >= 0 ==> FirstAt(old(lru), run.fcluster, at) && lru == old(lru)[at := Longer(old(lru)[at], run)]
    {
      at := 0;
      while at < |lru|
        invariant 0 <= at <= |lru| && lru == old(lru)
        invariant forall i :: 0 <= i < at ==> lru[i].fcluster != run.fcluster
      {
        var p := lru[at];
        if p.fcluster == run.fcluster {
          assert Real(fat.tab, limit, start, p);
          SameStart(fat.tab, limit, start, p, run);
          assert p.dcluster == run.dcluster;
          if run.contig > p.contig {
            lru := lru[at := p.(contig := run.contig)];
          }
          return;
        }
        at := at + 1;
      }
      at := -1;
    }

    /** A cached run either was there before or is the added one. */
    twostate predicate OnlyAdds(run: Run)
      reads this
    {
      forall r :: r in lru ==> r in old(lru) || r == run
    }

    /** fat_cache_add */
    method CacheAdd(cid: Building, memory: bool)
      requires CacheValid()
      requires cid.run.fcluster != -1 && (cid.id == ALWAYS_VALID || cid.id == validId)
               ==> Real(fat.tab, limit, start, cid.run)
      modifies this`lru, this`nrCaches
      ensures CacheValid() && OnlyAdds(cid.run)
      ensures cid.run.fcluster == -1 || (cid.id != 0 && cid.id != validId) ==> lru == old(lru)
      ensures cid.run.fcluster != -1 && (cid.id == 0 || cid.id == validId) ==> AddedTo(old(lru), lru, cid.run, memory)
      ensures cid.run.fcluster != -1 && Accepted(cid.id, validId) && (memory || |old(lru)| == MAX_CACHE) ==>
                lru != [] && lru[0].fcluster == cid.run.fcluster && lru[0].contig >= cid.run.contig
    {
      hide Real, AllReal, AddedTo, FirstAt, Longer, Front;
      if cid.run.fcluster == -1 {
        return;
      }
      if cid.id != ALWAYS_VALID && cid.id != validId {
        return;
      }
      var at := CacheMerge(cid.run);
      if at == -1 {
        NewIsAdded(lru, cid.run, memory);
        PushedIsReal(fat.tab, limit, start, lru, cid.run, |lru|);
        if |lru| > 0 { PushedIsReal(fat.tab, limit, start, lru, cid.run, |lru| - 1); }
        assert lru[..|lru|] == lru;
        if nrCaches < MAX_CACHE {
          if !memory {
            return;
          }
          nrCaches := nrCaches + 1;
          lru := [cid.run] + lru;
        } else {
          lru := [cid.run] + lru[..|lru| - 1];
        }
      } else {
        MergedIsAdded(old(lru), cid.run, at, memory);
        FrontIsReal(fat.tab, limit, start, lru, at);
        lru := Front(lru, at);
      }
    }

    /** fat_cache_inval_inode */
    method CacheInval()
      requires 0 < validId < TWO32
      modifies this`lru, this`nrCaches, this`validId
      ensures lru == [] && nrCaches == 0 && CacheValid() && validId == NextId(old(validId))
    {
      lru := [];
      nrCaches := 0;
      validId := (validId + 1) % TWO32;
      if validId == ALWAYS_VALID {
        validId := (validId + 1) % TWO32;
      }
    }

    // ----- lookup -----

    /** What fat_get_cluster finds without a cache. */
    ghost function Uncached(cluster: int): Found
      reads this, fat
    {
      if ValidIn(fat.tab, start) then Walk(fat.tab, limit, cluster, 0, start) else Found(EIO, 0, start)
    }

    /** The state of the chain walk in fat_get_cluster: position f is at cluster
        d, and the run being built ends there unless the target is reached. */
    ghost predicate Walking(cluster: int, f: int, d: int, cid: Building)
      reads this, fat
    {
      && Reaches(fat.tab, limit, start, f, d) && f <= cluster
      && (cid.run == Run(-1, -1, 0) || Real(fat.tab, limit, start, cid.run))
      && (cid.id == ALWAYS_VALID || cid.id == validId)
      && (f < cluster && cid.run.fcluster != -1 ==> cid.run.fcluster + cid.run.contig == f && At(cid.run, f) == d)
      && (cid.run.fcluster != -1 ==> cid.run.fcluster <= f <= cid.run.fcluster + cid.run.contig)
      && (f > 0 ==> cid.run.fcluster != -1)
    }

    lemma BeginsWalking(cluster: int, offset: int, f: int, d: int, cid: Building)
      requires CacheValid() && cluster > 0 && fat.geo.ValidEntry(start)
      requires offset < 0 ==> cid == Building(ALWAYS_VALID, Run(-1, -1, 0)) && f == 0 && d == start
      requires offset >= 0 ==>
                 && cid.run in lru && cid.id == validId && f == cid.run.fcluster + offset <= cluster
                 && d == At(cid.run, f) && offset <= cid.run.contig && (f != cluster ==> offset == cid.run.contig)
      ensures Walking(cluster, f, d, cid)
    {
    }

    /** One link followed. */
    method Follow(cluster: int, f: int, d: int, cid: Building, next: int) returns (cid': Building)
      requires Walking(cluster, f, d, cid) && f < cluster && f <= limit
      requires ValidIn(fat.tab, d) && next == fat.tab[d] && next != FREE && next != EOF
      ensures Walking(cluster, f + 1, next, cid')
      ensures cid'.run.fcluster != -1 ==> cid'.run.fcluster + cid'.run.contig == f + 1
    {
      ReachesNext(fat.tab, limit, start, f, d);
      if cid.run.fcluster != -1 && cid.run.dcluster + cid.run.contig + 1 == next {
        RunGrows(fat.tab, limit, start, cid.run, next);
        cid' := cid.(run := cid.run.(contig := cid.run.contig + 1));
      } else {
        RunBegins(fat.tab, limit, start, f + 1, next);
        cid' := Building(ALWAYS_VALID, Run(f + 1, next, 0));
      }
    }

    /** fat_get_cluster.  `memory` says whether a cache entry can be allocated. */
    method GetCluster(cluster: int, memory: bool) returns (r: Found)
      requires fat.Valid() && CacheValid() && start != 0 && cluster >= 0
      modifies this`lru, this`nrCaches
      ensures CacheValid()
      ensures r == Uncached(cluster) || (r.status == EIO && fat.unreadable != {})
      ensures old(lru) == [] ==> forall run :: run in lru ==> run.fcluster + run.contig <= r.fclus
      ensures (r.status == 0 || r.status == EOF) && cluster > 0 && r.fclus > 0
              && (memory || |old(lru)| == MAX_CACHE) ==>
                lru != [] && lru[0].fcluster <= r.fclus <= lru[0].fcluster + lru[0].contig
    {
      hide AddedTo, Real, AllReal, FirstAt;
      if !fat.geo.ValidEntry(start) {
        return Found(EIO, 0, start);
      }
      if cluster == 0 {
        return Found(0, 0, start);
      }
      var offset, cid, f, d := CacheLookup(cluster);
      if offset < 0 {
        cid, f, d := Building(ALWAYS_VALID, Run(-1, -1, 0)), 0, start;
      }
      BeginsWalking(cluster, offset, f, d, cid);
      ghost var runs := lru;
      while f < cluster
        invariant CacheValid() && lru == runs && Walking(cluster, f, d, cid)
        invariant old(lru) == [] && cid.run.fcluster != -1 ==> cid.run.fcluster + cid.run.contig == f
      {
        WalkFrom(fat.tab, limit, f, cluster, 0, start);
        if f > limit {
          return Found(EIO, f, d);
        }
        var next, c := fat.ReadEntry(d);
        if next < 0 {
          return Found(EIO, f, d);
        }
        if next == FREE {
          return Found(EIO, f, d);
        }
        if next == EOF {
          CacheAdd(cid, memory);
          return Found(EOF, f, d);
        }
        cid := Follow(cluster, f, d, cid, next);
        f, d := f + 1, next;
      }
      CacheAdd(cid, memory);
      return Found(0, f, d);
    }

    // ----- growing the chain -----

    /** Find the last cluster of the chain. */
    method LastCluster(memory: bool) returns (r: Found)
      requires Owned() && chain != []
      modifies this`lru, this`nrCaches
      ensures Owned()
      ensures r.status >= 0 ==> r == Found(EOF, |chain| - 1, chain[|chain| - 1])
      ensures r.status < 0 ==> r.status == EIO
      ensures fat.Faultless() ==> (r.status >= 0 <==> |chain| <= limit + 1)
    {
      ChainFits(fat.tab, chain);
      WalkToEnd(fat.tab, limit, chain, EOF);
      r := GetCluster(EOF, memory);
    }

    /** Link an existing entry to a new cluster, or end it. */
    method Relink(e: int, value: int) returns (ret: int)
      requires fat.Valid() && fat.Mirrored({}) && ValidIn(fat.tab, e)
      requires value == EOF || 0 <= value < BadMark(fat.geo.variant)
      modifies fat`bytes, fat`tab, fat`copies
      ensures fat.Valid()
      ensures ret == 0 ==> fat.Mirrored({}) && fat.tab == old(fat.tab)[e := value]
      ensures fat.Faultless() ==> ret == 0
      ensures ret <= 0
    {
      var status, c := fat.ReadEntry(e);
      if status < 0 {
        return status;
      }
      ret := fat.WriteEntry(c, value);
    }

    /** fat_chain_add.  The clusters `added` were just taken from the table t0. */
    method ChainAdd(first: int, nr: nat, memory: bool, ghost t0: Table, ghost added: seq<int>)
      returns (ret: int)
      requires Owned() && IsChain(t0, chain) && Grown(t0, fat.tab, [], added)
      requires |added| == nr >= 1 && first == added[0]
      modifies this, fat`bytes, fat`tab, fat`copies
      ensures fat.Valid()
      ensures ret == 0 ==> Owned() && chain == old(chain) + added && Grown(t0, fat.tab, old(chain), added)
      ensures fat.Faultless() && ret != 0 ==> Owned() && fat.tab == old(fat.tab) && chain == old(chain)
      ensures fat.Faultless() ==> (ret == 0 <==> |old(chain)| <= limit + 1)
      ensures fat.Faultless() && ret != 0 ==> ret == EIO
      ensures size == old(size) && mmu == old(mmu)
    {
      hide fat.Mirrored, Grown, IsChain, AllReal, Sectors;
      var newFclus, last := 0, 0;
      if start != 0 {
        var r := LastCluster(memory);
        if r.status < 0 {
          return r.status;
        }
        newFclus, last := r.fclus + 1, r.dclus;
      }
      GrowsByFirst(t0, fat.tab, chain, added);
      ghost var t1, c, runs := fat.tab, chain, lru;
      if last != 0 {
        ret := Relink(last, first);
        if ret < 0 {
          return;
        }
      } else {
        start := first;
      }
      chain := chain + added;
      RunsKept(t1, fat.tab, limit, c, chain, lru);
      SectorsAdd(|c|, nr, clusterSectors);
      assert newFclus == iBlocks / clusterSectors;  // "clusters badly computed" is not reached
      iBlocks := iBlocks + Sectors(nr, clusterSectors);
      ret := 0;
    }

    /** What linking the chain to the first of the new clusters does. */
    static lemma GrowsByFirst(t0: Table, t: Table, c: seq<int>, added: seq<int>)
      requires |t| <= EOF && IsChain(t0, c) && IsChain(t, c) && Grown(t0, t, [], added) && added != []
      ensures var t' := if c == [] then t else t[c[|c| - 1] := added[0]];
              Grown(t0, t', c, added) && IsChain(t', c + added)
      ensures ValidIn(t, added[0]) && (c != [] ==> ValidIn(t, c[|c| - 1]))
      ensures Start(c + added) == if c == [] then added[0] else Start(c)
      ensures forall i :: 0 <= i < |c| ==> c[i] != 0
    {
      if c == [] {
        assert [] + added == added;
      } else {
        Join(t0, t, c, added);
      }
    }

    /** The chain and the cached runs outlive a table change that keeps the chain. */
    lemma StillOwned(t: Table)
      requires |t| <= EOF && IsChain(t, chain) && AllReal(t, limit, start, lru)
      requires start == Start(chain) && iBlocks == Sectors(|chain|, clusterSectors)
      requires limit <= 0x7F_FFFF && clusterSectors >= 1 && nrCaches == |lru| <= MAX_CACHE && 0 < validId < TWO32
      requires fat.Valid() && fat.Mirrored({}) && IsChain(fat.tab, chain)
      ensures Owned()
    {
      RunsKept(t, fat.tab, limit, chain, chain, lru);
    }

    /** Take clusters from the table; the chain is not changed yet. */
    method Take(nr: nat) returns (err: int, clusters: seq<int>)
      requires Owned() && 1 <= nr <= MAX_BUFS / 2
      modifies fat`bytes, fat`tab, fat`copies, fat`prevFree, fat`freeClusters, fat`freeValid
      ensures fat.Valid()
      ensures err == 0 ==> Owned() && |clusters| == nr && Grown(old(fat.tab), fat.tab, [], clusters)
      ensures fat.Faultless() && err != 0 ==> err == ENOSPC && Owned() && fat.tab == old(fat.tab)
      ensures old(fat.Exact()) ==> fat.Exact()
      ensures fat.Faultless() && !old(fat.Refused(nr)) ==> (err == 0 <==> nr <= CountFree(old(fat.tab)))
      ensures old(fat.Refused(nr)) ==> err == ENOSPC
    {
      hide fat.Mirrored, AllReal, Real, Sectors;
      ghost var t0 := fat.tab;
      ghost var visits;
      err, clusters, visits := fat.AllocClusters(nr);
      if err == 0 {
        KeptByTaking(t0, fat.tab, chain, clusters);
        StillOwned(t0);
      } else if fat.Faultless() {
        StillOwned(t0);
      }
    }

    /** Give clusters back that were taken but not linked to the chain. */
    method GiveBack(clusters: seq<int>, ghost t0: Table)
      requires fat.Valid() && clusters != []
      requires fat.Faultless() ==> Owned() && IsChain(t0, chain) && Grown(t0, fat.tab, [], clusters)
      modifies fat`bytes, fat`tab, fat`copies, fat`freeClusters
      ensures fat.Valid()
      ensures fat.Faultless() ==> Owned() && fat.tab == t0
      ensures fat.Faultless() ==> CounterKept(old(fat.freeClusters), old(fat.tab), fat.freeClusters, fat.tab)
    {
      hide AllReal, Real, FreeFrom, Grown;
      ghost var t1 := fat.tab;
      if fat.Faultless() {
        UndoGrown(t0, t1, clusters);
        FreeFromChain(t1, clusters);
      }
      fat.MirroredNowhere();
      ghost var dirty: set<nat> := if fat.Faultless() then {} else Below(|fat.bytes|);
      var e, clean := fat.FreeClusters(clusters[0], dirty);
      if fat.Faultless() {
        assert {} - clean == {};
        StillOwned(t1);
      }
    }

    /** Allocate clusters, fill them (or fail to) and add them to the chain; what
        was taken in vain is given back. */
    method Append(nr: nat, fill: bool, memory: bool) returns (ret: int)
      requires Owned() && 1 <= nr <= MAX_BUFS / 2
      modifies this, fat`bytes, fat`tab, fat`copies, fat`prevFree, fat`freeClusters, fat`freeValid
      ensures fat.Valid()
      ensures ret == 0 ==> Owned() && |chain| == |old(chain)| + nr && old(chain) == chain[..|old(chain)|]
      ensures ret == 0 ==> Grown(old(fat.tab), fat.tab, old(chain), chain[|old(chain)|..])
      ensures fat.Faultless() && ret != 0 ==> Owned() && fat.tab == old(fat.tab) && chain == old(chain)
      ensures old(fat.Exact()) && (ret == 0 || fat.Faultless()) ==> fat.Exact()
      ensures fat.Faultless() && !old(fat.Refused(nr)) ==>
                (ret == 0 <==> nr <= CountFree(old(fat.tab)) && fill && |old(chain)| <= limit + 1)
      ensures ret == 0 ==> nr <= CountFree(old(fat.tab))
      ensures fat.Faultless() && !old(fat.Refused(nr)) ==> (ret == ENOSPC <==> nr > CountFree(old(fat.tab)))
      ensures fat.Faultless() && old(fat.Refused(nr)) ==> ret == ENOSPC
      ensures fat.Faultless() && ret != 0 ==>
                || ret == ENOSPC
                || (ret == ENOMEM && !fill)
                || (ret == EIO && |old(chain)| > limit + 1)
      ensures size == old(size) && mmu == old(mmu)
    {
      hide fat.Mirrored, AllReal, Real, Grown, CountFree, Sectors;
      ghost var t0, c := fat.tab, chain;
      var err, clusters := Take(nr);
      if err != 0 {
        return err;
      }
      ghost var t1 := fat.tab;
      GrownCount(t0, t1, [], clusters);
      if !fill {
        GiveBack(clusters, t0);
        return ENOMEM;
      }
      ret := ChainAdd(clusters[0], nr, memory, t0, clusters);
      if ret == 0 {
        assert chain[|c|..] == clusters;
        GrownCount(t0, fat.tab, c, clusters);
      } else {
        GiveBack(clusters, t0);
      }
    }

    /** fat_add_cluster */
    method AddCluster(memory: bool) returns (ret: int)
      requires Owned()
      modifies this, fat`bytes, fat`tab, fat`copies, fat`prevFree, fat`freeClusters, fat`freeValid
      ensures fat.Valid()
      ensures ret == 0 ==> Owned() && |chain| == |old(chain)| + 1 && old(chain) == chain[..|old(chain)|]
      ensures ret == 0 ==> Grown(old(fat.tab), fat.tab, old(chain), chain[|old(chain)|..])
      ensures fat.Faultless() && ret != 0 ==> Owned() && fat.tab == old(fat.tab) && chain == old(chain)
      ensures old(fat.Exact()) && (ret == 0 || fat.Faultless()) ==> fat.Exact()
      ensures fat.Faultless() && !old(fat.Refused(1)) ==>
                (ret == 0 <==> 1 <= CountFree(old(fat.tab)) && |old(chain)| <= limit + 1)
      ensures fat.Faultless() && ret != 0 ==> ret == ENOSPC || (ret == EIO && |old(chain)| > limit + 1)
      ensures size == old(size) && mmu == old(mmu)
    {
      assert 1 <= MAX_BUFS / 2;
      hide *;
      ret := Append(1, true, memory);
    }

    /** Count bytes of the chain in the size, as for a directory that has grown. */
    method CountIn(bytes: nat)
      requires Sized() && mmu + bytes <= Sectors(Sectors(|chain|, secPerClus), fat.geo.blockSize)
      modifies this`size, this`mmu
      ensures Sized() && size == old(size) + bytes && mmu == old(mmu) + bytes
    {
      hide fat.Mirrored, fat.Valid, AllReal, IsChain, Sectors;
      size, mmu := size + bytes, mmu + bytes;
    }

    // ----- cutting the chain -----

    /** Free a whole chain of clusters. */
    method Release(first: int, ghost tail: seq<int>) returns (ret: int)
      requires fat.Valid() && fat.Mirrored({}) && IsChain(fat.tab, tail) && tail != [] && first == tail[0]
      modifies fat`bytes, fat`tab, fat`copies, fat`freeClusters
      ensures fat.Valid()
      ensures ret == 0 ==> fat.Mirrored({}) && fat.tab == Released(old(fat.tab), tail)
      ensures fat.Faultless() ==> ret == 0
      ensures CounterKept(old(fat.freeClusters), old(fat.tab), fat.freeClusters, fat.tab)
    {
      FreeFromChain(fat.tab, tail);
      ghost var clean;
      ret, clean := fat.FreeClusters(first, {});
      assert {} - clean == {};
    }

    /** Find position p of the chain through an empty cache. */
    method Position(p: nat, memory: bool) returns (r: Found)
      requires Owned() && chain != [] && lru == []
      modifies this`lru, this`nrCaches
      ensures Owned() && forall run :: run in lru ==> run.fcluster + run.contig <= r.fclus
      ensures p < |chain| && r.status >= 0 ==> r == Found(0, p, chain[p])
      ensures p >= |chain| && r.status >= 0 ==> r.status == EOF
      ensures fat.Faultless() ==> (r.status >= 0 <==> |chain| <= limit + 1 || p <= limit + 1)
    {
      if p < |chain| {
        WalkToPosition(fat.tab, limit, chain, p);
      } else {
        WalkToEnd(fat.tab, limit, chain, p);
      }
      r := GetCluster(p, memory);
    }

    /** The number of clusters kept when a chain is cut to `skip` clusters. */
    static function Kept(c: seq<int>, skip: nat): nat { if skip < |c| then skip else |c| }

    /** Put an end mark into an entry unless it holds one.  Returns an error, 0
        when there was nothing to do, or the cluster the entry linked to. */
    method EndEntry(e: int) returns (ret: int)
      requires fat.Valid() && fat.Mirrored({}) && ValidIn(fat.tab, e) && fat.tab[e] != FREE
      modifies fat`bytes, fat`tab, fat`copies
      ensures fat.Valid()
      ensures ret == 0 ==> fat.tab == old(fat.tab) && fat.tab[e] == EOF
      ensures ret > 0 ==> ret == old(fat.tab)[e] != EOF && fat.tab == old(fat.tab)[e := EOF]
      ensures ret >= 0 ==> fat.Mirrored({})
      ensures fat.Faultless() ==> ret >= 0
    {
      var next, cursor := fat.ReadEntry(e);
      if next < 0 {
        return EIO;
      }
      if next == EOF {
        return 0;
      }
      ret := fat.WriteEntry(cursor, EOF);
      if ret == 0 {
        ret := next;
      }
    }

    /** The middle part of fat_free: end the chain after `skip` clusters.
        Returns an error, 0 when there is nothing behind them, or the first
        cluster to free. */
    method EndAfter(skip: nat, memory: bool) returns (ret: int)
      requires Owned() && chain != [] && lru == [] && skip >= 1
      modifies this`lru, this`nrCaches, fat`bytes, fat`tab, fat`copies
      ensures fat.Valid()
      ensures ret == 0 ==> Owned() && fat.tab == old(fat.tab) && |chain| <= skip
      ensures ret > 0 ==> skip < |chain| && ret == chain[skip] && fat.Mirrored({})
      ensures ret > 0 ==> fat.tab == old(fat.tab)[chain[skip - 1] := EOF]
      ensures AllReal(old(fat.tab), limit, start, lru) && nrCaches == |lru| <= MAX_CACHE
      ensures ret > 0 ==> forall run :: run in lru ==> run.fcluster + run.contig < skip
      ensures fat.Faultless() ==> (ret >= 0 <==> |chain| <= limit + 1 || skip <= limit + 2)
    {
      hide fat.Mirrored, AllReal, Sectors, Get;
      var r := Position(skip - 1, memory);
      if r.status < 0 {
        return r.status;
      }
      if r.status == EOF {
        return 0;
      }
      assert fat.tab[chain[skip - 1]] == Link(chain, skip - 1);
      ret := EndEntry(r.dclus);
    }

    /** The end of fat_free: the chain has been ended after `skip` clusters of
        the table t0; free the rest. */
    method FreeRest(freeStart: int, skip: nat, ghost t0: Table) returns (ret: int)
      requires fat.Valid() && fat.Mirrored({}) && IsChain(t0, chain) && skip < |chain| && freeStart == chain[skip]
      requires fat.tab == if skip == 0 then t0 else t0[chain[skip - 1] := EOF]
      requires start == if skip == 0 then 0 else Start(chain)
      requires AllReal(t0, limit, Start(chain), lru) && nrCaches == |lru| <= MAX_CACHE && 0 < validId < TWO32
      requires forall run :: run in lru ==> run.fcluster + run.contig < skip
      requires limit <= 0x7F_FFFF && clusterSectors >= 1
      modifies this`iBlocks, this`chain, fat`bytes, fat`tab, fat`copies, fat`freeClusters
      ensures fat.Valid()
      ensures ret == 0 ==> Owned() && chain == old(chain)[..skip] && Cut(t0, fat.tab, old(chain), skip)
      ensures fat.Faultless() ==> ret == 0
      ensures CounterKept(old(fat.freeClusters), old(fat.tab), fat.freeClusters, fat.tab)
    {
      hide fat.Mirrored, AllReal, CountFree, Sectors, Get, Cut;
      ghost var c := chain;
      if skip > 0 {
        Split(t0, c, skip);
      }
      SplitAndRelease(t0, c, skip);
      assert skip == 0 ==> c[0..] == c;
      hide IsChain;
      iBlocks := Sectors(skip, clusterSectors);
      ret := Release(freeStart, c[skip..]);
      chain := c[..skip];
      if ret == 0 {
        CutIsChain(t0, fat.tab, c, skip);
        RunsKept(t0, fat.tab, limit, c, chain, lru);
      }
    }

    /** fat_free: free all clusters behind the first `skip`. */
    method Free(skip: nat, memory: bool) returns (ret: int)
      requires Owned()
      modifies this, fat`bytes, fat`tab, fat`copies, fat`freeClusters
      ensures fat.Valid()
      ensures ret == 0 ==> Owned() && chain == old(chain)[..Kept(old(chain), skip)]
      ensures ret == 0 ==> Cut(old(fat.tab), fat.tab, old(chain), Kept(old(chain), skip))
      ensures ret == 0 && old(fat.Exact()) ==> fat.Exact()
      ensures fat.Faultless() ==> (ret == 0 <==> |old(chain)| <= limit + 1 || skip <= limit + 2)
      ensures size == old(size) && mmu == old(mmu)
    {
      hide fat.Mirrored, AllReal, Cut, CountFree, Sectors, Get;
      ghost var t0, c := fat.tab, chain;
      CutNothing(t0, c);
      if start == 0 {
        return 0;
      }
      CacheInval();
      var freeStart := start;
      if skip == 0 {
        start := 0;
      } else {
        ret := EndAfter(skip, memory);
        if ret <= 0 {
          return;
        }
        assert t0[c[skip - 1]] == Link(c, skip - 1);
        CountAfterRelink(t0, c[skip - 1], EOF);
        freeStart := ret;
      }
      ret := FreeRest(freeStart, skip, t0);
    }

    /** The clusters that hold `offset` bytes. */
    function ClustersFor(offset: nat): nat
      requires secPerClus >= 1 && fat.geo.blockSize >= 1
    {
      SectorsMonotone(1, secPerClus, fat.geo.blockSize);
      Blocks(offset, Sectors(secPerClus, fat.geo.blockSize))
    }

    /** fat_truncate_blocks; the file size has been set to at most `offset` before. */
    method TruncateBlocks(offset: nat, memory: bool) returns (ret: int)
      requires Sized() && size <= offset
      modifies this, fat`bytes, fat`tab, fat`copies, fat`freeClusters
      ensures fat.Valid() && size == old(size)
      ensures mmu == if old(mmu) > offset then offset else old(mmu)
      ensures ret == 0 ==> Sized() && chain == old(chain)[..Kept(old(chain), ClustersFor(offset))]
      ensures ret == 0 ==> Holding(offset, old(chain), chain)
      ensures ret == 0 ==> Cut(old(fat.tab), fat.tab, old(chain), Kept(old(chain), ClustersFor(offset)))
      ensures ret == 0 && old(fat.Exact()) ==> fat.Exact()
      ensures fat.Faultless() && |old(chain)| <= limit + 1 ==> ret == 0
    {
      hide fat.Mirrored, AllReal, Cut, CountFree, Sectors, Get, Blocks, IsChain, Holding;
      if mmu > offset {
        mmu := offset;
      }
      var n := ClustersFor(offset);
      TruncatedFits(offset, n);
      KeptIsHolding(offset, chain);
      ret := Free(n, memory);
    }

    /** c is cut to c', which has every cluster that holds a byte before offset, and
        no other. */
    ghost predicate Holding(offset: nat, c: seq<int>, c': seq<int>) {
      var bytes := secPerClus * fat.geo.blockSize;
      && c' <= c && (|c'| < |c| ==> offset <= |c'| * bytes) && (c' != [] ==> (|c'| - 1) * bytes < offset)
    }

    lemma KeptIsHolding(offset: nat, c: seq<int>)
      requires secPerClus >= 1 && fat.geo.blockSize >= 1
      ensures Holding(offset, c, c[..Kept(c, ClustersFor(offset))])
    {
      var bytes := Sectors(secPerClus, fat.geo.blockSize);
      var n := Kept(c, ClustersFor(offset));
      BlocksWithin(offset, n, bytes);
      if n > 0 { BlocksWithin(offset, n - 1, bytes); }
    }

    lemma TruncatedFits(offset: nat, n: nat)
      requires secPerClus >= 1 && fat.geo.blockSize >= 1 && n == ClustersFor(offset)
      ensures offset <= Sectors(Sectors(n, secPerClus), fat.geo.blockSize)
    {
      BlocksWithin(offset, n, Sectors(secPerClus, fat.geo.blockSize));
      SectorsNest(n, secPerClus, fat.geo.blockSize);
    }

    static lemma CutIsChain(t: Table, t': Table, c: seq<int>, n: nat)
      requires Cut(t, t', c, n)
      ensures IsChain(t', c[..n])
    {
    }

    static lemma CutNothing(t: Table, c: seq<int>)
      requires IsChain(t, c)
      ensures Cut(t, t, c, |c|) && c[..|c|] == c
    {
      assert c[..|c|] == c;
    }

    // ----- mapping blocks -----

    /** fat_clus_to_blknr plus an offset in the cluster */
    function BlockAt(cluster: int, offset: nat): (r: nat)
      requires cluster >= FIRST
      ensures dataStart >= 1 ==> r >= 1
    {
      Sectors(cluster - FIRST, secPerClus) + dataStart + offset
    }

    /** The end of the mapped part of the file seen from block `sector`: is_exceed_eof. */
    function LastBlock(sector: nat, create: bool): (r: nat)
      requires fat.geo.blockSize > 0
      reads this
    {
      var last := Blocks(size, fat.geo.blockSize);
      if sector >= last && create then Blocks(mmu, fat.geo.blockSize) else last
    }

    /** The end of the part of the file that may be mapped; the bmap call maps all
        that is allocated. */
    function MappedEnd(sector: nat, create: bool, fromBmap: bool): (r: nat)
      requires fat.geo.blockSize >= 512
      reads this
    {
      if fromBmap then iBlocks / (fat.geo.blockSize / 512) else LastBlock(sector, create)
    }

    // what a mapping means, in blocks and bytes

    /** Block `sector` of the file is disk block phys. */
    ghost predicate LiesAt(sector: nat, phys: nat)
      requires secPerClus >= 1
      reads this`chain
    {
      && sector / secPerClus < |chain|
      && phys == dataStart + (chain[sector / secPerClus] - 2) * secPerClus + sector % secPerClus
    }

    /** The bytes of the file that count when block `sector` is looked up: those of
        its size; for a write beyond it, those handed out; for bmap, the chain. */
    ghost function EndBytes(sector: nat, create: bool, fromBmap: bool): nat
      reads this`chain, this`size, this`mmu
    {
      if fromBmap then |chain| * secPerClus * fat.geo.blockSize
      else if create && sector * fat.geo.blockSize >= size then mmu
      else size
    }

    ghost predicate InFile(sector: nat, create: bool, fromBmap: bool)
      reads this`chain, this`size, this`mmu
    {
      sector * fat.geo.blockSize < EndBytes(sector, create, fromBmap)
    }

    /** n blocks from `sector` on are in one cluster and in the file, and n is the
        largest such number up to most. */
    ghost predicate RunsOn(sector: nat, create: bool, fromBmap: bool, n: nat, most: nat)
      requires secPerClus >= 1
      reads this`chain, this`size, this`mmu
    {
      var bytes := EndBytes(sector, create, fromBmap);
      && 1 <= n <= most && sector % secPerClus + n <= secPerClus && (sector + n - 1) * fat.geo.blockSize < bytes
      && (n == most || sector % secPerClus + n == secPerClus || (sector + n) * fat.geo.blockSize >= bytes)
    }

    /** The end in blocks is the end in bytes. */
    lemma EndIs(sector: nat, create: bool, fromBmap: bool, m: nat)
      requires Sized()
      ensures m < MappedEnd(sector, create, fromBmap) <==> m * fat.geo.blockSize < EndBytes(sector, create, fromBmap)
    {
      hide fat.Mirrored, AllReal, IsChain, fat.Valid;
      var bs := fat.geo.blockSize;
      AllocatedBlocks();
      BlocksWithin(size, m, bs);
      BlocksWithin(mmu, m, bs);
      BlocksWithin(size, sector, bs);
      BlocksOfWhole(Sectors(|chain|, secPerClus), bs);
      BlocksWithin(Sectors(Sectors(|chain|, secPerClus), bs), m, bs);
    }

    lemma InFileIs(sector: nat, create: bool, fromBmap: bool)
      requires Sized()
      ensures InFile(sector, create, fromBmap) <==> sector < MappedEnd(sector, create, fromBmap)
    {
      hide Sized, MappedEnd, EndBytes;
      EndIs(sector, create, fromBmap, sector);
    }

    lemma BlockLies(sector: nat)
      requires secPerClus >= 1 && ClusterOf(sector, secPerClus) < |chain|
      requires chain[ClusterOf(sector, secPerClus)] >= FIRST
      ensures LiesAt(sector, BlockAt(chain[ClusterOf(sector, secPerClus)], OffsetIn(sector, secPerClus)))
    {
    }

    lemma RunIs(sector: nat, create: bool, fromBmap: bool, most: nat)
      requires Sized() && sector < MappedEnd(sector, create, fromBmap) && most >= 1
      ensures var room := secPerClus - OffsetIn(sector, secPerClus);
              var left := MappedEnd(sector, create, fromBmap) - sector;
              var n := if room > left then left else room;
              RunsOn(sector, create, fromBmap, if n < most then n else most, most)
    {
      Shape();
      hide Sized, EndBytes, MappedEnd;
      var room := secPerClus - OffsetIn(sector, secPerClus);
      var left := MappedEnd(sector, create, fromBmap) - sector;
      var n := if room > left then left else room;
      var k := if n < most then n else most;
      EndIs(sector, create, fromBmap, sector + k - 1);
      EndIs(sector, create, fromBmap, sector + k);
    }

    /** fat_bmap_cluster */
    method BmapCluster(cluster: nat, memory: bool) returns (r: int)
      requires Owned() && cluster < |chain|
      modifies this`lru, this`nrCaches
      ensures Owned() && (old(Sized()) ==> Sized())
      ensures r == chain[cluster] || (r == EIO && (fat.unreadable != {} || cluster > limit + 1))
    {
      WalkToPosition(fat.tab, limit, chain, cluster);
      var found := GetCluster(cluster, memory);
      if found.status < 0 {
        return EIO;
      }
      r := found.dclus;
    }

    /** The block of a position of the file is on the chain. */
    lemma MappedIsAllocated(sector: nat, create: bool, fromBmap: bool)
      requires Sized() && sector < MappedEnd(sector, create, fromBmap)
      ensures ClusterOf(sector, secPerClus) < |chain|
    {
      AllocatedBlocks();
      BlocksWithin(size, Sectors(|chain|, secPerClus), fat.geo.blockSize);
      BlocksWithin(mmu, Sectors(|chain|, secPerClus), fat.geo.blockSize);
      BlockInCluster(sector, |chain|, secPerClus);
    }

    lemma AllocatedBlocks()
      requires Sized()
      ensures iBlocks / (fat.geo.blockSize / 512) == Sectors(|chain|, secPerClus)
    {
      SectorsInBlocks(|chain|, secPerClus, fat.geo.blockSize / 512);
    }

    /** fat_bmap for a file or a directory with a chain. */
    method Bmap(sector: nat, create: bool, fromBmap: bool, memory: bool) returns (err: int, phys: nat, mapped: nat)
      requires Sized()
      modifies this`lru, this`nrCaches
      ensures Sized()
      ensures err == 0 ==> (phys != 0 <==> InFile(sector, create, fromBmap))
      ensures err == 0 && phys != 0 ==> LiesAt(sector, phys)
      ensures err == 0 && phys != 0 ==> RunsOn(sector, create, fromBmap, mapped, secPerClus)
      ensures err == 0 ==> (phys != 0 <==> sector < MappedEnd(sector, create, fromBmap))
      ensures err == 0 && phys != 0 ==>
                var room := secPerClus - OffsetIn(sector, secPerClus);
                var left := MappedEnd(sector, create, fromBmap) - sector;
                mapped == if room > left then left else room
      ensures err != 0 ==> err == EIO && (fat.unreadable != {} || sector / secPerClus > limit + 1)
    {
      Shape();
      ClusterIs(sector, secPerClus);
      Shape();
      hide Owned, Sized, Sectors, Blocks, ClusterOf, OffsetIn, InFile, LiesAt, RunsOn;
      err, phys, mapped := 0, 0, 0;
      InFileIs(sector, create, fromBmap);
      var last := MappedEnd(sector, create, fromBmap);
      if sector >= last {
        return;
      }
      MappedIsAllocated(sector, create, fromBmap);
      var offset := OffsetIn(sector, secPerClus);
      var cluster := BmapCluster(ClusterOf(sector, secPerClus), memory);
      if cluster < 0 {
        err := cluster;
        return;
      }
      BlockLies(sector);
      RunIs(sector, create, fromBmap, secPerClus);
      phys := BlockAt(cluster, offset);
      mapped := secPerClus - offset;
      if mapped > last - sector {
        mapped := last - sector;
      }
    }

    /** Block iblock is the next one to hand out and the chain does not hold it
        yet: it is the first block of the next cluster. */
    lemma NextToHandOut(iblock: nat)
      requires Sized() && iblock == mmu / fat.geo.blockSize && iblock >= Blocks(mmu, fat.geo.blockSize)
      ensures mmu == Sectors(iblock, fat.geo.blockSize)
      ensures iBlocks / (fat.geo.blockSize / 512) == Sectors(|chain|, secPerClus)
      ensures ClusterOf(iblock, secPerClus) <= |chain|
      ensures ClusterOf(iblock, secPerClus) == |chain| <==>
                OffsetIn(iblock, secPerClus) == 0 && iblock >= Sectors(|chain|, secPerClus)
    {
      var bs := fat.geo.blockSize;
      WholeBlocks(mmu, iblock, bs);
      SectorsInBlocks(|chain|, secPerClus, bs / 512);
      BlocksWithin(mmu, Sectors(|chain|, secPerClus), bs);
      BlocksOfWhole(iblock, bs);
      BlockInCluster(iblock, |chain|, secPerClus);
      BlockInCluster(iblock, |chain| + 1, secPerClus);
      SectorsAdd(|chain|, 1, secPerClus);
      SectorsMonotone(1, secPerClus, 1);
    }

    /** The handed-out size after `got` more blocks of a cluster on the chain. */
    lemma HandedOut(iblock: nat, got: nat)
      requires Owned() && secPerClus >= 1 && fat.geo.blockSize > 0
      requires ClusterOf(iblock, secPerClus) < |chain| && OffsetIn(iblock, secPerClus) + got <= secPerClus
      ensures var bs := fat.geo.blockSize;
              && Sectors(iblock, bs) + Sectors(got, bs) == Sectors(iblock + got, bs)
              && Blocks(Sectors(iblock + got, bs), bs) == iblock + got
              && Sectors(iblock + got, bs) <= Sectors(Sectors(|chain|, secPerClus), bs)
    {
      var bs := fat.geo.blockSize;
      var q := ClusterOf(iblock, secPerClus);
      SectorsAdd(iblock, got, bs);
      BlocksOfWhole(iblock + got, bs);
      BlockInCluster(iblock, |chain|, secPerClus);
      SectorsAdd(q, 1, secPerClus);
      SectorsMonotone(q + 1, |chain|, secPerClus);
      assert Sectors(1, secPerClus) == secPerClus;
      SectorsMonotone(iblock + got, Sectors(|chain|, secPerClus), bs);
    }

    /** More blocks count as handed out. */
    method MoreHandedOut(got: nat)
      requires Sized()
      requires mmu + Sectors(got, fat.geo.blockSize) <= Sectors(Sectors(|chain|, secPerClus), fat.geo.blockSize)
      modifies this`mmu
      ensures Sized() && mmu == old(mmu) + Sectors(got, fat.geo.blockSize) == old(mmu) + got * fat.geo.blockSize
    {
      SectorsIs(got, fat.geo.blockSize);
      hide fat.Mirrored, fat.Valid, AllReal, IsChain, Sectors;
      mmu := mmu + Sectors(got, fat.geo.blockSize);
    }

    /** A run cut to at most n blocks. */
    lemma ShorterRun(sector: nat, create: bool, n: nat, most: nat)
      requires secPerClus >= 1 && most >= 1 && RunsOn(sector, create, false, n, secPerClus)
      ensures RunsOn(sector, create, false, if n < most then n else most, most)
    {
      hide EndBytes;
      if most <= n { SectorsMonotone(sector + most - 1, sector + n - 1, fat.geo.blockSize); }
    }

    /** Make sure the chain holds block iblock: the allocation in __fat_get_block. */
    method Provide(iblock: nat, memory: bool) returns (err: int)
      requires Sized() && iblock == mmu / fat.geo.blockSize && iblock >= Blocks(mmu, fat.geo.blockSize)
      modifies this, fat`bytes, fat`tab, fat`copies, fat`prevFree, fat`freeClusters, fat`freeValid
      ensures fat.Valid() && size == old(size) && mmu == old(mmu)
      ensures err == 0 || fat.Faultless() ==> Sized() && old(chain) <= chain && |chain| <= |old(chain)| + 1
      ensures err == 0 ==> ClusterOf(iblock, secPerClus) < |chain|
      ensures err == 0 ==> |chain| == |old(chain)| + if iblock / secPerClus < |old(chain)| then 0 else 1
      ensures fat.Faultless() && err != 0 ==>
                err == ENOSPC || (err == EIO && iblock / secPerClus > limit + 1)
    {
      ClusterIs(iblock, secPerClus);
      hide fat.Mirrored, AllReal, Grown, CountFree, Sectors, Blocks, ClusterOf, OffsetIn, Get, IsChain;
      NextToHandOut(iblock);
      err := 0;
      var lastBlock := iBlocks / (fat.geo.blockSize / 512);
      if OffsetIn(iblock, secPerClus) == 0 && !(iblock < lastBlock) {
        ghost var n, c := |chain|, chain;
        err := AddCluster(memory);
        SectorsMonotone(n, n + 1, secPerClus);
        SectorsMonotone(Sectors(n, secPerClus), Sectors(n + 1, secPerClus), fat.geo.blockSize);
      }
    }

    /** The next block to hand out is the first beyond the bytes handed out. */
    lemma NextIs(iblock: nat)
      requires Sized() && !InFile(iblock, true, false)
      ensures iblock >= Blocks(mmu, fat.geo.blockSize) && iblock >= Blocks(size, fat.geo.blockSize)
      ensures iblock == mmu / fat.geo.blockSize ==> iblock * fat.geo.blockSize == mmu
    {
      Shape();
      InFileIs(iblock, true, false);
      BlocksWithin(size, iblock, fat.geo.blockSize);
      BlocksWithin(mmu, iblock, fat.geo.blockSize);
      hide Blocks;
      if iblock == mmu / fat.geo.blockSize { WholeBlocks(mmu, iblock, fat.geo.blockSize); }
    }

    /** Blocks handed out up to the end of what is handed out. */
    lemma RunOfNew(iblock: nat, got: nat, most: nat)
      requires secPerClus >= 1 && 1 <= got <= most && OffsetIn(iblock, secPerClus) + got <= secPerClus
      requires mmu == Sectors(iblock + got, fat.geo.blockSize) && size <= Sectors(iblock, fat.geo.blockSize)
      requires fat.geo.blockSize >= 1
      ensures InFile(iblock, true, false) && RunsOn(iblock, true, false, got, most)
    {
      SectorsMonotone(iblock, iblock + got - 1, fat.geo.blockSize);
      SectorsAdd(iblock + got - 1, 1, fat.geo.blockSize);
    }

    lemma EndOfNew(iblock: nat, got: nat)
      requires fat.geo.blockSize >= 512 && iblock >= Blocks(size, fat.geo.blockSize)
      requires Blocks(mmu, fat.geo.blockSize) == iblock + got
      ensures MappedEnd(iblock, true, false) == iblock + got
    {
    }

    /** The second half of __fat_get_block: hand out new blocks.  The two assertions
        are the source's "invalid FAT chain" error and its BUG_ON. */
    method HandOut(iblock: nat, maxBlocks: nat, memory: bool) returns (err: int, phys: nat, got: nat)
      requires Sized() && maxBlocks >= 1 && iblock == mmu / fat.geo.blockSize && !InFile(iblock, true, false)
      modifies this, fat`bytes, fat`tab, fat`copies, fat`prevFree, fat`freeClusters, fat`freeValid
      ensures fat.Valid() && size == old(size) && mmu >= old(mmu)
      ensures err == 0 || fat.Faultless() ==> Sized() && old(chain) <= chain
      ensures err == 0 ==> phys != 0 && LiesAt(iblock, phys) && RunsOn(iblock, true, false, got, maxBlocks)
      ensures err == 0 ==> mmu == old(mmu) + got * fat.geo.blockSize
      ensures err == 0 ==> |chain| == |old(chain)| + if iblock / secPerClus < |old(chain)| then 0 else 1
      ensures fat.Faultless() && err != 0 ==> err == ENOSPC || (err == EIO && iblock / secPerClus > limit + 1)
    {
      hide *;
      Shape();
      TableIsValid();
      NextIs(iblock);
      NextToHandOut(iblock);
      phys, got := 0, 0;
      err := Provide(iblock, memory);
      if err != 0 {
        return;
      }
      var mapped := secPerClus - OffsetIn(iblock, secPerClus);
      got := if mapped < maxBlocks then mapped else maxBlocks;
      Shape();
      HandedOut(iblock, got);
      BlocksWithin(size, iblock, fat.geo.blockSize);
      MoreHandedOut(got);
      RunOfNew(iblock, got, maxBlocks);
      fat.NoFaults();
      err, phys, mapped := Bmap(iblock, true, false, memory);
      if err != 0 {
        return;
      }
      assert phys != 0;
      EndOfNew(iblock, got);
      assert got == mapped;
    }

    /** __fat_get_block */
    method GetBlock(iblock: nat, maxBlocks: nat, create: bool, memory: bool)
      returns (err: int, phys: nat, got: nat)
      requires Sized() && maxBlocks >= 1
      modifies this, fat`bytes, fat`tab, fat`copies, fat`prevFree, fat`freeClusters, fat`freeValid
      ensures fat.Valid() && size == old(size) && mmu >= old(mmu)
      ensures err == 0 || fat.Faultless() ==> Sized() && old(chain) <= chain
      ensures err == 0 ==> (phys != 0 <==> create || old(InFile(iblock, false, false)))
      ensures err == 0 && phys != 0 ==> LiesAt(iblock, phys) && RunsOn(iblock, create, false, got, maxBlocks)
      ensures !create || old(InFile(iblock, true, false)) ==> chain == old(chain) && mmu == old(mmu)
      ensures err == 0 && create && !old(InFile(iblock, true, false)) ==>
                && iblock * fat.geo.blockSize == old(mmu) && mmu == old(mmu) + got * fat.geo.blockSize
                && |chain| == |old(chain)| + if iblock / secPerClus < |old(chain)| then 0 else 1
      ensures fat.Faultless() && err != 0 ==>
                || err == ENOSPC
                || (err == EIO && (iblock > old(mmu) / fat.geo.blockSize || iblock / secPerClus > limit + 1))
    {
      hide Owned, Sized, InFile, LiesAt, RunsOn, Sectors, Blocks, LastBlock, MappedEnd, fat.Valid;
      Shape();
      TableIsValid();
      var mapped;
      err, phys, mapped := Bmap(iblock, create, false, memory);
      TableIsValid();
      got := if mapped < maxBlocks then mapped else maxBlocks;
      if err != 0 || phys != 0 || !create {
        if err == 0 && phys != 0 { ShorterRun(iblock, create, mapped, maxBlocks); }
        return;
      }
      NextIs(iblock);
      if iblock != mmu / fat.geo.blockSize {
        BlocksAtLeast(mmu, fat.geo.blockSize);
        err := EIO;
        return;
      }
      err, phys, got := HandOut(iblock, maxBlocks, memory);
    }
  }
}
