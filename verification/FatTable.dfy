/** The file allocation table on the device: the packed bytes of the primary
    table, its backup copies, the free-cluster counter, and the operations that
    allocate, free, link and count clusters. */
module FatTable {
  import opened Sequences
  import opened Multiples
  import opened FatFormat
  import opened FatChain

  function SetOf(s: seq<nat>): set<nat> { set b | b in s }

  ghost function Below(n: nat): (r: set<nat>)
    ensures forall b: nat :: b in r <==> b < n
  {
    if n == 0 then {} else Below(n - 1) + {n - 1}
  }

  lemma BlocksBelow(n: nat, d: nat)
    requires d > 0
    ensures forall a :: 0 <= a < n ==> a / d in Below(n)
  {
    forall a | 0 <= a < n ensures a / d in Below(n) {
      QuotientAtMost(a, d, a / d);
    }
  }

  /** One block of the primary copied into a backup. */
  function CopiedBlock(copy: seq<Byte>, primary: seq<Byte>, blockSize: nat, b: nat): (r: seq<Byte>)
    requires |copy| == |primary| && blockSize > 0
    ensures |r| == |copy|
    ensures forall a :: 0 <= a < |r| ==> r[a] == if a / blockSize == b then primary[a] else copy[a]
  {
    seq(|copy|, a requires 0 <= a < |copy| => if a / blockSize == b then primary[a] else copy[a])
  }

  /** A copy agrees with the primary in the blocks bhs. */
  ghost predicate Agrees(copy: seq<Byte>, primary: seq<Byte>, blockSize: nat, bhs: seq<nat>)
    requires |copy| == |primary| && blockSize > 0
  {
    forall a :: 0 <= a < |primary| && a / blockSize in bhs ==> copy[a] == primary[a]
  }

  /** The counter moved as the number of free entries did. */
  ghost predicate CounterKept(free: int, t: Table, free': int, t': Table) {
    if free == -1 then free' == -1
    else free' >= 0 && free' - CountFree(t') == free - CountFree(t)
  }

  lemma UndoGrown(t0: Table, t: Table, c: seq<int>)
    requires Grown(t0, t, [], c)
    ensures Released(t, c) == t0 && IsChain(t, c)
  {
    assert [] + c == c;
  }

  /** t' is t with entries freed that the release from `start` frees. */
  ghost predicate PartlyFreed(t: Table, t': Table, start: int) {
    && |t'| == |t|
    && forall e :: 0 <= e < |t| ==> t'[e] == t[e] || (t'[e] == FREE && FreeFrom(t, start).0[e] == FREE)
  }

  lemma FreesOneMore(t: Table, t': Table, start: int, cluster: int)
    requires PartlyFreed(t, t', start) && FreeFrom(t, start) == FreeFrom(t', cluster)
    requires ValidIn(t', cluster) && t'[cluster] != FREE
    ensures PartlyFreed(t, t'[cluster := FREE], start)
  {
    var rest := t'[cluster := FREE];
    if t'[cluster] != EOF { FreeFromOnlyFrees(rest, t'[cluster]); }
    assert FreeFrom(t', cluster).0[cluster] == FREE;
  }

  /** t is t0 but for clusters that were free. */
  ghost predicate OnlyTook(t0: Table, t: Table, clusters: seq<int>) {
    |t| == |t0| && forall e :: 0 <= e < |t| ==> t[e] == t0[e] || (t0[e] == FREE && e in clusters)
  }

  lemma NothingTaken(t: Table)
    ensures OnlyTook(t, t, [])
  {
  }

  lemma GrownOnlyTook(t0: Table, t: Table, taken: seq<int>)
    requires Grown(t0, t, [], taken)
    ensures OnlyTook(t0, t, taken)
  {
  }

  lemma PartlyUndone(t0: Table, linked: Table, taken: seq<int>, t: Table)
    requires Grown(t0, linked, [], taken) && taken != [] && PartlyFreed(linked, t, taken[0])
    requires FreeFrom(linked, taken[0]).0 == t0
    ensures OnlyTook(t0, t, taken)
  {
    hide FreeFrom, IsChain;
    GrownOnlyTook(t0, linked, taken);
  }

  lemma TakenChanged(t0: Table, t: Table, c: seq<int>, j: nat)
    requires Grown(t0, t, [], c) && j < |c|
    ensures ValidIn(t0, c[j]) && t0[c[j]] == FREE && t[c[j]] != FREE
  {
    assert [] + c == c;
    assert t[c[j]] == Link(c, j);
  }

  // ----- the order in which allocation visits the entries -----

  /** The k-th entry of a cyclic scan that begins at `first`. */
  function Visit(first: int, k: int, max: int): int {
    if first + k < max then first + k else first + k - (max - FIRST)
  }

  /** Entry e is among the first k entries of the scan. */
  predicate Visited(first: int, k: int, max: int, e: int) {
    (first <= e < first + k && e < max) || FIRST <= e < first + k - (max - FIRST)
  }

  /** The free entries among the first k entries of the scan, in scan order. */
  function FreeIn(t: Table, first: int, k: nat): (r: seq<int>)
    requires FIRST <= first <= |t| && k <= |t| - FIRST && (k == 0 || first < |t|)
    ensures forall e :: e in r <==> Visited(first, k, |t|, e) && ValidIn(t, e) && t[e] == FREE
    ensures Distinct(r)
  {
    if k == 0 then []
    else
      var r := FreeIn(t, first, k - 1);
      var e := Visit(first, k - 1, |t|);
      if t[e] == FREE then r + [e] else r
  }

  /** A scan meets at most the free entries, and a full scan meets all of them. */
  lemma ScanBound(t: Table, first: int, k: nat)
    requires FIRST <= first <= |t| && k <= |t| - FIRST && (k == 0 || first < |t|)
    ensures |FreeIn(t, first, k)| <= CountFree(t)
    ensures k == |t| - FIRST ==> |FreeIn(t, first, k)| == CountFree(t)
  {
    var r := FreeIn(t, first, k);
    var s := set e | e in r;
    SizeOfDistinct(r);
    assert s <= FreeSet(t);
    SubsetSize(s, FreeSet(t));
    if k == |t| - FIRST {
      assert s == FreeSet(t);
    }
  }

  /** The clusters are the first free ones of the scan, after `visits` visits. */
  ghost predicate FirstFit(t: Table, first: int, visits: nat, clusters: seq<int>) {
    && FIRST <= first <= |t| && visits <= |t| - FIRST && (visits == 0 || first < |t|)
    && clusters == FreeIn(t, first, visits)
  }

  /** How far entry e is behind prev on the way round the clusters 2 to max - 1;
      from a prev beyond them the way begins at 2. */
  ghost function Behind(prev: int, max: int, e: int): int
    requires max > 2
  {
    if prev < max then (e - prev - 1) % (max - 2) else e - 2
  }

  /** The clusters are in the order of the way round behind prev, and every free
      entry that is not among them is farther than all of them. */
  ghost predicate NearestBehind(t: Table, prev: int, clusters: seq<int>) {
    && |t| > 2
    && (forall i, j :: 0 <= i < j < |clusters| ==> Behind(prev, |t|, clusters[i]) < Behind(prev, |t|, clusters[j]))
    && forall i, e :: 0 <= i < |clusters| && 2 <= e < |t| && t[e] == FREE && e !in clusters ==>
         Behind(prev, |t|, clusters[i]) < Behind(prev, |t|, e)
  }

  /** The number of the visit to entry e. */
  function Turn(first: int, max: int, e: int): int {
    if e >= first then e - first else e - first + (max - FIRST)
  }

  lemma Wrapped(x: int, m: int)
    requires -m <= x < m
    ensures x % m == if x < 0 then x + m else x
  {
    var q := x / m;
    assert x == m * q + x % m;
  }

  lemma BehindIsTurn(prev: int, max: int, e: int)
    requires FIRST <= prev && FIRST <= e < max
    ensures Behind(prev, max, e) == Turn(if prev + 1 >= max then FIRST else prev + 1, max, e)
  {
    if prev < max { Wrapped(e - prev - 1, max - 2); }
  }

  /** r are the free entries of the first k visits, in turn. */
  ghost predicate InTurn(t: Table, first: int, k: nat, r: seq<int>) {
    && (forall i :: 0 <= i < |r| ==> FIRST <= r[i] < |t| && Turn(first, |t|, r[i]) < k)
    && (forall i, j :: 0 <= i < j < |r| ==> Turn(first, |t|, r[i]) < Turn(first, |t|, r[j]))
    && forall e :: FIRST <= e < |t| && t[e] == FREE && e !in r ==> Turn(first, |t|, e) >= k
  }

  lemma TurnOfVisit(first: int, max: int, k: nat, e: int)
    requires FIRST <= first < max && k < max - FIRST && FIRST <= e < max
    ensures FIRST <= Visit(first, k, max) < max && (Turn(first, max, e) == k <==> e == Visit(first, k, max))
  {
  }

  lemma OneTurnMore(t: Table, first: int, k: nat, r: seq<int>)
    requires FIRST <= first < |t| && k < |t| - FIRST && InTurn(t, first, k, r)
    ensures var e := Visit(first, k, |t|);
            FIRST <= e < |t| && InTurn(t, first, k + 1, if t[e] == FREE then r + [e] else r)
  {
    hide Turn, Visit;
    forall e | FIRST <= e < |t|
      ensures Turn(first, |t|, e) == k <==> e == Visit(first, k, |t|)
    {
      TurnOfVisit(first, |t|, k, e);
    }
    TurnOfVisit(first, |t|, k, FIRST);
  }

  lemma NoneInTurn(t: Table, first: int)
    requires FIRST <= first < |t|
    ensures InTurn(t, first, 0, [])
  {
  }

  /** The scan takes the free entries in turn. */
  lemma {:induction false} FreeInTurn(t: Table, first: int, k: nat)
    requires FIRST <= first < |t| && k <= |t| - FIRST
    ensures InTurn(t, first, k, FreeIn(t, first, k))
  {
    hide InTurn, Turn, Visited, Visit;
    if k == 0 {
      NoneInTurn(t, first);
    } else {
      FreeInTurn(t, first, k - 1);
      OneTurnMore(t, first, k - 1, FreeIn(t, first, k - 1));
    }
  }

  lemma FirstFitIsNearest(t: Table, prev: int, visits: nat, clusters: seq<int>)
    requires FIRST <= prev && clusters != []
    requires FirstFit(t, if prev + 1 >= |t| then FIRST else prev + 1, visits, clusters)
    ensures NearestBehind(t, prev, clusters)
  {
    hide FreeIn, Turn, Behind;
    var first := if prev + 1 >= |t| then FIRST else prev + 1;
    assert visits > 0 by { if visits == 0 { NothingIn(t, first); } }
    FreeInTurn(t, first, visits);
    assert |t| > 2;
    forall e | FIRST <= e < |t| ensures Behind(prev, |t|, e) == Turn(first, |t|, e) {
      BehindIsTurn(prev, |t|, e);
    }
    assert forall i :: 0 <= i < |clusters| ==> FIRST <= clusters[i] < |t|;
  }

  lemma NothingIn(t: Table, first: int)
    requires FIRST <= first <= |t|
    ensures FreeIn(t, first, 0) == []
  {
  }

  /** The table after entry e is taken: an end mark, and a link from the last taken entry. */
  ghost function WithLink(t: Table, taken: seq<int>, e: int): Table
    requires ValidIn(t, e) && (taken != [] ==> ValidIn(t, taken[|taken| - 1]))
  {
    var t1 := t[e := EOF];
    if taken == [] then t1 else t1[taken[|taken| - 1] := e]
  }

  lemma AppendIsChain(t: Table, c: seq<int>, e: int)
    requires IsChain(t, c) && ValidIn(t, e) && e !in c && |t| <= EOF
    ensures IsChain(WithLink(t, c, e), c + [e])
  {
    ChainIsAcyclic(t, c);
    var t2, d := WithLink(t, c, e), c + [e];
    forall i | 0 <= i < |d| ensures ValidIn(t2, d[i]) && t2[d[i]] == Link(d, i) {
      if i < |c| {
        assert d[i] == c[i] && t[c[i]] == Link(c, i);
      }
    }
  }

  lemma LinkOneMore(t0: Table, t: Table, c: seq<int>, e: int)
    requires Grown(t0, t, [], c) && ValidIn(t, e) && e !in c && t[e] == FREE && |t| <= EOF
    ensures c != [] ==> ValidIn(t, c[|c| - 1])
    ensures Grown(t0, WithLink(t, c, e), [], c + [e])
  {
    assert [] + c == c && [] + (c + [e]) == c + [e];
    AppendIsChain(t, c, e);
    hide IsChain;
    assert t0[e] == FREE;
    var d := c + [e];
    assert forall i :: 0 <= i < |d| ==> ValidIn(t0, d[i]) && t0[d[i]] == FREE;
  }

  /** The blocks that hold some entry of c. */
  ghost function AllBlocks(g: Geometry, c: seq<int>): set<nat>
    requires g.Valid() && forall i :: 0 <= i < |c| ==> c[i] >= 0
  {
    if c == [] then {} else AllBlocks(g, c[..|c| - 1]) + SetOf(Direct(g, c[|c| - 1]).Blocks())
  }

  lemma {:induction false} AllBlocksHas(g: Geometry, c: seq<int>, i: nat)
    requires g.Valid() && (forall j :: 0 <= j < |c| ==> c[j] >= 0) && i < |c|
    ensures SetOf(Direct(g, c[i]).Blocks()) <= AllBlocks(g, c)
    decreases |c|
  {
    if i < |c| - 1 {
      AllBlocksHas(g, c[..|c| - 1], i);
    }
  }

  lemma AllBlocksOneMore(g: Geometry, c: seq<int>, e: int)
    requires g.Valid() && (forall j :: 0 <= j < |c| ==> c[j] >= 0) && e >= 0
    ensures forall j :: 0 <= j < |c + [e]| ==> (c + [e])[j] >= 0
    ensures AllBlocks(g, c + [e]) == AllBlocks(g, c) + SetOf(Direct(g, e).Blocks())
  {
    assert (c + [e])[..|c|] == c;
  }

  /** If every entry of c has its blocks in s, s holds all of them. */
  lemma {:induction false} AllBlocksWithin(g: Geometry, c: seq<int>, s: set<nat>)
    requires g.Valid() && (forall j :: 0 <= j < |c| ==> c[j] >= 0)
    requires forall j :: 0 <= j < |c| ==> SetOf(Direct(g, c[j]).Blocks()) <= s
    ensures AllBlocks(g, c) <= s
    decreases |c|
  {
    if c != [] {
      AllBlocksWithin(g, c[..|c| - 1], s);
    }
  }

  /** After k visits of a scan of t0: `taken` are the free entries met so far,
      linked into one chain in t, and nothing else changed. */
  ghost predicate Picked(t0: Table, t: Table, first: int, k: nat, taken: seq<int>) {
    && FIRST <= first <= |t0| && k <= |t0| - FIRST && (k == 0 || first < |t0|)
    && taken == FreeIn(t0, first, k)
    && Grown(t0, t, [], taken)
  }

  lemma PickOneMore(t0: Table, t: Table, first: int, k: nat, taken: seq<int>, e: int)
    requires Picked(t0, t, first, k, taken) && |t| <= EOF
    requires k < |t0| - FIRST && first < |t0| && e == Visit(first, k, |t0|) && t[e] == FREE
    ensures taken != [] ==> ValidIn(t, taken[|taken| - 1]) && t[taken[|taken| - 1]] == EOF
    ensures Picked(t0, WithLink(t, taken, e), first, k + 1, taken + [e])
  {
    assert e !in taken && t0[e] == FREE;
    LinkOneMore(t0, t, taken, e);
    if taken != [] {
      LastIsEnd(t0, t, taken);
    }
  }

  /** A visited entry in use changes nothing. */
  lemma PickNone(t0: Table, t: Table, first: int, k: nat, taken: seq<int>, e: int)
    requires Picked(t0, t, first, k, taken)
    requires k < |t0| - FIRST && first < |t0| && e == Visit(first, k, |t0|) && t[e] != FREE
    ensures Picked(t0, t, first, k + 1, taken)
  {
    assert e !in taken;
  }

  lemma LastIsEnd(t0: Table, t: Table, c: seq<int>)
    requires Grown(t0, t, [], c) && c != []
    ensures t[c[|c| - 1]] == EOF
  {
    assert [] + c == c;
    assert t[c[|c| - 1]] == Link(c, |c| - 1);
  }

  class Fat {
    const geo: Geometry
    /** The primary table and its backup copies. */
    var bytes: seq<Byte>
    var copies: seq<seq<Byte>>
    /** The number of free clusters, or -1 when unknown, and whether it is trusted. */
    var freeClusters: int
    var freeValid: bool
    var prevFree: int
    /** I/O faults: table blocks that cannot be read, and blocks of a backup
        copy for which no buffer can be had. */
    var unreadable: set<nat>
    var unavailable: set<(nat, nat)>
    /** What the primary table decodes to. */
    ghost var tab: Table

    ghost predicate Valid()
      reads this
    {
      && geo.Valid()
      && |bytes| == geo.fatLength * geo.blockSize
      && (forall k :: 0 <= k < |copies| ==> |copies[k]| == |bytes|)
      && |tab| == geo.maxCluster
      && (forall e :: FIRST <= e < |tab| ==> Get(geo.variant, bytes, e) == tab[e])
      && freeClusters >= -1 && prevFree >= FIRST
    }

    /** Mounting a volume: the free count and the place to search from come from
        the FSINFO sector of a FAT32 volume, if it has one, and are checked. */
    constructor (geo: Geometry, bytes: seq<Byte>, copies: seq<seq<Byte>>, fsinfo: Option<(nat, nat)>, usefree: bool)
      requires geo.Valid() && |bytes| == geo.fatLength * geo.blockSize
      requires forall k :: 0 <= k < |copies| ==> |copies[k]| == |bytes|
      ensures Valid() && this.geo == geo && this.bytes == bytes && this.copies == copies
      ensures freeClusters == if fsinfo.Some? && fsinfo.value.0 <= geo.maxCluster - 2 then fsinfo.value.0 else -1
      ensures freeValid <==> fsinfo.Some? && usefree
      ensures prevFree == if fsinfo.Some? && fsinfo.value.1 % geo.maxCluster >= 2 then fsinfo.value.1 % geo.maxCluster
                          else 2
      ensures unreadable == {} && unavailable == {}
    {
      this.geo, this.bytes, this.copies := geo, bytes, copies;
      unreadable, unavailable := {}, {};
      freeValid := fsinfo.Some? && usefree;
      freeClusters := if fsinfo.Some? && fsinfo.value.0 <= geo.maxCluster - FIRST then fsinfo.value.0 else -1;
      var next := if fsinfo.Some? then fsinfo.value.1 % geo.maxCluster else FIRST;
      prevFree := if next < FIRST then FIRST else next;
      tab := seq(geo.maxCluster,
                 e requires 0 <= e < geo.maxCluster && Inside(geo.variant, bytes, e) => Get(geo.variant, bytes, e));
    }

    ghost predicate Faultless()
      reads this
    {
      unreadable == {} && unavailable == {}
    }

    lemma NoFaults()
      ensures Faultless() ==> unreadable == {}
    {
    }

    /** The copies agree with the primary outside the blocks `dirty`. */
    ghost predicate Mirrored(dirty: set<nat>)
      requires geo.blockSize > 0 && forall k :: 0 <= k < |copies| ==> |copies[k]| == |bytes|
      reads this`bytes, this`copies
    {
      forall k, a :: 0 <= k < |copies| && 0 <= a < |bytes| && a / geo.blockSize !in dirty
                     ==> copies[k][a] == bytes[a]
    }

    /** The counter is known and right. */
    ghost predicate Exact()
      reads this
    {
      freeClusters == CountFree(tab)
    }

    /** The blocks that hold entry e. */
    ghost function BlocksOf(e: nat): set<nat>
      requires geo.Valid()
    {
      SetOf(Direct(geo, e).Blocks())
    }

    /** The cursor is placed on a valid entry. */
    ghost predicate Placed(c: Cursor)
      reads this
    {
      geo.Valid() && geo.ValidEntry(c.entry) && c == Direct(geo, c.entry)
    }

    // ----- single entries -----

    /** fat_ent_read_block */
    method ReadBlock(e: nat) returns (ok: bool, c: Cursor)
      requires Valid() && geo.ValidEntry(e)
      ensures c == Direct(geo, e)
      ensures ok <==> SetOf(c.Blocks()) !! unreadable
    {
      c := Direct(geo, e);
      var blocks := c.Blocks();
      ok := true;
      var i := 0;
      while ok && i < |blocks|
        invariant 0 <= i <= |blocks|
        invariant ok ==> forall j :: 0 <= j < i ==> blocks[j] !in unreadable
        invariant !ok ==> i < |blocks| && blocks[i] in unreadable
        decreases |blocks| - i, ok
      {
        if blocks[i] in unreadable { ok := false; } else { i := i + 1; }
      }
      if !ok { assert blocks[i] in SetOf(blocks) * unreadable; }
    }

    /** fat_ent_next: step to the next entry while the held buffers reach it. */
    method EntNext(c: Cursor) returns (more: bool, next: Cursor)
      requires Valid() && Placed(c)
      ensures next.entry == c.entry + 1
      ensures more ==> Placed(next)
    {
      var stepped := Next(geo, c);
      if stepped.0 {
        NextIsDirect(geo, c.entry);
      }
      more := stepped.0 && stepped.1.entry < geo.maxCluster;
      next := stepped.1;
    }

    /** ent_get at a cursor */
    method EntGet(c: Cursor) returns (x: int)
      requires Valid() && Placed(c)
      ensures x == tab[c.entry] && (x == EOF || 0 <= x < BadMark(geo.variant))
    {
      DirectCovers(geo, c.entry);
      assert Inside(geo.variant, bytes, c.entry);
      assert Get(geo.variant, bytes, c.entry) == tab[c.entry];
      x := GetAt(geo.variant, bytes, c.p0, c.entry % 2 == 1);
    }

    /** ent_put at a cursor */
    method EntPut(c: Cursor, value: int, ghost dirty: set<nat>)
      requires Valid() && Placed(c) && Mirrored(dirty)
      requires value == EOF || 0 <= value < BadMark(geo.variant)
      modifies this`bytes, this`tab
      ensures Valid() && tab == old(tab)[c.entry := value]
      ensures Mirrored(dirty + BlocksOf(c.entry))
    {
      DirectCovers(geo, c.entry);
      assert Inside(geo.variant, bytes, c.entry);
      ghost var was := bytes;
      bytes := PutAt(geo.variant, bytes, c.p0, c.entry % 2 == 1, value);
      tab := tab[c.entry := value];
      PutThenGet(geo.variant, was, c.entry, value);
      forall e | FIRST <= e < |tab|
        ensures Get(geo.variant, bytes, e) == tab[e]
      {
        assert Inside(geo.variant, was, e);
        if e != c.entry {
          PutKeepsOthers(geo.variant, was, c.entry, value, e);
          assert Get(geo.variant, was, e) == old(tab)[e];
        }
      }
      forall k, a | 0 <= k < |copies| && 0 <= a < |bytes| && a / geo.blockSize !in dirty + BlocksOf(c.entry)
        ensures copies[k][a] == bytes[a]
      {
        assert a / geo.blockSize !in c.Blocks();
        assert bytes[a] == was[a];
      }
    }

    lemma MirroredMore(less: set<nat>, more: set<nat>)
      requires Valid() && Mirrored(less) && less <= more
      ensures Mirrored(more)
    {
    }

    /** Nothing is promised of copies that may lag behind in every block. */
    lemma MirroredNowhere()
      requires Valid()
      ensures Mirrored(Below(|bytes|))
    {
      BlocksBelow(|bytes|, geo.blockSize);
    }

    /** fat_collect_bhs: add the cursor's buffers to the batch, each once. */
    static method Collect(bhs: seq<nat>, blocks: seq<nat>) returns (r: seq<nat>)
      requires |bhs| + |blocks| <= MAX_BUFS
      ensures SetOf(r) == SetOf(bhs) + SetOf(blocks) && |r| <= |bhs| + |blocks|
    {
      r := bhs;
      var n := 0;
      while n < |blocks|
        invariant 0 <= n <= |blocks| && |r| <= |bhs| + n
        invariant SetOf(r) == SetOf(bhs) + SetOf(blocks[..n])
      {
        var i := 0;
        while i < |r| && r[i] != blocks[n]
          invariant 0 <= i <= |r|
          invariant forall j :: 0 <= j < i ==> r[j] != blocks[n]
        {
          i := i + 1;
        }
        assert blocks[..n + 1] == blocks[..n] + [blocks[n]];
        assert SetOf(blocks[..n + 1]) == SetOf(blocks[..n]) + {blocks[n]};
        if i == |r| {
          assert i < MAX_BUFS;
          assert SetOf(r + [blocks[n]]) == SetOf(r) + {blocks[n]};
          r := r + [blocks[n]];
        } else {
          assert blocks[n] in SetOf(r);
        }
        n := n + 1;
      }
      assert blocks[..n] == blocks;
    }

    /** fat_mirror_bhs */
    method Mirror(bhs: seq<nat>, ghost dirty: set<nat>) returns (err: int)
      requires Valid() && Mirrored(dirty)
      modifies this`copies
      ensures Valid() && |copies| == |old(copies)|
      ensures err == 0 || err == ENOMEM
      ensures unavailable == {} ==> err == 0
      ensures err == 0 <==> forall k, b :: 0 <= k < |copies| && b in bhs ==> (k, b) !in unavailable
      ensures Mirrored(dirty)
      ensures err == 0 ==> Mirrored(dirty - SetOf(bhs))
    {
      err := 0;
      var k := 0;
      while k < |copies|
        invariant Valid() && Mirrored(dirty) && |copies| == |old(copies)| && 0 <= k <= |copies|
        invariant forall j :: 0 <= j < k ==> Agrees(copies[j], bytes, geo.blockSize, bhs)
        invariant forall j, b :: 0 <= j < k && b in bhs ==> (j, b) !in unavailable
      {
        var n := 0;
        while n < |bhs|
          invariant Valid() && Mirrored(dirty) && |copies| == |old(copies)| && 0 <= n <= |bhs|
          invariant forall j :: 0 <= j < k ==> Agrees(copies[j], bytes, geo.blockSize, bhs)
          invariant Agrees(copies[k], bytes, geo.blockSize, bhs[..n])
          invariant forall b :: b in bhs[..n] ==> (k, b) !in unavailable
        {
          if (k, bhs[n]) in unavailable {
            err := ENOMEM;
            return;
          }
          copies := copies[k := CopiedBlock(copies[k], bytes, geo.blockSize, bhs[n])];
          assert bhs[..n + 1] == bhs[..n] + [bhs[n]];
          n := n + 1;
        }
        assert bhs[..n] == bhs;
        k := k + 1;
      }
      forall j, a | 0 <= j < |copies| && 0 <= a < |bytes| && a / geo.blockSize !in dirty - SetOf(bhs)
        ensures copies[j][a] == bytes[a]
      {
        assert Agrees(copies[j], bytes, geo.blockSize, bhs);
      }
    }

    /** fat_ent_read: find and decode an entry. */
    method ReadEntry(e: int) returns (status: int, c: Cursor)
      requires Valid()
      ensures status >= 0 ==> geo.ValidEntry(e) && Placed(c) && c.entry == e && status == tab[e]
      ensures status < 0 ==> status == EIO && (geo.ValidEntry(e) ==> unreadable != {})
    {
      c := Cursor(0, 0, 1, 0, 1);
      if !geo.ValidEntry(e) {
        status := EIO;
        return;
      }
      var ok;
      ok, c := ReadBlock(e);
      if !ok {
        status := EIO;
        return;
      }
      status := EntGet(c);
    }

    /** fat_ent_write */
    method WriteEntry(c: Cursor, value: int) returns (err: int)
      requires Valid() && Placed(c) && Mirrored({})
      requires value == EOF || 0 <= value < BadMark(geo.variant)
      modifies this`bytes, this`tab, this`copies
      ensures Valid() && tab == old(tab)[c.entry := value]
      ensures err == 0 || err == ENOMEM
      ensures unavailable == {} ==> err == 0
      ensures err == 0 ==> Mirrored({})
    {
      EntPut(c, value, {});
      err := Mirror(c.Blocks(), BlocksOf(c.entry));
    }

    // ----- freeing -----

    /** One pass of fat_free_clusters: free the entry under the cursor, write a
        full batch out, and add the entry's buffers to the batch. */
    method FreeEntry(c: Cursor, bhs: seq<nat>, ghost lag: set<nat>)
      returns (err: int, batch: seq<nat>, ghost flushed: set<nat>)
      requires Valid() && Placed(c) && tab[c.entry] != FREE && Mirrored(lag) && |bhs| <= MAX_BUFS
      modifies this`bytes, this`tab, this`copies, this`freeClusters
      ensures Valid() && tab == old(tab)[c.entry := FREE]
      ensures freeClusters == if old(freeClusters) == -1 then -1 else old(freeClusters) + 1
      ensures err == 0 || err == ENOMEM
      ensures unavailable == {} ==> err == 0
      ensures err == 0 ==> |batch| <= MAX_BUFS && Mirrored(lag - flushed + SetOf(batch))
      ensures err == 0 ==> flushed + SetOf(batch) == SetOf(bhs) + BlocksOf(c.entry)
    {
      batch, flushed, err := bhs, {}, 0;
      EntPut(c, FREE, lag);
      if freeClusters != -1 {
        freeClusters := freeClusters + 1;
      }
      if |bhs| + |c.Blocks()| > MAX_BUFS {
        err := Mirror(bhs, lag + BlocksOf(c.entry));
        if err != 0 {
          return;
        }
        flushed := SetOf(bhs);
        batch := [];
      }
      batch := Collect(batch, c.Blocks());
      MirroredMore(lag + BlocksOf(c.entry) - flushed, lag - flushed + SetOf(batch));
    }

    /** fat_free_clusters.  `dirty` are blocks the copies may lag behind in on
        entry; `clean` are blocks the call brought up to date. */
    method FreeClusters(start: int, ghost dirty: set<nat>) returns (err: int, ghost clean: set<nat>)
      requires Valid() && Mirrored(dirty)
      modifies this`bytes, this`tab, this`copies, this`freeClusters
      ensures Valid() && |tab| == |old(tab)|
      ensures err == 0 || Faultless() ==> (tab, err) == FreeFrom(old(tab), start)
      ensures PartlyFreed(old(tab), tab, start)
      ensures CounterKept(old(freeClusters), old(tab), freeClusters, tab)
      ensures err == 0 ==> forall e :: FIRST <= e < |tab| && tab[e] != old(tab)[e] ==> BlocksOf(e) <= clean
      ensures err == 0 ==> Mirrored(dirty - clean)
    {
      var bhs: seq<nat> := [];
      var cluster := start;
      var more := true;
      clean := {};
      ghost var lag := dirty;
      while more
        invariant Valid() && |tab| == |old(tab)| && |bhs| <= MAX_BUFS
        invariant FreeFrom(old(tab), start) == if more then FreeFrom(tab, cluster) else (tab, 0)
        invariant PartlyFreed(old(tab), tab, start)
        invariant CounterKept(old(freeClusters), old(tab), freeClusters, tab)
        invariant Mirrored(lag) && lag <= dirty - clean + SetOf(bhs)
        invariant forall e :: FIRST <= e < |tab| && tab[e] != old(tab)[e] ==> BlocksOf(e) <= clean + SetOf(bhs)
        decreases UsedSet(tab), more
      {
        var next, c := ReadEntry(cluster);
        if next < 0 || next == FREE {
          return EIO, clean;
        }
        CountAfterFree(tab, cluster);
        FreesOneMore(old(tab), tab, start, cluster);
        ghost var flushed;
        err, bhs, flushed := FreeEntry(c, bhs, lag);
        if err != 0 {
          return;
        }
        clean, lag := clean + flushed, lag - flushed + SetOf(bhs);
        more, cluster := next != EOF, next;
      }
      err := Mirror(bhs, lag);
      if err == 0 {
        clean := clean + SetOf(bhs);
        MirroredMore(lag - SetOf(bhs), dirty - clean);
      }
    }

    // ----- allocating -----

    /** Where the scan of fat_alloc_clusters begins. */
    function ScanStart(): (first: int)
      reads this
    {
      if prevFree + 1 >= geo.maxCluster then FIRST else prevFree + 1
    }

    /** The state of the scan after k visits; the batch holds exactly the blocks
        of the taken entries. */
    ghost predicate Scanned(t0: Table, first: int, k: nat, taken: seq<int>, bhs: seq<nat>, prev: Cursor)
      reads this
    {
      && Valid() && |t0| == |tab|
      && Picked(t0, tab, first, k, taken)
      && (forall i :: 0 <= i < |taken| ==> taken[i] >= 0)
      && |bhs| <= 2 * |taken|
      && SetOf(bhs) == AllBlocks(geo, taken) && Mirrored(SetOf(bhs))
      && (taken != [] ==> Placed(prev) && prev.entry == taken[|taken| - 1])
    }

    /** End mark in a free entry, link to it from the previously taken one. */
    method LinkEntry(c: Cursor, linked: bool, prev: Cursor, ghost lag: set<nat>)
      requires Valid() && Placed(c) && tab[c.entry] == FREE && Mirrored(lag)
      requires linked ==> Placed(prev) && tab[prev.entry] == EOF && BlocksOf(prev.entry) <= lag
      modifies this`bytes, this`tab
      ensures Valid()
      ensures var t1 := old(tab)[c.entry := EOF];
              tab == if linked then t1[prev.entry := c.entry] else t1
      ensures CountFree(tab) == CountFree(old(tab)) - 1
      ensures Mirrored(lag + BlocksOf(c.entry))
    {
      CountAfterTake(tab, c.entry, EOF);
      EntPut(c, EOF, lag);
      if linked {
        CountAfterRelink(tab, prev.entry, c.entry);
        EntPut(prev, c.entry, lag + BlocksOf(c.entry));
        MirroredMore(lag + BlocksOf(c.entry) + BlocksOf(prev.entry), lag + BlocksOf(c.entry));
      }
    }

    /** The body of the inner loop for one free entry: link, batch, hint and counter. */
    method TakeEntry(c: Cursor, taken: seq<int>, bhs: seq<nat>, prev: Cursor,
                     ghost t0: Table, ghost first: int, ghost k: nat)
      returns (taken': seq<int>, bhs': seq<nat>)
      requires Scanned(t0, first, k, taken, bhs, prev) && k < |t0| - FIRST && first < |t0|
      requires Placed(c) && c.entry == Visit(first, k, |t0|) && tab[c.entry] == FREE
      requires 2 * |taken| + 2 <= MAX_BUFS
      modifies this`bytes, this`tab, this`prevFree, this`freeClusters
      ensures Scanned(t0, first, k + 1, taken', bhs', c) && taken' == taken + [c.entry]
      ensures old(Exact()) ==> Exact()
      ensures prevFree == c.entry
    {
      hide Mirrored, Picked, Get, AllBlocks, SetOf, Direct, CountFree;
      PickOneMore(t0, tab, first, k, taken, c.entry);
      AllBlocksOneMore(geo, taken, c.entry);
      if taken != [] {
        AllBlocksHas(geo, taken, |taken| - 1);
      }
      taken' := taken + [c.entry];
      LinkEntry(c, taken != [], prev, SetOf(bhs));
      bhs' := Collect(bhs, c.Blocks());
      prevFree := c.entry;
      if freeClusters != -1 {
        freeClusters := freeClusters - 1;
      }
    }

    /** The body of the inner loop for one entry. */
    method VisitEntry(c: Cursor, taken: seq<int>, bhs: seq<nat>, prev: Cursor,
                      ghost t0: Table, ghost first: int, ghost k: nat)
      returns (taken': seq<int>, bhs': seq<nat>, prev': Cursor)
      requires Scanned(t0, first, k, taken, bhs, prev) && k < |t0| - FIRST && first < |t0|
      requires Placed(c) && c.entry == Visit(first, k, |t0|)
      requires 2 * |taken| + 2 <= MAX_BUFS
      modifies this`bytes, this`tab, this`prevFree, this`freeClusters
      ensures Scanned(t0, first, k + 1, taken', bhs', prev')
      ensures |taken| <= |taken'| <= |taken| + 1
      ensures taken' != taken ==> prevFree == taken'[|taken'| - 1]
      ensures old(Exact()) ==> Exact()
    {
      taken', bhs', prev' := taken, bhs, prev;
      hide Mirrored, Picked, Get, AllBlocks;
      var x := EntGet(c);
      if x == FREE {
        taken', bhs' := TakeEntry(c, taken, bhs, prev, t0, first, k);
        prev' := c;
      } else {
        PickNone(t0, tab, first, k, taken, c.entry);
      }
    }

    lemma NothingScanned(prev: Cursor)
      requires Valid() && Mirrored({})
      ensures Scanned(tab, ScanStart(), 0, [], [], prev)
    {
    }

    /** Where the scan goes on after `count` - FIRST visits. */
    ghost predicate NextVisit(entry: int, first: int, count: int) {
      count < geo.maxCluster ==>
        (if entry >= geo.maxCluster then FIRST else entry) == Visit(first, count - FIRST, geo.maxCluster)
    }

    /** The inner loop of fat_alloc_clusters: visit entries from the cursor on
        while its buffers reach them. */
    method ScanBuffers(start: Cursor, nr: nat, count0: nat, taken0: seq<int>, bhs0: seq<nat>, prev0: Cursor,
                       ghost t0: Table, ghost first: int)
      returns (entry: nat, count: nat, taken: seq<int>, bhs: seq<nat>, prev: Cursor)
      requires |taken0| < nr <= MAX_BUFS / 2 && FIRST <= count0 < geo.maxCluster
      requires Scanned(t0, first, count0 - FIRST, taken0, bhs0, prev0) && first < |t0|
      requires Placed(start) && start.entry == Visit(first, count0 - FIRST, |t0|)
      modifies this`bytes, this`tab, this`prevFree, this`freeClusters
      ensures count0 < count <= geo.maxCluster && entry >= FIRST && |taken| <= nr
      ensures Scanned(t0, first, count - FIRST, taken, bhs, prev)
      ensures |taken| == nr ==> prevFree == taken[nr - 1]
      ensures NextVisit(entry, first, count)
      ensures old(Exact()) ==> Exact()
    {
      hide Mirrored, Picked, Get, AllBlocks;
      taken, bhs, prev := taken0, bhs0, prev0;
      count := count0;
      var c := start;
      var more := true;
      while more
        invariant count0 <= count <= geo.maxCluster && c.entry >= FIRST && |taken| <= nr
        invariant more ==> count < geo.maxCluster && |taken| < nr && Placed(c)
                           && c.entry == Visit(first, count - FIRST, |t0|)
        invariant !more ==> count > count0
        invariant Scanned(t0, first, count - FIRST, taken, bhs, prev)
        invariant |taken| == nr ==> prevFree == taken[nr - 1]
        invariant NextVisit(c.entry, first, count)
        invariant old(Exact()) ==> Exact()
        decreases geo.maxCluster - count, more
      {
        taken, bhs, prev := VisitEntry(c, taken, bhs, prev, t0, first, count - FIRST);
        count := count + 1;
        var within;
        within, c := EntNext(c);
        more := |taken| < nr && count < geo.maxCluster && within;
      }
      entry := c.entry;
    }

    /** The two loops of fat_alloc_clusters. */
    method Scan(nr: nat) returns (err: int, taken: seq<int>, bhs: seq<nat>, prev: Cursor, ghost visits: nat)
      requires Valid() && Mirrored({}) && 1 <= nr <= MAX_BUFS / 2
      modifies this`bytes, this`tab, this`prevFree, this`freeClusters
      ensures Scanned(old(tab), old(ScanStart()), visits, taken, bhs, prev)
      ensures |taken| <= nr
      ensures err == 0 ==> |taken| == nr && prevFree == taken[nr - 1]
      ensures err == ENOSPC ==> |taken| < nr && visits == |tab| - FIRST && CountFree(tab) == 0
      ensures err == 0 || err == ENOSPC || (err == EIO && unreadable != {})
      ensures old(Exact()) ==> Exact()
    {
      hide Mirrored, Picked, Get, AllBlocks;
      ghost var t0, first := tab, ScanStart();
      prev := Cursor(0, 0, 1, 0, 1);
      taken, bhs := [], [];
      NothingScanned(prev);
      var count: nat := FIRST;
      var entry: nat := prevFree + 1;
      while count < geo.maxCluster
        invariant FIRST <= count <= geo.maxCluster && entry >= FIRST
        invariant Scanned(t0, first, count - FIRST, taken, bhs, prev) && |taken| < nr
        invariant NextVisit(entry, first, count)
        invariant old(Exact()) ==> Exact()
        decreases geo.maxCluster - count
      {
        if entry >= geo.maxCluster {
          entry := FIRST;
        }
        var ok, c := ReadBlock(entry);
        if !ok {
          return EIO, taken, bhs, prev, count - FIRST;
        }
        entry, count, taken, bhs, prev := ScanBuffers(c, nr, count, taken, bhs, prev, t0, first);
        if |taken| == nr {
          return 0, taken, bhs, prev, count - FIRST;
        }
      }
      visits := count - FIRST;
      err := ENOSPC;
      NoneLeft(t0, tab, first, taken);
    }

    /** Once every entry was visited, no entry is free. */
    static lemma NoneLeft(t0: Table, t: Table, first: int, taken: seq<int>)
      requires |t0| >= FIRST && Picked(t0, t, first, |t0| - FIRST, taken)
      ensures CountFree(t) == 0
    {
      assert [] + taken == taken;
      forall e | FIRST <= e < |t| ensures t[e] != FREE {
        if e in taken {
          var i :| 0 <= i < |taken| && taken[i] == e;
          assert t[taken[i]] == Link(taken, i);
        }
      }
      assert FreeSet(t) == {};
    }

    /** Give the clusters of a failed allocation back. */
    method Undo(taken: seq<int>, bhs: seq<nat>, ghost t0: Table)
      requires Valid() && Grown(t0, tab, [], taken) && taken != []
      requires SetOf(bhs) == AllBlocks(geo, taken) && Mirrored(SetOf(bhs))
      modifies this`bytes, this`tab, this`copies, this`freeClusters
      ensures Valid() && |tab| == |t0|
      ensures CounterKept(old(freeClusters), old(tab), freeClusters, tab)
      ensures OnlyTook(t0, tab, taken)
      ensures Faultless() ==> tab == t0 && Mirrored({})
    {
      UndoGrown(t0, tab, taken);
      FreeFromChain(tab, taken);
      hide Grown, IsChain, Released, FreeFrom, CountFree, Get, PartlyFreed, OnlyTook;
      ghost var linked := tab;
      var err, clean := FreeClusters(taken[0], SetOf(bhs));
      PartlyUndone(t0, linked, taken, tab);
      if Faultless() {
        forall j | 0 <= j < |taken| ensures BlocksOf(taken[j]) <= clean {
          TakenChanged(t0, linked, taken, j);
        }
        AllBlocksWithin(geo, taken, clean);
        assert SetOf(bhs) - clean == {};
      }
    }

    /** The counter is trusted and rules the request out. */
    predicate Refused(nr: nat)
      reads this
    {
      freeClusters != -1 && freeValid && freeClusters < nr
    }

    /** fat_alloc_clusters */
    method AllocClusters(nr: nat) returns (err: int, clusters: seq<int>, ghost visits: nat)
      requires Valid() && Mirrored({}) && 1 <= nr <= MAX_BUFS / 2
      modifies this`bytes, this`tab, this`copies, this`prevFree, this`freeClusters, this`freeValid
      ensures Valid() && OnlyTook(old(tab), tab, clusters)
      ensures err == 0 ==> |clusters| == nr && Grown(old(tab), tab, [], clusters) && Mirrored({})
      ensures err == 0 ==> prevFree == clusters[nr - 1] && FirstFit(old(tab), old(ScanStart()), visits, clusters)
      ensures err == 0 ==> NearestBehind(old(tab), old(prevFree), clusters)
      ensures Faultless() ==> err == 0 || err == ENOSPC
      ensures old(Refused(nr)) ==> err == ENOSPC && tab == old(tab)
      ensures old(freeClusters != -1 && freeValid && freeClusters < nr) ==> err == ENOSPC && tab == old(tab)
      ensures Faultless() && err == ENOSPC ==> tab == old(tab) && Mirrored({})
      ensures Faultless() && err == ENOSPC && !old(Refused(nr)) ==> Exact() && freeValid
      ensures Faultless() && !old(Refused(nr)) ==> (err == 0 <==> nr <= CountFree(old(tab)))
      ensures Faultless() && (old(freeClusters) == -1 || !old(freeValid) || old(freeClusters) >= nr) ==>
                (err == 0 <==> nr <= CountFree(old(tab)))
      ensures Faultless() && old(Exact()) ==> (err == 0 <==> nr <= CountFree(old(tab)))
      ensures old(Exact()) ==> Exact()
    {
      hide Get, AllBlocks, CountFree, Mirrored, OnlyTook, NearestBehind;
      visits := 0;
      if Refused(nr) {
        NothingTaken(tab);
        return ENOSPC, [], 0;
      }
      var bhs, prev;
      err, clusters, bhs, prev, visits := Scan(nr);
      ScanBound(old(tab), old(ScanStart()), visits);
      assert clusters == [] ==> SetOf(bhs) == {};
      if err == ENOSPC {
        freeClusters := 0;
        freeValid := true;
      }
      if err == 0 {
        err := Mirror(bhs, SetOf(bhs));
        assert SetOf(bhs) - SetOf(bhs) == {};
      }
      GrownOnlyTook(old(tab), tab, clusters);
      if err == 0 { FirstFitIsNearest(old(tab), old(prevFree), visits, clusters); }
      if err != 0 && clusters != [] {
        Undo(clusters, bhs, old(tab));
      }
    }

    // ----- counting -----

    /** The inner loop of fat_count_free_clusters. */
    method CountBuffers(start: Cursor, free0: nat) returns (entry: nat, free: nat)
      requires Valid() && Placed(start) && free0 == |FreeIn(tab, FIRST, start.entry - FIRST)|
      ensures start.entry < entry <= geo.maxCluster
      ensures free == |FreeIn(tab, FIRST, entry - FIRST)|
    {
      hide Get;
      var c, more := start, true;
      free := free0;
      while more
        invariant start.entry <= c.entry <= geo.maxCluster
        invariant (more ==> Placed(c)) && (!more ==> start.entry < c.entry)
        invariant free == |FreeIn(tab, FIRST, c.entry - FIRST)|
        decreases geo.maxCluster - c.entry, more
      {
        var x := EntGet(c);
        if x == FREE {
          free := free + 1;
        }
        assert Visit(FIRST, c.entry - FIRST, |tab|) == c.entry;
        more, c := EntNext(c);
      }
      entry := c.entry;
    }

    /** fat_count_free_clusters */
    method CountFreeClusters() returns (err: int)
      requires Valid()
      modifies this`freeClusters, this`freeValid
      ensures Valid()
      ensures old(freeClusters != -1 && freeValid) ==> err == 0 && freeClusters == old(freeClusters) && freeValid
      ensures !old(freeClusters != -1 && freeValid) && err == 0 ==> Exact() && freeValid
      ensures err != 0 ==> err == EIO && unreadable != {}
      ensures err != 0 ==> freeClusters == old(freeClusters) && freeValid == old(freeValid)
    {
      if freeClusters != -1 && freeValid {
        return 0;
      }
      assert FreeIn(tab, FIRST, 0) == [];
      hide Get, FreeIn, CountFree;
      var free: nat := 0;
      var entry: nat := FIRST;
      while entry < geo.maxCluster
        invariant FIRST <= entry <= geo.maxCluster
        invariant Valid() && freeClusters == old(freeClusters) && freeValid == old(freeValid)
        invariant free == |FreeIn(tab, FIRST, entry - FIRST)|
      {
        var ok, c := ReadBlock(entry);
        if !ok {
          return EIO;
        }
        entry, free := CountBuffers(c, free);
      }
      ScanBound(tab, FIRST, |tab| - FIRST);
      freeClusters := free;
      freeValid := true;
      err := 0;
    }
  }
}
