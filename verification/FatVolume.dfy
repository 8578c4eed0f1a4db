/** A volume with many inodes: what every run of growing, cutting and looking up
    their chains keeps. */
module FatVolume {
  import opened Multiples
  import opened FatFormat
  import opened FatChain
  import opened ClusterCache
  import opened FatTable
  import opened FatInode
  import FileBlocks

  /** The table, the free-cluster counter, and per inode its chain and its cached runs. */
  datatype Vol = Vol(tab: Table, free: int, chains: seq<seq<int>>, caches: seq<seq<Run>>)

  ghost predicate Separate(a: seq<int>, b: seq<int>) {
    forall i, j :: 0 <= i < |a| && 0 <= j < |b| ==> a[i] != b[j]
  }

  // ----- where blocks lie -----

  /** The disk block of block s of a file with chain c. */
  ghost function DiskBlock(c: seq<int>, per: nat, dataStart: nat, s: nat): int
    requires per >= 1 && s / per < |c|
  {
    dataStart + (c[s / per] - 2) * per + s % per
  }

  lemma ClustersApart(x: int, y: int, per: nat, k: nat, m: nat)
    requires k < per && m < per
    ensures x * per + k == y * per + m <==> x == y && k == m
  {
    assert (x - y) * per == x * per - y * per;
    MultipleApart(x - y, per);
  }

  lemma PlacesApart(c: seq<int>, d: seq<int>, per: nat, i: nat, k: nat, j: nat, m: nat)
    requires k < per && m < per && i < |c| && j < |d|
    requires Separate(c, d) || (c == d && Distinct(c) && (i != j || k != m))
    ensures (c[i] - 2) * per + k != (d[j] - 2) * per + m
  {
    ClustersApart(c[i] - 2, d[j] - 2, per, k, m);
  }

  lemma SamePlace(s: nat, u: nat, per: nat)
    requires per >= 1 && s / per == u / per && s % per == u % per
    ensures s == u
  {
    QuotientOf(s, per);
    QuotientOf(u, per);
  }

  /** Different blocks of a file, and blocks of files with separate chains, never
      share a disk block. */
  lemma BlocksNeverShared(t: Table, c: seq<int>, d: seq<int>, per: nat, dataStart: nat, s: nat, u: nat)
    requires per >= 1 && IsChain(t, c) && IsChain(t, d) && |t| <= EOF && s / per < |c| && u / per < |d|
    requires Separate(c, d) || (c == d && s != u)
    ensures DiskBlock(c, per, dataStart, s) != DiskBlock(d, per, dataStart, u)
  {
    hide IsChain, Separate, Distinct;
    var i, k, j, m := s / per, s % per, u / per, u % per;
    ChainIsAcyclic(t, c);
    if i == j && k == m { SamePlace(s, u, per); }
    PlacesApart(c, d, per, i, k, j, m);
  }

  /** So it is for the blocks that inodes of one volume map. */
  lemma InodesNeverShare(f: Inode, g: Inode, s: nat, u: nat, x: nat, y: nat)
    requires f.Sized() && g.Sized() && f.fat == g.fat && f.secPerClus == g.secPerClus && f.dataStart == g.dataStart
    requires f.LiesAt(s, x) && g.LiesAt(u, y)
    requires Separate(f.chain, g.chain) || (f == g && s != u)
    ensures x != y
  {
    hide IsChain, Separate;
    BlocksNeverShared(f.fat.tab, f.chain, g.chain, f.secPerClus, f.dataStart, s, u);
  }

  /** Neighbours in a cluster are neighbours on the disk. */
  lemma NeighboursLieTogether(c: seq<int>, per: nat, dataStart: nat, s: nat)
    requires per >= 1 && s / per < |c| && s % per + 1 < per
    ensures (s + 1) / per == s / per && DiskBlock(c, per, dataStart, s + 1) == DiskBlock(c, per, dataStart, s) + 1
  {
    QuotientOf(s, per);
    QuotientIs(s + 1, per, s / per);
  }

  /** All chains are well formed and pairwise disjoint, every cached run is what
      an uncached walk finds, and the counter is exact. */
  ghost predicate Sound(v: Vol, limit: nat) {
    && FIRST <= |v.tab| <= EOF && |v.caches| == |v.chains|
    && (forall i :: 0 <= i < |v.chains| ==> IsChain(v.tab, v.chains[i]))
    && (forall i, j :: 0 <= i < j < |v.chains| ==> Separate(v.chains[i], v.chains[j]))
    && (forall i :: 0 <= i < |v.chains| ==> AllReal(v.tab, limit, Start(v.chains[i]), v.caches[i]))
    && v.free == CountFree(v.tab)
  }

  // ----- steps -----

  /** What an operation on inode i may do to the volume: it changes that inode's
      chain and cache, and leaves the cache right for its own chain. */
  ghost predicate OnlyInode(v: Vol, v': Vol, limit: nat, i: nat) {
    && i < |v.chains| == |v'.chains| && |v'.caches| == |v'.chains| && |v'.tab| == |v.tab|
    && (forall j :: 0 <= j < |v.chains| && j != i && j < |v.caches|
                    ==> v'.chains[j] == v.chains[j] && v'.caches[j] == v.caches[j])
    && AllReal(v'.tab, limit, Start(v'.chains[i]), v'.caches[i])
  }

  /** Inode i grew by the clusters `added`. */
  ghost predicate GrowStep(v: Vol, v': Vol, limit: nat, i: nat, added: seq<int>) {
    && OnlyInode(v, v', limit, i)
    && v'.chains[i] == v.chains[i] + added
    && Grown(v.tab, v'.tab, v.chains[i], added)
    && v'.free == v.free - |added|
  }

  /** Inode i was cut to its first n clusters. */
  ghost predicate CutStep(v: Vol, v': Vol, limit: nat, i: nat, n: nat) {
    && OnlyInode(v, v', limit, i)
    && n <= |v.chains[i]| && v'.chains[i] == v.chains[i][..n]
    && Cut(v.tab, v'.tab, v.chains[i], n)
    && v'.free == v.free + (|v.chains[i]| - n)
  }

  /** A lookup on inode i: only its cache changed. */
  ghost predicate LookStep(v: Vol, v': Vol, limit: nat, i: nat) {
    OnlyInode(v, v', limit, i) && v'.tab == v.tab && v'.free == v.free && v'.chains == v.chains
  }

  datatype Op = Grow(inode: nat, added: seq<int>) | Shrink(inode: nat, keep: nat) | Look(inode: nat)

  ghost predicate Step(v: Vol, op: Op, v': Vol, limit: nat) {
    match op
    case Grow(i, added) => GrowStep(v, v', limit, i, added)
    case Shrink(i, n) => CutStep(v, v', limit, i, n)
    case Look(i) => LookStep(v, v', limit, i)
  }

  /** states[k] --ops[k]--> states[k + 1] */
  ghost predicate IsRun(states: seq<Vol>, ops: seq<Op>, limit: nat) {
    |states| == |ops| + 1 && forall k :: 0 <= k < |ops| ==> Step(states[k], ops[k], states[k + 1], limit)
  }

  // ----- what a step keeps -----

  lemma ChainOutside(t: Table, c: seq<int>, e: int)
    requires IsChain(t, c) && ValidIn(t, e) && t[e] == FREE
    ensures e !in c
  {
    if e in c { UsedOnChain(t, c, e); }
  }

  /** A chain apart from the one that grew is not touched. */
  lemma OtherKeptByGrow(t: Table, t': Table, c: seq<int>, added: seq<int>, d: seq<int>)
    requires IsChain(t, c) && IsChain(t, d) && Grown(t, t', c, added) && Separate(d, c)
    ensures IsChain(t', d) && Separate(d, added)
  {
    forall i, j | 0 <= i < |d| && 0 <= j < |added| ensures d[i] != added[j] {
      ChainOutside(t, d, added[j]);
    }
    forall e | e in d ensures t'[e] == t[e] {
      var i :| 0 <= i < |d| && d[i] == e;
      assert forall j :: 0 <= j < |added| ==> d[i] != added[j];
      assert c != [] ==> d[i] != c[|c| - 1];
    }
    ChainKept(t, t', d);
  }

  /** A chain apart from the one that was cut is not touched. */
  lemma OtherKeptByCut(t: Table, t': Table, c: seq<int>, n: nat, d: seq<int>)
    requires IsChain(t, d) && Cut(t, t', c, n) && Separate(d, c)
    ensures IsChain(t', d)
  {
    forall e | e in d ensures t'[e] == t[e] {
      var i :| 0 <= i < |d| && d[i] == e;
      assert e !in c[n..];
    }
    ChainKept(t, t', d);
  }

  lemma SeparateParts(d: seq<int>, c: seq<int>, added: seq<int>)
    requires Separate(d, c) && Separate(d, added)
    ensures Separate(d, c + added) && Separate(c + added, d)
  {
    var e := c + added;
    forall i, j | 0 <= i < |d| && 0 <= j < |e| ensures d[i] != e[j] {
      if j >= |c| { assert e[j] == added[j - |c|]; }
    }
  }

  lemma SeparatePrefix(d: seq<int>, c: seq<int>, n: nat)
    requires Separate(d, c) && n <= |c|
    ensures Separate(d, c[..n]) && Separate(c[..n], d)
  {
  }

  /** Inode j's chain and cache outlive an operation on another inode. */
  lemma OtherInode(v: Vol, op: Op, v': Vol, limit: nat, j: nat)
    requires Sound(v, limit) && Step(v, op, v', limit) && j < |v.chains| && j != op.inode
    ensures IsChain(v'.tab, v'.chains[j])
    ensures AllReal(v'.tab, limit, Start(v'.chains[j]), v'.caches[j])
    ensures Separate(v'.chains[j], v'.chains[op.inode]) && Separate(v'.chains[op.inode], v'.chains[j])
  {
    var i := op.inode;
    var c, d := v.chains[i], v.chains[j];
    assert Separate(d, c) && Separate(c, d) by {
      if j < i { assert Separate(v.chains[j], v.chains[i]); } else { assert Separate(v.chains[i], v.chains[j]); }
    }
    match op {
      case Grow(_, added) =>
        OtherKeptByGrow(v.tab, v'.tab, c, added, d);
        SeparateParts(d, c, added);
      case Shrink(_, n) =>
        OtherKeptByCut(v.tab, v'.tab, c, n, d);
        SeparatePrefix(d, c, n);
      case Look(_) =>
    }
    RunsKept(v.tab, v'.tab, limit, d, d, v.caches[j]);
  }

  lemma OwnChain(v: Vol, op: Op, v': Vol, limit: nat)
    requires Sound(v, limit) && Step(v, op, v', limit)
    ensures IsChain(v'.tab, v'.chains[op.inode])
  {
  }

  lemma CutFreeSet(t: Table, t': Table, c: seq<int>, n: nat)
    requires |t| <= EOF && IsChain(t, c) && Cut(t, t', c, n)
    ensures FreeSet(t') == FreeSet(t) + (set e | e in c[n..])
    ensures forall e :: e in c[n..] ==> e !in FreeSet(t)
  {
    forall e | e in c[n..] ensures ValidIn(t, e) && t[e] != FREE {
      UsedOnChain(t, c, e);
    }
    forall e | FIRST <= e < |t| ensures t'[e] == FREE <==> t[e] == FREE || e in c[n..] {
      CutEntry(t, t', c, n, e);
    }
  }

  /** Cutting gives exactly the clusters behind the cut back. */
  lemma CutCount(t: Table, t': Table, c: seq<int>, n: nat)
    requires |t| <= EOF && IsChain(t, c) && Cut(t, t', c, n)
    ensures CountFree(t') == CountFree(t) + (|c| - n)
  {
    CutFreeSet(t, t', c, n);
    TailSize(t, c, n);
    hide IsChain, Cut;
    var s := set e | e in c[n..];
    assert s !! FreeSet(t);
  }

  lemma TailSize(t: Table, c: seq<int>, n: nat)
    requires |t| <= EOF && IsChain(t, c) && n <= |c|
    ensures |set e | e in c[n..]| == |c| - n
  {
    ChainIsAcyclic(t, c);
    assert c[..n] + c[n..] == c;
    DistinctTail(c[..n], c[n..]);
    SizeOfDistinct(c[n..]);
  }

  lemma CutEntry(t: Table, t': Table, c: seq<int>, n: nat, e: int)
    requires |t| <= EOF && IsChain(t, c) && Cut(t, t', c, n) && ValidIn(t, e)
    ensures t'[e] == FREE <==> t[e] == FREE || e in c[n..]
  {
    if e in c[n..] {
      var i :| 0 <= i < |c[n..]| && c[n..][i] == e;
      assert c[n + i] == e;
    } else if n > 0 && e == c[n - 1] {
      assert c[..n][n - 1] == e;
      UsedOnChain(t', c[..n], e);
      UsedOnChain(t, c, e);
    }
  }

  /** Every step keeps the volume sound. */
  lemma StepKeepsSound(v: Vol, op: Op, v': Vol, limit: nat)
    requires Sound(v, limit) && Step(v, op, v', limit)
    ensures Sound(v', limit)
  {
    var i := op.inode;
    OwnChain(v, op, v', limit);
    forall j | 0 <= j < |v.chains| && j != i
      ensures IsChain(v'.tab, v'.chains[j]) && AllReal(v'.tab, limit, Start(v'.chains[j]), v'.caches[j])
      ensures Separate(v'.chains[j], v'.chains[i]) && Separate(v'.chains[i], v'.chains[j])
    {
      OtherInode(v, op, v', limit, j);
    }
    match op {
      case Grow(_, added) => GrownCount(v.tab, v'.tab, v.chains[i], added);
      case Shrink(_, n) => CutCount(v.tab, v'.tab, v.chains[i], n);
      case Look(_) =>
    }
  }

  // ----- conservation -----

  predicate OnSome(chains: seq<seq<int>>, e: int) {
    exists i :: 0 <= i < |chains| && e in chains[i]
  }

  /** Used entries that belong to no inode. */
  ghost function Unowned(v: Vol): set<int> {
    set e | FIRST <= e < |v.tab| && v.tab[e] != FREE && !OnSome(v.chains, e)
  }

  ghost function OwnedSet(t: Table, chains: seq<seq<int>>): set<int> {
    set e | FIRST <= e < |t| && OnSome(chains, e)
  }

  ghost function Total(chains: seq<seq<int>>): nat {
    if chains == [] then 0 else Total(chains[..|chains| - 1]) + |chains[|chains| - 1]|
  }

  /** Disjoint chains own as many entries as their lengths add up to. */
  lemma {:induction false} OwnedCount(t: Table, chains: seq<seq<int>>)
    requires |t| <= EOF && forall i :: 0 <= i < |chains| ==> IsChain(t, chains[i])
    requires forall i, j :: 0 <= i < j < |chains| ==> Separate(chains[i], chains[j])
    ensures |OwnedSet(t, chains)| == Total(chains)
    decreases |chains|
  {
    if chains == [] {
      assert OwnedSet(t, chains) == {};
    } else {
      var rest, c := chains[..|chains| - 1], chains[|chains| - 1];
      OwnedCount(t, rest);
      ChainIsAcyclic(t, c);
      SizeOfDistinct(c);
      var s := set e | e in c;
      assert OwnedSet(t, chains) == OwnedSet(t, rest) + s by { OwnedSplit(t, chains); }
      forall e | e in s ensures e !in OwnedSet(t, rest) {
        OnlyOnLast(chains, e);
      }
    }
  }

  lemma OnlyOnLast(chains: seq<seq<int>>, e: int)
    requires chains != [] && e in chains[|chains| - 1]
    requires forall i, j :: 0 <= i < j < |chains| ==> Separate(chains[i], chains[j])
    ensures !OnSome(chains[..|chains| - 1], e)
  {
    var rest := chains[..|chains| - 1];
    forall i | 0 <= i < |rest| ensures e !in rest[i] {
      assert Separate(chains[i], chains[|chains| - 1]);
    }
  }

  lemma OwnedSplit(t: Table, chains: seq<seq<int>>)
    requires chains != [] && forall i :: 0 <= i < |chains| ==> IsChain(t, chains[i])
    ensures var n := |chains| - 1;
            OwnedSet(t, chains) == OwnedSet(t, chains[..n]) + set e | e in chains[n]
  {
    var n := |chains| - 1;
    forall e ensures e in OwnedSet(t, chains) <==> e in OwnedSet(t, chains[..n]) || e in chains[n] {
      if e in chains[n] {
        UsedOnChain(t, chains[n], e);
        assert OnSome(chains, e);
      }
      if OnSome(chains[..n], e) {
        var i :| 0 <= i < n && e in chains[..n][i];
        assert e in chains[i];
      }
      if OnSome(chains, e) && e !in chains[n] {
        var i :| 0 <= i < |chains| && e in chains[i];
        assert e in chains[..n][i];
      }
    }
  }

  /** Free clusters, clusters of the inodes and unowned entries make up the volume. */
  lemma Conservation(v: Vol, limit: nat)
    requires Sound(v, limit)
    ensures v.free + Total(v.chains) + |Unowned(v)| == |v.tab| - FIRST
  {
    OwnedCount(v.tab, v.chains);
    EntriesSize(v.tab);
    var free, owned, other := FreeSet(v.tab), OwnedSet(v.tab, v.chains), Unowned(v);
    forall e | e in owned ensures e !in free {
      var i :| 0 <= i < |v.chains| && e in v.chains[i];
      UsedOnChain(v.tab, v.chains[i], e);
    }
    assert Entries(v.tab) == free + owned + other by {
      assert forall e :: ValidIn(v.tab, e) <==> FIRST <= e < |v.tab|;
    }
    assert |free + owned| == |free| + |owned|;
    assert |free + owned + other| == |free + owned| + |other|;
  }

  /** No step makes an entry ownerless or gives an ownerless one away. */
  lemma StepKeepsUnowned(v: Vol, op: Op, v': Vol, limit: nat)
    requires Sound(v, limit) && Step(v, op, v', limit)
    ensures Unowned(v') == Unowned(v)
  {
    forall e | FIRST <= e < |v.tab|
      ensures e in Unowned(v') <==> e in Unowned(v)
    {
      UnownedEntry(v, op, v', limit, e);
    }
  }

  lemma UnownedEntry(v: Vol, op: Op, v': Vol, limit: nat, e: int)
    requires Sound(v, limit) && Step(v, op, v', limit) && ValidIn(v.tab, e)
    ensures v'.tab[e] != FREE && !OnSome(v'.chains, e) <==> v.tab[e] != FREE && !OnSome(v.chains, e)
  {
    var i := op.inode;
    var c := v.chains[i];
    SomeElse(v.chains, v'.chains, i, e);
    match op {
      case Grow(_, added) => GrownEntry(v.tab, v'.tab, c, added, e);
      case Shrink(_, n) => CutEntryOwner(v.tab, v'.tab, c, n, e);
      case Look(_) =>
    }
  }

  /** An entry whose contents a growth changes is on the chain afterwards, and
      was on it or free before. */
  lemma GrownEntry(t: Table, t': Table, c: seq<int>, added: seq<int>, e: int)
    requires Grown(t, t', c, added) && ValidIn(t, e)
    ensures e in c + added && e !in c ==> t[e] == FREE
    ensures e !in c + added ==> t'[e] == t[e] && e !in c
  {
    if e in c + added && e !in c {
      assert e in added;
    }
    if e !in c + added {
      assert forall j :: 0 <= j < |c| ==> c[j] == (c + added)[j];
      assert forall j :: 0 <= j < |added| ==> added[j] == (c + added)[|c| + j];
    }
  }

  /** An entry that leaves the chain with a cut is free afterwards. */
  lemma CutEntryOwner(t: Table, t': Table, c: seq<int>, n: nat, e: int)
    requires |t| <= EOF && IsChain(t, c) && Cut(t, t', c, n) && ValidIn(t, e)
    ensures e in c && e !in c[..n] ==> t'[e] == FREE
    ensures e in c[..n] ==> e in c
    ensures e !in c ==> t'[e] == t[e]
  {
    CutEntry(t, t', c, n, e);
    hide IsChain, Cut;
    assert c == c[..n] + c[n..];
  }

  /** Chains other than the i-th are the same, so only the i-th decides. */
  lemma SomeElse(chains: seq<seq<int>>, chains': seq<seq<int>>, i: nat, e: int)
    requires i < |chains| == |chains'| && forall j :: 0 <= j < |chains| && j != i ==> chains'[j] == chains[j]
    ensures e in chains[i] ==> OnSome(chains, e)
    ensures e in chains'[i] ==> OnSome(chains', e)
    ensures (e in chains[i] <==> e in chains'[i]) ==> (OnSome(chains, e) <==> OnSome(chains', e))
    ensures OnSome(chains, e) && e !in chains[i] ==> OnSome(chains', e)
    ensures OnSome(chains', e) && e !in chains'[i] ==> OnSome(chains, e)
  {
    if OnSome(chains, e) {
      var j :| 0 <= j < |chains| && e in chains[j];
      if j != i { assert e in chains'[j]; }
    }
    if OnSome(chains', e) {
      var j :| 0 <= j < |chains'| && e in chains'[j];
      if j != i { assert e in chains[j]; }
    }
  }

  // ----- whole runs -----

  /** In every state of every run: all chains are acyclic and pairwise disjoint,
      the free clusters, the chain lengths and one fixed set of unowned entries
      add up to the volume, and every cached lookup would find what an uncached
      walk finds. */
  lemma {:induction false} RunsStaySound(states: seq<Vol>, ops: seq<Op>, limit: nat, k: nat)
    requires IsRun(states, ops, limit) && Sound(states[0], limit) && k < |states|
    ensures Sound(states[k], limit)
    ensures forall i :: 0 <= i < |states[k].chains| ==> Distinct(states[k].chains[i])
    ensures Unowned(states[k]) == Unowned(states[0]) && |states[k].tab| == |states[0].tab|
    ensures states[k].free + Total(states[k].chains) + |Unowned(states[0])| == |states[0].tab| - FIRST
    decreases k
  {
    if k > 0 {
      RunsStaySound(states, ops, limit, k - 1);
      assert Step(states[k - 1], ops[k - 1], states[k], limit);
      StepKeepsSound(states[k - 1], ops[k - 1], states[k], limit);
      StepKeepsUnowned(states[k - 1], ops[k - 1], states[k], limit);
    }
    Conservation(states[k], limit);
    forall i | 0 <= i < |states[k].chains| ensures Distinct(states[k].chains[i]) {
      ChainIsAcyclic(states[k].tab, states[k].chains[i]);
    }
  }

  // ----- the operations are steps -----

  class Volume {
    const fat: Fat
    const inodes: seq<Inode>
    const limit: nat

    constructor (fat: Fat, inodes: seq<Inode>, limit: nat)
      ensures this.fat == fat && this.inodes == inodes && this.limit == limit
    {
      this.fat, this.inodes, this.limit := fat, inodes, limit;
    }

    /** v is what the objects hold. */
    ghost predicate Shows(v: Vol)
      reads this, fat, inodes
    {
      && v.tab == fat.tab && v.free == fat.freeClusters
      && |v.chains| == |v.caches| == |inodes|
      && (forall i :: 0 <= i < |inodes| ==> v.chains[i] == inodes[i].chain && v.caches[i] == inodes[i].lru)
    }

    ghost predicate Consistent(v: Vol)
      reads this, fat, inodes
    {
      && Shows(v) && Sound(v, limit)
      && (forall i :: 0 <= i < |inodes| ==> inodes[i].fat == fat && inodes[i].limit == limit)
      && (forall i, j :: 0 <= i < j < |inodes| ==> inodes[i] != inodes[j])
      && (forall i :: 0 <= i < |inodes| ==> inodes[i].Owned())
    }

    /** The volume after an operation on inode i. */
    ghost function After(v: Vol, i: nat): Vol
      requires i < |inodes| && |v.chains| == |v.caches| == |inodes|
      reads this, fat, inodes
    {
      Vol(fat.tab, fat.freeClusters, v.chains[i := inodes[i].chain], v.caches[i := inodes[i].lru])
    }

    /** The other inodes still own their chains after a step on inode i. */
    lemma OthersOwned(v: Vol, op: Op, v': Vol)
      requires Sound(v, limit) && Step(v, op, v', limit) && Shows(v')
      requires forall j :: 0 <= j < |inodes| ==> inodes[j].fat == fat && inodes[j].limit == limit
      requires forall i, j :: 0 <= i < j < |inodes| ==> inodes[i] != inodes[j]
      requires op.inode < |inodes| && inodes[op.inode].Owned()
      requires forall j :: 0 <= j < |inodes| && j != op.inode ==>
        var x := inodes[j];
        && x.start == Start(x.chain) && x.iBlocks == FileBlocks.Sectors(|x.chain|, x.clusterSectors)
        && x.limit <= 0x7F_FFFF && x.clusterSectors >= 1
        && x.nrCaches == |x.lru| <= MAX_CACHE && 0 < x.validId < TWO32
      ensures Consistent(v')
    {
      StepKeepsSound(v, op, v', limit);
      forall j | 0 <= j < |inodes| && j != op.inode ensures inodes[j].Owned() {
        assert v'.chains[j] == v.chains[j] && v'.caches[j] == v.caches[j];
        inodes[j].StillOwned(v.tab);
      }
    }

    /** Append a cluster to inode i: a Grow step when it succeeds, and without
        I/O faults no more than a lookup when it does not. */
    method AddCluster(i: nat, memory: bool, ghost v: Vol) returns (ret: int, ghost op: Op, ghost v': Vol)
      requires i < |inodes| && Consistent(v)
      modifies inodes[i], fat`bytes, fat`tab, fat`copies, fat`prevFree, fat`freeClusters, fat`freeValid
      ensures ret == 0 || fat.Faultless() ==> Consistent(v') && Step(v, op, v', limit) && op.inode == i
      ensures ret == 0 ==> op.Grow? && |op.added| == 1
      ensures ret != 0 ==> op.Look?
    {
      hide AllReal, IsChain, CountFree, Separate, Grown, FileBlocks.Sectors;
      ret := inodes[i].AddCluster(memory);
      op, v' := Look(i), After(v, i);
      if ret == 0 {
        op := Grow(i, inodes[i].chain[|v.chains[i]|..]);
        GrownCount(v.tab, fat.tab, v.chains[i], op.added);
      }
      if ret == 0 || fat.Faultless() {
        OthersOwned(v, op, v');
      }
    }

    /** Cut inode i to at most `skip` clusters. */
    method Truncate(i: nat, skip: nat, memory: bool, ghost v: Vol) returns (ret: int, ghost op: Op, ghost v': Vol)
      requires i < |inodes| && Consistent(v)
      modifies inodes[i], fat`bytes, fat`tab, fat`copies, fat`freeClusters
      ensures ret == 0 ==> Consistent(v') && Step(v, op, v', limit)
      ensures ret == 0 ==> op == Shrink(i, if skip < |v.chains[i]| then skip else |v.chains[i]|)
    {
      ret := inodes[i].Free(skip, memory);
      op, v' := Shrink(i, Inode.Kept(v.chains[i], skip)), After(v, i);
      if ret == 0 {
        CutCount(v.tab, fat.tab, v.chains[i], op.keep);
        OthersOwned(v, op, v');
      }
    }

    /** Look position `cluster` of inode i up. */
    method Lookup(i: nat, cluster: int, memory: bool, ghost v: Vol) returns (r: Found, ghost v': Vol)
      requires i < |inodes| && Consistent(v) && inodes[i].start != 0 && cluster >= 0
      modifies inodes[i]
      ensures Consistent(v') && Step(v, Look(i), v', limit)
      ensures r == Walk(v.tab, limit, cluster, 0, Start(v.chains[i])) || (r.status == EIO && fat.unreadable != {})
    {
      r := inodes[i].GetCluster(cluster, memory);
      v' := After(v, i);
      OthersOwned(v, Look(i), v');
    }
  }
}
