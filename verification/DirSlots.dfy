/** Adding records to a directory and removing them: the search for free slots,
    the fill of up to three blocks, new clusters at the end, and removal from
    the short name backwards and from the first slot forwards. */
module DirSlots {
  import opened Sequences
  import opened Multiples
  import opened FatFormat
  import opened FileBlocks
  import opened LongName

  const MAX_RECORDS := 21
  const DIR_LIMIT := 0x1_0000

  datatype Exit = Done | NoSpace | IoFailed

  /** What may go wrong outside the directory: the syncs of a synchronous
      directory, the allocation of clusters and their addition to the chain. */
  datatype Faults = Faults(longSync: bool, shortSync: bool, removeSync: bool, alloc: bool, chain: bool)

  function Deleted(r: Record): (d: Record)
    ensures d[0] == 0xe5 && d[1..] == r[1..]
  {
    r[0 := DELETED]
  }

  /** The records with n of them, from a position on, marked deleted. */
  function Removed(recs: seq<Record>, from: nat, n: nat): (r: seq<Record>)
    ensures |r| == |recs|
    ensures forall k :: 0 <= k < |r| ==> r[k] == if from <= k < from + n then Deleted(recs[k]) else recs[k]
  {
    seq(|recs|, k requires 0 <= k < |recs| => if from <= k < from + n then Deleted(recs[k]) else recs[k])
  }

  lemma RemovedNone(recs: seq<Record>, from: nat)
    ensures Removed(recs, from, 0) == recs
  {
  }

  lemma RemovedMore(recs: seq<Record>, from: nat, n: nat)
    requires from + n < |recs|
    ensures Removed(recs, from, n)[from + n := Deleted(Removed(recs, from, n)[from + n])] == Removed(recs, from, n + 1)
  {
  }

  function ZeroRecord(): (r: Record)
    ensures forall k :: 0 <= k < 32 ==> r[k] == 0
  {
    seq(RECORD, _ => 0)
  }

  function Zeros(n: nat): (r: seq<Record>)
    ensures |r| == n && forall k :: 0 <= k < n ==> r[k] == ZeroRecord()
  {
    seq(n, _ => ZeroRecord())
  }

  // ----- free records -----

  /** The blocks, by their first records, that records from..to - 1 lie in. */
  ghost predicate Covers(per: nat, blocks: seq<nat>, from: nat, to: nat)
    requires per > 0
  {
    && 1 <= |blocks| <= 3 && Starts(per, blocks[0]) && blocks[0] <= from < blocks[0] + per
    && (|blocks| > 1 ==> blocks[1] == blocks[0] + per)
    && (|blocks| > 2 ==> blocks[2] == blocks[1] + per)
    && blocks[|blocks| - 1] < to <= blocks[|blocks| - 1] + per
  }

  /** A run of at most 21 records never reaches a fourth block. */
  lemma CoversNext(per: nat, blocks: seq<nat>, from: nat, to: nat)
    requires per >= 16 && Covers(per, blocks, from, to) && from < to < from + MAX_RECORDS
    ensures to < blocks[|blocks| - 1] + per ==> Covers(per, blocks, from, to + 1)
    ensures to == blocks[|blocks| - 1] + per ==> |blocks| < 3 && Covers(per, blocks + [to], from, to + 1)
  {
    hide Starts;
  }

  /** The blocks of a run once one more free record, in block start, joined it. */
  lemma CoversGrown(per: nat, blocks: seq<nat>, start: nat, pos: nat, free: nat)
    requires per >= 16 && Starts(per, start) && start <= pos < start + per && free <= pos && free < MAX_RECORDS
    requires free == 0 ==> blocks == []
    requires free > 0 ==> Covers(per, blocks, pos - free, pos)
    requires free > 0 ==> start == blocks[|blocks| - 1] || start == pos == blocks[|blocks| - 1] + per
    ensures var blocks' := if free > 0 && start == blocks[|blocks| - 1] then blocks else blocks + [start];
            |blocks'| <= 3 && blocks'[|blocks'| - 1] == start && Covers(per, blocks', pos - free, pos + 1)
  {
    if free == 0 {
      assert blocks + [start] == [start];
    } else {
      hide Starts;
      CoversNext(per, blocks, pos - free, pos);
    }
  }

  ghost predicate AllFree(recs: seq<Record>, from: nat, n: nat) {
    from + n <= |recs| && forall k :: from <= k < from + n ==> IsFree(recs[k])
  }

  /** No n free records in a row end at or before a position. */
  ghost predicate NoRoom(recs: seq<Record>, n: nat, end: nat) {
    forall q :: 0 <= q && q + n <= end ==> !AllFree(recs, q, n)
  }

  lemma NoRoomAtStart(recs: seq<Record>, n: nat)
    requires n > 0
    ensures NoRoom(recs, n, 0)
  {
  }

  lemma NoRoomNext(recs: seq<Record>, n: nat, end: nat, free: nat)
    requires NoRoom(recs, n, end) && end < |recs| && free <= end && n > 0
    requires free < end ==> !IsFree(recs[end - free - 1])
    ensures !IsFree(recs[end]) || free + 1 < n ==> NoRoom(recs, n, end + 1)
  {
    hide IsFree;
    if !IsFree(recs[end]) || free + 1 < n {
      forall q | 0 <= q && q + n <= end + 1 ensures !AllFree(recs, q, n) {
      }
    }
  }

  /** Where the copy into block i of a run begins. */
  function From(blocks: seq<nat>, from: nat, i: nat): nat
    requires i < |blocks|
  {
    if i == 0 then from else blocks[i]
  }

  /** The copy into block i ends where the next begins, the last one at the end. */
  lemma CopyInBlock(per: nat, blocks: seq<nat>, from: nat, to: nat, i: nat)
    requires per >= 16 && Covers(per, blocks, from, to) && i < |blocks| && from < to
    ensures from <= From(blocks, from, i) < to
    ensures var offset := if i == 0 then from % per else 0;
            && From(blocks, from, i) == blocks[i] + offset && offset < per
            && From(blocks, from, i) + Min(per - offset, to - From(blocks, from, i)) ==
               if i + 1 < |blocks| then From(blocks, from, i + 1) else to
  {
    hide Starts;
    OffsetInBlock(per, blocks[0], from);
  }

  /** The directory after slots were added at a position: in free records, and in
      new clusters that are otherwise zero. */
  ghost predicate Added(before: seq<Record>, recs: seq<Record>, pos: nat, slots: seq<Record>) {
    && pos <= |before| <= |recs| && pos + |slots| <= |recs|
    && (forall k :: 0 <= k < |before| && !(pos <= k < pos + |slots|) ==> recs[k] == before[k])
    && (forall k :: pos <= k < pos + |slots| ==> recs[k] == slots[k - pos])
    && (forall k :: pos + |slots| <= k < |recs| && |before| <= k ==> recs[k] == ZeroRecord())
    && AllFree(before, pos, Min(|slots|, |before| - pos))
  }

  /** The directory after an addition failed: no record in use has changed. */
  ghost predicate InUseKept(before: seq<Record>, recs: seq<Record>) {
    |recs| == |before| && forall k :: 0 <= k < |recs| && !IsFree(before[k]) ==> recs[k] == before[k]
  }

  /** The directory after slots were added and removed again. */
  ghost predicate Undone(before: seq<Record>, recs: seq<Record>, pos: nat, slots: seq<Record>) {
    && pos <= |before| <= |recs| && pos + |slots| <= |recs|
    && (forall k :: 0 <= k < |before| && !(pos <= k < pos + |slots|) ==> recs[k] == before[k])
    && (forall k :: pos <= k < pos + |slots| ==> recs[k] == Deleted(slots[k - pos]))
    && (forall k :: pos + |slots| <= k < |recs| && |before| <= k ==> recs[k] == ZeroRecord())
    && SameFree(before, recs[..|before|])
  }

  lemma AddedBounds(before: seq<Record>, recs: seq<Record>, pos: nat, slots: seq<Record>)
    requires Added(before, recs, pos, slots)
    ensures pos + |slots| <= |recs|
  {
  }

  lemma KeptWhole(before: seq<Record>, recs: seq<Record>)
    requires InUseKept(before, recs)
    ensures |recs| == |before| && recs[..|recs|] == recs
  {
  }

  lemma AddedThenRemoved(before: seq<Record>, mid: seq<Record>, pos: nat, slots: seq<Record>, recs: seq<Record>)
    requires Added(before, mid, pos, slots) && |recs| == |mid|
    requires forall k :: 0 <= k < |recs| && !(pos <= k < pos + |slots|) ==> recs[k] == mid[k]
    ensures |before| <= |recs| && InUseKept(before, recs[..|before|])
    ensures recs == Removed(mid, pos, |slots|) ==> Undone(before, recs, pos, slots)
  {
    hide ZeroRecord;
  }

  /** The same records are free. */
  ghost predicate SameFree(before: seq<Record>, recs: seq<Record>) {
    |recs| == |before| && forall k :: 0 <= k < |recs| ==> (IsFree(recs[k]) <==> IsFree(before[k]))
  }

  lemma AddedInPlace(before: seq<Record>, pos: nat, slots: seq<Record>)
    requires AllFree(before, pos, |slots|)
    ensures Added(before, Splice(before, pos, slots), pos, slots)
  {
    hide IsFree;
  }

  lemma AddedAtEnd(before: seq<Record>, pos: nat, slots: seq<Record>, free: nat, n: nat)
    requires free <= |slots| && pos + free == |before| && AllFree(before, pos, free) && |slots| - free <= n
    ensures Added(before, Splice(before, pos, slots[..free]) + slots[free..] + Zeros(n - (|slots| - free)), pos, slots)
  {
    hide IsFree, ZeroRecord;
    var recs := Splice(before, pos, slots[..free]) + slots[free..] + Zeros(n - (|slots| - free));
    assert pos + free == |before|;
    forall k | pos <= k < pos + |slots| ensures recs[k] == slots[k - pos] {
      if k >= |before| { assert slots[free..][k - |before|] == slots[k - pos]; }
    }
  }

  lemma UndoKeepsInUse(before: seq<Record>, pos: nat, data: seq<Record>, n: nat)
    requires pos + |data| <= pos + n <= |before| && AllFree(before, pos, n)
    ensures InUseKept(before, Splice(before, pos, data))
    ensures forall m :: 0 <= m <= n ==> InUseKept(before, Removed(Splice(before, pos, data), pos, m))
    ensures SameFree(before, Removed(Splice(before, pos, data), pos, n))
  {
  }

  lemma NothingDone(recs: seq<Record>)
    ensures InUseKept(recs, recs) && SameFree(recs, recs)
  {
  }

  lemma ZeroedMore(filled: seq<Record>, done: nat, at: nat, per: nat)
    requires done <= at && at + per <= |filled|
    ensures Splice(filled[..done] + Zeros(at - done) + filled[at..], at, Zeros(per))
            == filled[..done] + Zeros(at + per - done) + filled[at + per..]
  {
    hide ZeroRecord;
    var x := Splice(filled[..done] + Zeros(at - done) + filled[at..], at, Zeros(per));
    var y := filled[..done] + Zeros(at + per - done) + filled[at + per..];
    assert x == y;
  }

  function Clusters(records: nat, perCluster: nat): nat
    requires perCluster > 0
  {
    (records + perCluster - 1) / perCluster
  }

  /** New slots take one cluster, or two of the smallest size. */
  lemma OneOrTwoClusters(records: nat, perCluster: nat)
    requires 1 <= records <= MAX_RECORDS && perCluster >= 16
    ensures Clusters(records, perCluster) == if records <= perCluster then 1 else 2
  {
    if records <= perCluster {
      QuotientIs(records + perCluster - 1, perCluster, 1);
    } else {
      assert 2 * perCluster == perCluster + perCluster;
      QuotientIs(records + perCluster - 1, perCluster, 2);
    }
  }

  /** How far the search is: the last `free` records before pos are free, and
      lie in these blocks; pos itself is in block start or just behind it. */
  ghost predicate Scanning(per: nat, recs: seq<Record>, n: nat, start: nat, pos: nat, free: nat, blocks: seq<nat>)
    requires per > 0
  {
    && free <= pos <= |recs| && free < n && start <= pos <= start + per && Starts(per, start) && |blocks| <= 3
    && AllFree(recs, pos - free, free) && NoRoom(recs, n, pos) && (free < pos ==> !IsFree(recs[pos - free - 1]))
    && (free == 0 ==> blocks == [])
    && (free > 0 ==> start < pos && Covers(per, blocks, pos - free, pos) && blocks[|blocks| - 1] == start)
  }

  lemma ScanBounds(per: nat, recs: seq<Record>, n: nat, start: nat, pos: nat, free: nat, blocks: seq<nat>)
    requires per > 0 && Scanning(per, recs, n, start, pos, free, blocks)
    ensures free <= pos && free < n && start <= pos <= start + per
    ensures AllFree(recs, pos - free, free) && NoRoom(recs, n, pos)
    ensures free > 0 ==> Covers(per, blocks, pos - free, pos)
  {
  }

  lemma ScanBegins(per: nat, recs: seq<Record>, n: nat)
    requires per > 0 && n > 0
    ensures Scanning(per, recs, n, 0, 0, 0, [])
  {
    hide IsFree, Starts;
    assert Starts(per, 0) by { StartOf(per, 0); }
    NoRoomAtStart(recs, n);
  }

  /** A record in use ends the run before it. */
  lemma ScanUsed(per: nat, recs: seq<Record>, n: nat, start: nat, pos: nat, free: nat, blocks: seq<nat>)
    requires per >= 16 && Scanning(per, recs, n, start, pos, free, blocks) && pos < |recs| && !IsFree(recs[pos])
    ensures var start' := if pos == start + per then start + per else start;
            Scanning(per, recs, n, start', pos + 1, 0, [])
  {
    hide IsFree, Starts, Covers;
    NoRoomNext(recs, n, pos, free);
    if pos == start + per { NextStarts(per, start); }
  }

  /** A free record makes the run longer. */
  lemma ScanFree(per: nat, recs: seq<Record>, n: nat, start: nat, pos: nat, free: nat, blocks: seq<nat>)
    requires per >= 16 && n <= MAX_RECORDS && Scanning(per, recs, n, start, pos, free, blocks)
    requires pos < |recs| && IsFree(recs[pos])
    ensures var start' := if pos == start + per then start + per else start;
            var blocks' := if free > 0 && start' == start then blocks else blocks + [start'];
            && |blocks'| <= 3 && AllFree(recs, pos - free, free + 1) && NoRoom(recs, n, pos)
            && Covers(per, blocks', pos - free, pos + 1)
            && (free + 1 < n ==> Scanning(per, recs, n, start', pos + 1, free + 1, blocks'))
  {
    hide IsFree, Starts, NoRoom;
    NoRoomNext(recs, n, pos, free);
    if pos == start + per { NextStarts(per, start); }
    var start' := if pos == start + per then start + per else start;
    CoversGrown(per, blocks, start', pos, free);
  }

  datatype Search = Found | AtEnd | TooBig

  class Directory {
    /** The records of the directory, and how many lie in a block and a cluster. */
    var recs: seq<Record>
    const per: nat
    const perCluster: nat

    ghost predicate Valid()
      reads this
    {
      16 <= per <= perCluster && Starts(per, perCluster) && Starts(per, |recs|)
    }

    constructor (recs: seq<Record>, per: nat, perCluster: nat)
      requires 16 <= per <= perCluster && Starts(per, perCluster) && Starts(per, |recs|)
      ensures Valid() && this.recs == recs && this.per == per && this.perCluster == perCluster
    {
      this.recs, this.per, this.perCluster := recs, per, perCluster;
    }

    /** The first stage of fat_add_entries: the first n free records in a row, or
        the free records at the end. */
    method FindFree(n: nat) returns (how: Search, pos: nat, free: nat, bhs: array<nat>, used: nat)
      requires Valid() && 1 <= n <= MAX_RECORDS
      ensures fresh(bhs) && bhs.Length == 3 && used <= 3 && free <= pos <= |recs|
      ensures how != TooBig ==> AllFree(recs, pos - free, free)
      ensures how != TooBig && free > 0 ==> Covers(per, bhs[..used], pos - free, pos)
      ensures how == Found ==> free == n && NoRoom(recs, n, pos - 1)
      ensures how == AtEnd ==> free < n && pos == |recs| && NoRoom(recs, n, pos)
      ensures how == TooBig ==> |recs| >= DIR_LIMIT - 1
      ensures how == AtEnd ==> |recs| < 0x1_0000
      ensures how == Found ==> pos < 0x1_0000
    {
      hide IsFree, Starts, Covers, NoRoom, AllFree, Scanning;
      bhs := new nat[3];
      pos, free, used := 0, 0, 0;
      var start: nat, prev: int := 0, -1;
      ScanBegins(per, recs, n);
      assert bhs[..0] == [];
      while pos < |recs|
        invariant pos <= |recs| && pos < DIR_LIMIT && used <= 3 && prev == if free == 0 then -1 else start
        invariant Scanning(per, recs, n, start, pos, free, bhs[..used])
      {
        ScanBounds(per, recs, n, start, pos, free, bhs[..used]);
        ghost var blocks, start0 := bhs[..used], start;
        if pos == start + per { start := start + per; }
        var de := recs[pos];
        if pos + 1 >= DIR_LIMIT { return TooBig, pos + 1, free, bhs, used; }
        if IsFree(de) {
          ScanFree(per, recs, n, start0, pos, free, blocks);
          if prev != start {
            bhs[used] := start;
            prev := start;
            used := used + 1;
            assert bhs[..used] == blocks + [start];
          }
          pos, free := pos + 1, free + 1;
          if free == n { return Found, pos, free, bhs, used; }
        } else {
          ScanUsed(per, recs, n, start0, pos, free, blocks);
          pos, prev, free, used := pos + 1, -1, 0, 0;
          assert bhs[..0] == [];
        }
      }
      ScanBounds(per, recs, n, start, pos, free, bhs[..used]);
      how := AtEnd;
    }

    /** One memcpy of slots into a block. */
    method CopyBlock(slots: seq<Record>, blocks: seq<nat>, pos: nat, free: nat, i: nat, offset: nat, done: nat,
                     ghost before: seq<Record>)
      returns (done': nat)
      requires per >= 16 && Covers(per, blocks, pos, pos + free) && i < |blocks|
      requires 0 < free <= |slots| && pos + free <= |before|
      requires offset == (if i == 0 then pos % per else 0) && pos + done == From(blocks, pos, i) && done <= free
      requires recs == Splice(before, pos, slots[..done])
      modifies this`recs
      ensures done < done' <= free && recs == Splice(before, pos, slots[..done'])
      ensures pos + done' == if i + 1 < |blocks| then From(blocks, pos, i + 1) else pos + free
    {
      hide Covers, Splice;
      CopyInBlock(per, blocks, pos, pos + free, i);
      var copy := Min(per - offset, free - done);
      SpliceMore(before, pos, slots[..free], done, done + copy);
      assert slots[..free][..done] == slots[..done] && slots[..free][done..done + copy] == slots[done..done + copy];
      assert slots[..free][..done + copy] == slots[..done + copy];
      recs := Splice(recs, blocks[i] + offset, slots[done..done + copy]);
      done' := done + copy;
    }

    /** The second stage of fat_add_entries: the block of the short name is
        written after the others. */
    method FillFree(slots: seq<Record>, pos: nat, free: nat, blocks: seq<nat>, faults: Faults)
      returns (ok: bool, ghost filled: nat)
      requires Valid() && Covers(per, blocks, pos, pos + free) && 0 < free <= |slots| && pos + free <= |recs|
      modifies this`recs
      ensures Valid() && filled <= free && recs == Splice(old(recs), pos, slots[..filled])
      ensures ok ==> filled == free
      ensures faults.longSync && faults.shortSync ==> ok
      ensures ok <==> && (|blocks| > (if free == |slots| then 1 else 0) ==> faults.longSync)
                      && (free == |slots| ==> faults.shortSync)
      ensures free == |slots| && |blocks| > 1 && !faults.longSync ==> filled < |slots|
      ensures free < |slots| ==> (ok <==> faults.longSync)
    {
      assert 1 <= |blocks| <= 3;
      hide Covers, Splice, Starts;
      ghost var before := recs;
      var long := |blocks| - if free == |slots| then 1 else 0;
      var offset, done, i := pos % per, 0, 0;
      SpliceNone(recs, pos, slots);
      while i < long
        invariant i <= long <= |blocks| <= 3 && done <= free && |recs| == |before|
        invariant recs == Splice(before, pos, slots[..done])
        invariant offset == if i == 0 then pos % per else 0
        invariant pos + done == if i < |blocks| then From(blocks, pos, i) else pos + free
      {
        done := CopyBlock(slots, blocks, pos, free, i, offset, done, before);
        offset, i := 0, i + 1;
      }
      filled := done;
      ok := long == 0 || faults.longSync;
      if ok && i < |blocks| {
        done := CopyBlock(slots, blocks, pos, free, i, offset, done, before);
        filled := done;
        ok := faults.shortSync;
      }
    }

    /** __fat_remove_entries: mark n records deleted, block by block. */
    method RemoveRange(from: nat, n: nat, sync: bool) returns (ok: bool, ghost marked: nat)
      requires Valid()
      modifies this`recs
      ensures Valid() && marked <= n && recs == Removed(old(recs), from, marked)
      ensures ok ==> marked == n
      ensures ok <==> n == 0 || (sync && from + n <= |recs|)
      ensures !sync && n > 0 ==> from % per + marked <= per
    {
      hide Starts, Removed;
      ghost var before := recs;
      RemovedNone(before, from);
      var pos, left := from, n;
      marked := 0;
      while left > 0
        invariant marked == pos - from && marked + left == n && |recs| == |before|
        invariant recs == Removed(before, from, marked) && (marked > 0 ==> sync && pos <= |recs|)
      {
        if pos >= |recs| { return false, marked; }
        StartOf(per, pos);
        var end := pos - pos % per + per;
        BlockFits(per, pos - pos % per, |recs|);
        ghost var was := left;
        while left > 0 && pos < end
          invariant marked == pos - from && marked + left == n && recs == Removed(before, from, marked)
          invariant |recs| == |before| && end <= |recs| && pos <= end
          invariant left < was || (left == was && pos < end)
        {
          RemovedMore(before, from, marked);
          recs := recs[pos := Deleted(recs[pos])];
          pos, left, marked := pos + 1, left - 1, marked + 1;
        }
        if !sync { return false, marked; }
      }
      ok := true;
    }

    /** fat_remove_entries: the short name and the slots before it in its block
        first, then the rest from the first slot on. */
    method RemoveEntries(slotOff: nat, n: nat, de: nat, stageSync: bool, sync: bool) returns (ok: bool)
      requires Valid() && 1 <= n && de == slotOff + n - 1 && de < |recs|
      modifies this`recs
      ensures Valid() && |recs| == |old(recs)|
      ensures forall k :: 0 <= k < |recs| && !(slotOff <= k <= de) ==> recs[k] == old(recs)[k]
      ensures recs[de] == Deleted(old(recs)[de])
      ensures ok == stageSync
      ensures !stageSync ==> forall k :: 0 <= k < de - de % per ==> recs[k] == old(recs)[k]
      ensures stageSync && sync ==> recs == Removed(old(recs), slotOff, n)
    {
      hide Starts;
      ghost var before := recs;
      StartOf(per, de);
      var start := de - de % per;
      var at: int, left := de, n;
      while left > 0 && at >= start
        invariant left == at - slotOff + 1 && -1 <= at <= de && left <= n && start - 1 <= at && |recs| == |before|
        invariant forall k :: 0 <= k < |recs| ==> recs[k] == if at < k <= de then Deleted(before[k]) else before[k]
      {
        recs := recs[at := Deleted(recs[at])];
        at, left := at - 1, left - 1;
      }
      if !stageSync { return false; }
      if left > 0 {
        ghost var marked;
        var done;
        done, marked := RemoveRange(slotOff, left, sync);
      }
      ok := true;
    }

    /** The last record of rest lies in this block of the cluster at base. */
    ghost predicate LastBlock(rest: seq<Record>, base: nat, block: nat)
      requires per > 0
    {
      base <= block < |rest| <= block + per && Starts(per, block - base) && block + per <= base + perCluster
    }

    /** The inner loop of fat_add_new_entries: fill one new cluster, block by block. */
    method FillCluster(bhs: array<nat>, garbage: seq<Record>, old': seq<Record>, rest: seq<Record>, base: nat, n: nat)
      returns (content: seq<Record>, block: nat, used: nat)
      requires Valid() && bhs.Length == MAX_BUFS && base < |rest| <= MAX_RECORDS
      requires base + perCluster <= |garbage| && 16 * n <= base
      requires |rest| <= |garbage| && old' == Splice(garbage, 0, rest[..base])
      modifies bhs
      ensures content == Splice(garbage, 0, rest[..Min(|rest|, base + perCluster)])
      ensures used <= 2 && 16 * used <= Min(|rest|, base + perCluster)
      ensures |rest| <= base + perCluster ==> used <= 1 && LastBlock(rest, base, block)
    {
      hide Starts, Splice;
      assert Starts(per, 0) by { StartOf(per, 0); }
      content, block, used := old', base, n;
      var end := base + perCluster;
      while block < end
        invariant base <= block <= end && Starts(per, block - base) && block < |rest| && 16 * used <= block
        invariant |content| == |garbage| && content == Splice(garbage, 0, rest[..block])
        decreases end - block
      {
        bhs[used] := block;
        var copy := Min(|rest| - block, per);
        BlockFits(per, block - base, perCluster);
        SpliceMore(garbage, 0, rest, block, block + copy);
        content := Splice(content, block, rest[block..block + copy]);
        if block + copy == |rest| { break; }
        NextStarts(per, block - base);
        used, block := used + 1, block + per;
      }
    }

    /** The rest of the last block and fat_zeroed_cluster. */
    method ZeroRest(bhs: array<nat>, filled: seq<Record>, done: nat, block: nat, used: nat, base: nat)
      returns (content: seq<Record>)
      requires Valid() && bhs.Length == MAX_BUFS && used < MAX_BUFS && base <= block <= done <= block + per
      requires Starts(per, block - base) && |filled| == base + perCluster && block + per <= |filled|
      modifies bhs
      ensures content == filled[..done] + Zeros(|filled| - done)
    {
      hide Starts, ZeroRecord;
      var n: nat, at: nat := used, block + per;
      content := Splice(filled, done, Zeros(at - done));
      NextStarts(per, block - base);
      while at < |filled|
        invariant base <= at <= |filled| && Starts(per, at - base) && n < MAX_BUFS && done <= at
        invariant content == filled[..done] + Zeros(at - done) + filled[at..]
      {
        bhs[n] := at;
        BlockFits(per, at - base, perCluster);
        ZeroedMore(filled, done, at, per);
        content := Splice(content, at, Zeros(per));
        NextStarts(per, at - base);
        n, at := n + 1, at + per;
        if n == MAX_BUFS { n := 0; }
      }
    }

    /** fat_add_new_entries on clusters that hold anything */
    method FillNew(rest: seq<Record>, garbage: seq<Record>) returns (content: seq<Record>, last: nat)
      requires Valid() && 1 <= |rest| <= MAX_RECORDS
      requires |garbage| == if |rest| <= perCluster then perCluster else perCluster + perCluster
      ensures content == rest + Zeros(|garbage| - |rest|) && last == |rest| - 1
    {
      hide Starts, ZeroRecord, Splice, Clusters, Zeros;
      var bhs := new nat[MAX_BUFS];
      var count := Clusters(|rest|, perCluster);
      OneOrTwoClusters(|rest|, perCluster);
      SpliceNone(garbage, 0, rest);
      var i: nat, base: nat, block: nat, used: nat := 0, 0, 0, 0;
      content := garbage;
      content, block, used := FillCluster(bhs, garbage, content, rest, base, used);
      i := i + 1;
      while i < count
        invariant 1 <= i <= count <= 2 && base == (if i == 1 then 0 else perCluster)
        invariant content == Splice(garbage, 0, rest[..Min(|rest|, base + perCluster)])
        invariant 16 * used <= Min(|rest|, base + perCluster)
        invariant i == count ==> used <= 1 && LastBlock(rest, base, block)
      {
        base := base + perCluster;
        content, block, used := FillCluster(bhs, garbage, content, rest, base, used);
        i := i + 1;
      }
      SplicedFirst(garbage, rest);
      content := ZeroRest(bhs, content, |rest|, block, used + 1, base);
      last := |rest| - 1;
    }

    /** The error_remove path of fat_add_entries. */
    method Undo(pos: nat, free: nat, faults: Faults, ghost before: seq<Record>, ghost data: seq<Record>, code: Exit)
      returns (r: Exit)
      requires Valid() && code != Done && AllFree(before, pos, free) && |data| <= free
      requires recs == Splice(before, pos, data)
      modifies this`recs
      ensures Valid() && r == code && InUseKept(before, recs) && |recs| == |before|
      ensures faults.removeSync ==> SameFree(before, recs)
    {
      hide Starts, IsFree, InUseKept, SameFree;
      UndoKeepsInUse(before, pos, data, free);
      RemovedNone(recs, pos);
      if free > 0 {
        ghost var marked;
        var ok;
        ok, marked := RemoveRange(pos, free, faults.removeSync);
      }
      r := code;
    }

    ghost predicate ToExtend(before: seq<Record>, now: seq<Record>, pos: nat, slots: seq<Record>, free: nat) {
      && free < |slots| && AllFree(before, pos, free) && pos + free == |before|
      && now == Splice(before, pos, slots[..free])
    }

    /** The third stage of fat_add_entries: the remaining slots go to new clusters. */
    method Extend(slots: seq<Record>, pos: nat, free: nat, garbage: seq<Record>, faults: Faults,
                  ghost before: seq<Record>)
      returns (r: Exit)
      requires Valid() && |slots| <= MAX_RECORDS && |garbage| == 2 * perCluster
      requires ToExtend(before, recs, pos, slots, free)
      modifies this`recs
      ensures Valid()
      ensures r == Done ==> Added(before, recs, pos, slots)
      ensures r == Done ==> |recs| == |before| + Sectors(Clusters(|slots| - free, perCluster), perCluster)
      ensures r != Done ==> InUseKept(before, recs) && |recs| == |before|
      ensures r != Done && faults.removeSync ==> SameFree(before, recs)
      ensures r == Done <==> faults.alloc && faults.chain
      ensures r == NoSpace <==> !faults.alloc
    {
      hide IsFree, Added, InUseKept, SameFree, Clusters;
      OneOrTwoClusters(|slots| - free, perCluster);
      if !faults.alloc {
        r := Undo(pos, free, faults, before, slots[..free], NoSpace);
        return;
      }
      var rest := slots[free..];
      var n := if |rest| <= perCluster then perCluster else perCluster + perCluster;
      var content, last := FillNew(rest, garbage[..n]);
      if !faults.chain {
        r := Undo(pos, free, faults, before, slots[..free], IoFailed);
        return;
      }
      AddedAtEnd(before, pos, slots, free, n);
      assert recs + content == Splice(before, pos, slots[..free]) + slots[free..] + Zeros(n - (|slots| - free));
      NextMultiple(per, |recs|, perCluster);
      NextMultiple(per, |recs| + perCluster, perCluster);
      recs := recs + content;
      r := Done;
    }

    /** The first two stages of fat_add_entries: search and fill.  `more` says that
        the free records end with the directory and the third stage is needed. */
    method Place(slots: seq<Record>, fixedRoot: bool, noStart: bool, faults: Faults)
      returns (r: Exit, more: bool, pos: nat, last: nat, free: nat)
      requires Valid() && 1 <= |slots| <= MAX_RECORDS
      modifies this`recs
      ensures Valid()
      ensures r == Done ==> last == pos + |slots| - 1 && free <= |slots|
      ensures r == Done ==> NoRoom(old(recs), |slots|, if last < |old(recs)| then last else |old(recs)|)
      ensures r == Done && !more ==> Added(old(recs), recs, pos, slots) && |recs| == |old(recs)|
      ensures r == Done && more ==> ToExtend(old(recs), recs, pos, slots, free) && !fixedRoot && !noStart
      ensures r == NoSpace && |old(recs)| < DIR_LIMIT - 1 ==> fixedRoot && NoRoom(old(recs), |slots|, |old(recs)|)
      ensures r == IoFailed && faults.longSync && faults.shortSync ==> noStart
      ensures r == Done && !more ==> faults.shortSync
      ensures r == Done && more && free > 0 ==> faults.longSync
      ensures r != Done ==> InUseKept(old(recs), recs) && |recs| == |old(recs)|
      ensures r != Done && faults.removeSync ==> SameFree(old(recs), recs)
    {
      hide Starts, IsFree, Covers, NoRoom, Added, InUseKept, SameFree;
      assert InUseKept(recs, recs) && SameFree(recs, recs) by { NothingDone(recs); }
      more, pos, last := false, 0, 0;
      var how, end, bhs, used;
      how, end, free, bhs, used := FindFree(|slots|);
      if how == TooBig || (how == AtEnd && fixedRoot) { return NoSpace, more, pos, last, free; }
      if how == AtEnd && noStart { return IoFailed, more, pos, last, free; }
      pos, last := end - free, end - free + |slots| - 1;
      var ok := true;
      ghost var filled := 0;
      ghost var before := recs;
      SpliceNone(recs, pos, slots);
      if free > 0 { ok, filled := FillFree(slots, pos, free, bhs[..used], faults); }
      if !ok {
        r := Undo(pos, free, faults, before, slots[..filled], IoFailed);
        return;
      }
      r, more := Done, free < |slots|;
      if !more {
        assert slots[..free] == slots;
        AddedInPlace(before, pos, slots);
      }
    }

    /** fat_add_entries, with the outcome of the allocation as a parameter. */
    method AddEntries(slots: seq<Record>, fixedRoot: bool, noStart: bool, garbage: seq<Record>, faults: Faults)
      returns (r: Exit, pos: nat, last: nat)
      requires Valid() && 1 <= |slots| <= MAX_RECORDS && |garbage| == 2 * perCluster
      modifies this`recs
      ensures Valid()
      ensures r == Done ==> Added(old(recs), recs, pos, slots) && last == pos + |slots| - 1
      ensures r == Done ==> NoRoom(old(recs), |slots|, if last < |old(recs)| then last else |old(recs)|)
      ensures r == NoSpace && |old(recs)| < DIR_LIMIT - 1 && faults.alloc ==>
                fixedRoot && NoRoom(old(recs), |slots|, |old(recs)|)
      ensures r != Done ==> InUseKept(old(recs), recs)
      ensures r != Done && faults.removeSync ==> SameFree(old(recs), recs)
      ensures (&& faults == Faults(true, true, true, true, true) && !fixedRoot && !noStart
               && |old(recs)| < DIR_LIMIT - 1) ==> r == Done
    {
      hide Starts, IsFree, NoRoom, Added, InUseKept, SameFree, Clusters;
      var more, free;
      ghost var before := recs;
      r, more, pos, last, free := Place(slots, fixedRoot, noStart, faults);
      if r == Done && more {
        r := Extend(slots, pos, free, garbage, faults, before);
      }
    }

    /** Removing what was just added, by the slot info of the addition: exactly
        the added records are marked deleted, and the directory is otherwise as
        it was, with zero records in what it grew by. */
    method AddThenRemove(slots: seq<Record>, fixedRoot: bool, noStart: bool, garbage: seq<Record>, faults: Faults,
                         stageSync: bool, sync: bool) returns (r: Exit, pos: nat)
      requires Valid() && 1 <= |slots| <= MAX_RECORDS && |garbage| == 2 * perCluster
      modifies this`recs
      ensures Valid() && InUseKept(old(recs), recs[..Min(|old(recs)|, |recs|)])
      ensures r == Done && stageSync && sync ==> Undone(old(recs), recs, pos, slots)
    {
      hide Starts, IsFree, Added, InUseKept, NoRoom, Undone;
      ghost var before := recs;
      var last;
      r, pos, last := AddEntries(slots, fixedRoot, noStart, garbage, faults);
      ghost var mid := recs;
      if r == Done {
        AddedBounds(before, mid, pos, slots);
        var ok := RemoveEntries(pos, |slots|, last, stageSync, sync);
        AddedThenRemoved(before, mid, pos, slots, recs);
      } else {
        KeptWhole(before, recs);
      }
    }
  }
}
