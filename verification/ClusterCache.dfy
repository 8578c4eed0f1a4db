/** Runs of contiguous clusters, as the per-inode cluster cache keeps them. */
module ClusterCache {
  import opened FatFormat
  import opened FatChain

  const MAX_CACHE := 8
  /** The identifier of a run that no invalidation can outdate. */
  const ALWAYS_VALID := 0

  /** Positions fcluster .. fcluster + contig of a file are at clusters dcluster .. dcluster + contig. */
  datatype Run = Run(fcluster: int, dcluster: int, contig: int)

  /** The run a walk is building, with the cache generation it comes from.
      fcluster == -1 marks the dummy run. */
  datatype Building = Building(id: nat, run: Run)

  /** The cluster the run puts at position p. */
  function At(r: Run, p: int): int { r.dcluster + (p - r.fcluster) }

  /** The cached run is what the uncached walk finds. */
  ghost predicate Real(t: Table, limit: nat, start: int, r: Run) {
    && r.fcluster >= 1 && r.contig >= 0
    && forall p :: r.fcluster <= p <= r.fcluster + r.contig ==> Reaches(t, limit, start, p, At(r, p))
  }

  ghost predicate AllReal(t: Table, limit: nat, start: int, lru: seq<Run>) {
    forall i :: 0 <= i < |lru| ==> Real(t, limit, start, lru[i])
  }

  /** The run is a contiguous piece of the chain c. */
  ghost predicate On(c: seq<int>, limit: nat, r: Run) {
    && r.fcluster >= 1 && r.contig >= 0 && r.fcluster + r.contig < |c| && r.fcluster + r.contig <= limit + 1
    && forall p :: r.fcluster <= p <= r.fcluster + r.contig ==> c[p] == At(r, p)
  }

  /** On a well-formed chain, the runs a walk can find are exactly the pieces of the chain. */
  lemma RealIffOn(t: Table, limit: nat, c: seq<int>, r: Run)
    requires IsChain(t, c) && |t| <= EOF && c != []
    ensures Real(t, limit, c[0], r) <==> On(c, limit, r)
  {
    if Real(t, limit, c[0], r) {
      var last := r.fcluster + r.contig;
      forall p | r.fcluster <= p <= last ensures p < |c| && c[p] == At(r, p) {
        ReachedIsOnChain(t, limit, c, p, At(r, p));
      }
      assert last < |c| && Reaches(t, limit, c[0], last, At(r, last));
      WalkStopsAtLimit(t, limit, last, 0, c[0]);
    }
    if On(c, limit, r) {
      forall p | r.fcluster <= p <= r.fcluster + r.contig
        ensures Reaches(t, limit, c[0], p, At(r, p))
      {
        ReachesAlong(t, limit, c, p);
      }
    }
  }

  /** An inode without clusters has no runs. */
  lemma NoRuns(t: Table, limit: nat, r: Run)
    ensures !Real(t, limit, 0, r)
  {
    if r.fcluster >= 1 && r.contig >= 0 {
      assert !Reaches(t, limit, 0, r.fcluster, At(r, r.fcluster));
    }
  }

  /** Cached runs stay right when the chain changes only behind them. */
  lemma RunsKept(t: Table, t': Table, limit: nat, c: seq<int>, c': seq<int>, lru: seq<Run>)
    requires |t| <= EOF && |t'| <= EOF && IsChain(t, c) && IsChain(t', c')
    requires AllReal(t, limit, Start(c), lru)
    requires c <= c' || (c' <= c && forall i :: 0 <= i < |lru| ==> lru[i].fcluster + lru[i].contig < |c'|)
    ensures AllReal(t', limit, Start(c'), lru)
  {
    forall i | 0 <= i < |lru| ensures Real(t', limit, Start(c'), lru[i]) {
      var r := lru[i];
      NoRuns(t, limit, r);
      RealIffOn(t, limit, c, r);
      RealIffOn(t', limit, c', r);
    }
  }

  /** A walk follows at most limit + 1 links, also round a cycle. */
  lemma {:induction false} WalkStopsAtLimit(t: Table, limit: nat, cluster: int, f: int, d: int)
    ensures Walk(t, limit, cluster, f, d).fclus <= if f <= limit then limit + 1 else f
    decreases cluster - f
  {
    if f < cluster && f <= limit && ValidIn(t, d) && t[d] != FREE && t[d] != EOF {
      WalkStopsAtLimit(t, limit, cluster, f + 1, t[d]);
    }
  }

  /** Two runs that begin at the same position begin at the same cluster. */
  lemma SameStart(t: Table, limit: nat, start: int, r: Run, q: Run)
    requires Real(t, limit, start, r) && Real(t, limit, start, q) && r.fcluster == q.fcluster
    ensures r.dcluster == q.dcluster
  {
    var f := r.fcluster;
    assert Reaches(t, limit, start, f, At(r, f)) && Reaches(t, limit, start, f, At(q, f));
  }

  /** A run grows by the next cluster when that is contiguous. */
  lemma RunGrows(t: Table, limit: nat, start: int, r: Run, d: int)
    requires Real(t, limit, start, r) && r.dcluster + r.contig + 1 == d
    requires Reaches(t, limit, start, r.fcluster + r.contig + 1, d)
    ensures Real(t, limit, start, r.(contig := r.contig + 1))
  {
    var r' := r.(contig := r.contig + 1);
    forall p | r.fcluster <= p <= r.fcluster + r'.contig ensures Reaches(t, limit, start, p, At(r', p)) {
      assert At(r', p) == At(r, p);
    }
  }

  lemma RunBegins(t: Table, limit: nat, start: int, f: int, d: int)
    requires f >= 1 && Reaches(t, limit, start, f, d)
    ensures Real(t, limit, start, Run(f, d, 0))
  {
  }

  /** The i-th run moved to the front. */
  function Front(lru: seq<Run>, i: nat): (r: seq<Run>)
    requires i < |lru|
    ensures |r| == |lru| && r[0] == lru[i] && multiset(r) == multiset(lru)
    ensures forall x :: x in r <==> x in lru
    ensures r == [lru[i]] + lru[..i] + lru[i + 1..]
  {
    assert lru == lru[..i] + [lru[i]] + lru[i + 1..];
    [lru[i]] + lru[..i] + lru[i + 1..]
  }

  /** Run i is the first of the cache that begins at a position. */
  ghost predicate FirstAt(lru: seq<Run>, fcluster: int, i: nat) {
    i < |lru| && lru[i].fcluster == fcluster && forall k :: 0 <= k < i ==> lru[k].fcluster != fcluster
  }

  function Longer(p: Run, run: Run): Run { if run.contig > p.contig then p.(contig := run.contig) else p }

  /** The cache after a run was added: the run with its start is made longer and
      most recent, or the run is new and most recent, in place of the least
      recent one if there are eight, or left out where memory is. */
  ghost predicate AddedTo(lru: seq<Run>, lru': seq<Run>, run: Run, memory: bool) {
    && (forall i: nat :: FirstAt(lru, run.fcluster, i) ==> lru' == [Longer(lru[i], run)] + lru[..i] + lru[i + 1..])
    && ((forall i :: 0 <= i < |lru| ==> lru[i].fcluster != run.fcluster) ==>
          lru' == if |lru| >= 8 then [run] + lru[..|lru| - 1] else if memory then [run] + lru else lru)
  }

  lemma NewIsAdded(lru: seq<Run>, run: Run, memory: bool)
    requires forall i :: 0 <= i < |lru| ==> lru[i].fcluster != run.fcluster
    ensures |lru| < 8 ==> AddedTo(lru, if memory then [run] + lru else lru, run, memory)
    ensures |lru| >= 8 ==> AddedTo(lru, [run] + lru[..|lru| - 1], run, memory)
  {
  }

  lemma PushedIsReal(t: Table, limit: nat, start: int, lru: seq<Run>, run: Run, n: nat)
    requires AllReal(t, limit, start, lru) && Real(t, limit, start, run) && n <= |lru|
    ensures AllReal(t, limit, start, [run] + lru[..n])
  {
    hide Real;
  }

  lemma MergedIsAdded(lru: seq<Run>, run: Run, at: nat, memory: bool)
    requires FirstAt(lru, run.fcluster, at)
    ensures AddedTo(lru, Front(lru[at := Longer(lru[at], run)], at), run, memory)
  {
    var l := lru[at := Longer(lru[at], run)];
    assert l[..at] == lru[..at] && l[at + 1..] == lru[at + 1..];
    forall i: nat | FirstAt(lru, run.fcluster, i) ensures i == at {
    }
  }

  lemma FrontIsReal(t: Table, limit: nat, start: int, lru: seq<Run>, i: nat)
    requires i < |lru| && AllReal(t, limit, start, lru)
    ensures AllReal(t, limit, start, Front(lru, i))
  {
    hide Real;
  }

  lemma RunShapes(t: Table, limit: nat, start: int, lru: seq<Run>)
    requires AllReal(t, limit, start, lru)
    ensures forall k :: 0 <= k < |lru| ==> lru[k].fcluster >= 1 && lru[k].contig >= 0
  {
    hide Reaches;
    assert forall k :: 0 <= k < |lru| ==> Real(t, limit, start, lru[k]);
  }

  // ----- generations -----

  /** The generation after an invalidation; zero is skipped. */
  function NextId(id: nat): (r: nat)
    requires 0 < id < TWO32
    ensures r == if id == 0xFFFF_FFFF then 1 else id + 1
  {
    if (id + 1) % TWO32 == ALWAYS_VALID then ALWAYS_VALID + 1 else (id + 1) % TWO32
  }

  /** The generation after k invalidations. */
  function IdAfter(id: nat, k: nat): (r: nat)
    requires 0 < id < TWO32
    ensures 0 < r < TWO32
  {
    if k == 0 then id else NextId(IdAfter(id, k - 1))
  }

  /** Is a run of this generation added to the cache? */
  predicate Accepted(id: nat, validId: nat) { id == ALWAYS_VALID || id == validId }

  /** The i-th generation of the cycle. */
  function Nth(i: nat): (r: nat)
    ensures 0 < r < TWO32
  {
    i % (TWO32 - 1) + 1
  }

  lemma NextOfNth(i: nat)
    ensures NextId(Nth(i)) == Nth(i + 1)
  {
    var q, r := i / (TWO32 - 1), i % (TWO32 - 1);
    assert i == (TWO32 - 1) * q + r;
    if r == TWO32 - 2 {
      assert i + 1 == (TWO32 - 1) * (q + 1);
    } else {
      assert i + 1 == (TWO32 - 1) * q + (r + 1);
    }
  }

  lemma {:induction false} IdCycles(id: nat, k: nat)
    requires 0 < id < TWO32
    ensures IdAfter(id, k) == Nth(id - 1 + k)
  {
    if k > 0 {
      hide Nth, NextId;
      IdCycles(id, k - 1);
      NextOfNth(id - 1 + (k - 1));
    }
  }

  lemma NthReturns(i: nat, k: nat)
    ensures Nth(i + k) == Nth(i) <==> k % (TWO32 - 1) == 0
  {
    var m := TWO32 - 1;
    var p, q, r := i / m, (i + k) / m, k / m;
    assert i == m * p + i % m && i + k == m * q + (i + k) % m && k == m * r + k % m;
  }

  /** A run that a walk took over from the cache is refused after any number of
      invalidations in between, unless the counter came round; a run the walk
      began itself is never refused. */
  lemma StaleRunRefused(id: nat, k: nat, validId: nat)
    requires 0 < id < TWO32
    ensures Accepted(id, IdAfter(id, k)) <==> k % (TWO32 - 1) == 0
    ensures Accepted(ALWAYS_VALID, validId)
  {
    IdCycles(id, k);
    NthReturns(id - 1, k);
  }
}
