/** Cluster chains in a decoded table: the plain chain walk that every cached
    lookup must agree with, the release of a chain, and the effect of growing
    and cutting a chain.  A table maps an entry number to the value the entry
    decodes to; entries below FIRST are not used. */
module FatChain {
  import opened FatFormat

  type Table = seq<int>

  const EIO := -5
  const ENOSPC := -28
  const ENOMEM := -12

  predicate ValidIn(t: Table, e: int) { FIRST <= e < |t| }

  // ----- chains -----

  /** What the entry of the i-th cluster of a chain holds. */
  function Link(c: seq<int>, i: nat): int
    requires i < |c|
  {
    if i + 1 < |c| then c[i + 1] else EOF
  }

  /** c lists the clusters of a chain that ends in EOF. */
  ghost predicate IsChain(t: Table, c: seq<int>) {
    && (forall i :: 0 <= i < |c| ==> ValidIn(t, c[i]))
    && (forall i :: 0 <= i < |c| ==> t[c[i]] == Link(c, i))
  }

  function Start(c: seq<int>): int { if c == [] then 0 else c[0] }

  ghost predicate Distinct(c: seq<int>) {
    forall i, j :: 0 <= i < j < |c| ==> c[i] != c[j]
  }

  /** A chain that ends in EOF cannot meet itself. */
  lemma ChainIsAcyclic(t: Table, c: seq<int>)
    requires IsChain(t, c) && |t| <= EOF
    ensures Distinct(c)
  {
    forall i, j | 0 <= i < j < |c| ensures c[i] != c[j] {
      NoRepeat(t, c, i, j);
    }
  }

  lemma {:induction false} NoRepeat(t: Table, c: seq<int>, i: nat, j: nat)
    requires IsChain(t, c) && |t| <= EOF && i < j < |c|
    ensures c[i] != c[j]
    decreases |c| - j
  {
    if j + 1 < |c| {
      NoRepeat(t, c, i + 1, j + 1);
    }
  }

  // ----- free entries -----

  function Entries(t: Table): (r: set<int>) { set e | FIRST <= e < |t| && ValidIn(t, e) }

  function FreeSet(t: Table): (r: set<int>) { set e | FIRST <= e < |t| && t[e] == FREE }

  function UsedSet(t: Table): (r: set<int>) { set e | FIRST <= e < |t| && t[e] != FREE }

  function CountFree(t: Table): nat { |FreeSet(t)| }

  lemma CountAfterFree(t: Table, e: int)
    requires ValidIn(t, e) && t[e] != FREE
    ensures CountFree(t[e := FREE]) == CountFree(t) + 1
    ensures UsedSet(t[e := FREE]) < UsedSet(t)
  {
    assert FreeSet(t[e := FREE]) == FreeSet(t) + {e};
    assert UsedSet(t[e := FREE]) == UsedSet(t) - {e};
    assert e in UsedSet(t);
  }

  lemma CountAfterTake(t: Table, e: int, x: int)
    requires ValidIn(t, e) && t[e] == FREE && x != FREE
    ensures CountFree(t[e := x]) == CountFree(t) - 1
  {
    assert FreeSet(t[e := x]) == FreeSet(t) - {e};
    assert e in FreeSet(t);
  }

  lemma CountAfterRelink(t: Table, e: int, x: int)
    requires ValidIn(t, e) && t[e] != FREE && x != FREE
    ensures CountFree(t[e := x]) == CountFree(t)
  {
    assert FreeSet(t[e := x]) == FreeSet(t);
  }

  // ----- sizes -----

  lemma {:induction false} SizeOfDistinct(c: seq<int>)
    requires Distinct(c)
    ensures |set e | e in c| == |c|
    decreases |c|
  {
    if c != [] {
      var d := c[..|c| - 1];
      SizeOfDistinct(d);
      assert (set e | e in c) == (set e | e in d) + {c[|c| - 1]};
    }
  }

  lemma SubsetSize(a: set<int>, b: set<int>)
    requires a <= b
    ensures |a| <= |b|
  {
    assert b == a + (b - a);
  }

  lemma {:induction false} EntriesSize(t: Table)
    requires |t| >= FIRST
    ensures |Entries(t)| == |t| - FIRST
    decreases |t|
  {
    if |t| == FIRST {
      assert Entries(t) == {};
    } else {
      var s := t[..|t| - 1];
      EntriesSize(s);
      assert Entries(t) == Entries(s) + {|t| - 1} by {
        forall e ensures e in Entries(t) <==> e in Entries(s) + {|t| - 1} {
          assert ValidIn(t, e) <==> ValidIn(s, e) || e == |t| - 1;
        }
      }
      assert |t| - 1 !in Entries(s);
    }
  }

  /** A chain has no more clusters than the table has valid entries. */
  lemma ChainFits(t: Table, c: seq<int>)
    requires IsChain(t, c) && FIRST <= |t| <= EOF
    ensures |c| <= |t| - FIRST
  {
    ChainIsAcyclic(t, c);
    SizeOfDistinct(c);
    EntriesSize(t);
    SubsetSize((set e | e in c), Entries(t));
  }

  // ----- releasing a chain -----

  /** fat_free_clusters on a table without I/O faults: the table left behind and
      the status.  It ends on any contents, since each pass frees a used entry. */
  function FreeFrom(t: Table, cluster: int): (r: (Table, int))
    ensures |r.0| == |t|
    decreases UsedSet(t)
  {
    if !ValidIn(t, cluster) || t[cluster] == FREE then (t, EIO)
    else
      CountAfterFree(t, cluster);
      var rest := t[cluster := FREE];
      if t[cluster] == EOF then (rest, 0) else FreeFrom(rest, t[cluster])
  }

  /** t with the clusters of c free. */
  function Released(t: Table, c: seq<int>): (r: Table)
    ensures |r| == |t|
    ensures forall e :: 0 <= e < |t| ==> r[e] == if e in c then FREE else t[e]
  {
    seq(|t|, e requires 0 <= e < |t| => if e in c then FREE else t[e])
  }

  /** On a chain, the release frees exactly the chain. */
  lemma {:induction false} FreeFromChain(t: Table, c: seq<int>)
    requires IsChain(t, c) && |t| <= EOF && c != []
    ensures FreeFrom(t, c[0]) == (Released(t, c), 0)
    decreases |c|
  {
    ChainIsAcyclic(t, c);
    var rest := t[c[0] := FREE];
    if |c| == 1 {
      assert rest == Released(t, c);
    } else {
      ChainTail(t, c);
      FreeFromChain(rest, c[1..]);
      assert Released(rest, c[1..]) == Released(t, c) by {
        assert c == [c[0]] + c[1..];
      }
    }
  }

  lemma ChainTail(t: Table, c: seq<int>)
    requires IsChain(t, c) && Distinct(c) && |c| > 1
    ensures IsChain(t[c[0] := FREE], c[1..])
  {
    var d := c[1..];
    forall i | 0 <= i < |d|
      ensures t[c[0] := FREE][d[i]] == Link(d, i)
    {
      assert d[i] == c[i + 1] != c[0];
    }
  }

  /** Whatever the contents, the release only turns used entries free, and it
      frees the cluster it was given or fails without any change. */
  lemma {:induction false} FreeFromOnlyFrees(t: Table, cluster: int)
    ensures var r := FreeFrom(t, cluster);
            && (forall e :: 0 <= e < |t| ==> r.0[e] == t[e] || r.0[e] == FREE)
            && (r.0 == t <==> !ValidIn(t, cluster) || t[cluster] == FREE)
            && (r.1 == 0 || r.1 == EIO)
    decreases UsedSet(t)
  {
    if ValidIn(t, cluster) && t[cluster] != FREE {
      var rest := t[cluster := FREE];
      CountAfterFree(t, cluster);
      if t[cluster] != EOF {
        FreeFromOnlyFrees(rest, t[cluster]);
      }
      assert FreeFrom(t, cluster).0[cluster] == FREE;
    }
  }

  // ----- walking a chain -----

  datatype Found = Found(status: int, fclus: int, dclus: int)

  /** The uncached walk of fat_get_cluster towards position `cluster`, from
      cluster d at position f. */
  function Walk(t: Table, limit: nat, cluster: int, f: int, d: int): (r: Found)
    ensures r.status == 0 <==> r.fclus >= cluster
    ensures f <= r.fclus && (f <= cluster ==> r.fclus <= cluster)
    decreases cluster - f
  {
    if f >= cluster then Found(0, f, d)
    else if f > limit then Found(EIO, f, d)
    else if !ValidIn(t, d) || t[d] == FREE then Found(EIO, f, d)
    else if t[d] == EOF then Found(EOF, f, d)
    else Walk(t, limit, cluster, f + 1, t[d])
  }

  /** Position p of the chain that starts at `start` is reached by the walk, at cluster d. */
  ghost predicate Reaches(t: Table, limit: nat, start: int, p: int, d: int) {
    0 <= p && Walk(t, limit, p, 0, start) == Found(0, p, d)
  }

  /** A walk may start at any position it would reach. */
  lemma {:induction false} WalkFrom(t: Table, limit: nat, p: int, cluster: int, f: int, d: int)
    requires f <= p <= cluster && Walk(t, limit, p, f, d).status == 0
    ensures Walk(t, limit, cluster, f, d) == Walk(t, limit, cluster, p, Walk(t, limit, p, f, d).dclus)
    decreases p - f
  {
    if f < p {
      WalkFrom(t, limit, p, cluster, f + 1, t[d]);
    }
  }

  /** One more step of the walk. */
  lemma ReachesNext(t: Table, limit: nat, start: int, p: int, d: int)
    requires Reaches(t, limit, start, p, d)
    requires p <= limit && ValidIn(t, d) && t[d] != FREE && t[d] != EOF
    ensures Reaches(t, limit, start, p + 1, t[d])
  {
    WalkFrom(t, limit, p, p + 1, 0, start);
  }

  lemma {:induction false} WalkAlong(t: Table, limit: nat, c: seq<int>, i: nat, p: nat)
    requires IsChain(t, c) && |t| <= EOF && i <= p < |c| && p <= limit + 1
    ensures Walk(t, limit, p, i, c[i]) == Found(0, p, c[p])
    decreases p - i
  {
    if i < p {
      WalkAlong(t, limit, c, i + 1, p);
    }
  }

  /** On a chain, position p is the p-th cluster. */
  lemma ReachesAlong(t: Table, limit: nat, c: seq<int>, p: nat)
    requires IsChain(t, c) && |t| <= EOF && p < |c| && p <= limit + 1
    ensures Reaches(t, limit, c[0], p, c[p])
  {
    WalkAlong(t, limit, c, 0, p);
  }

  /** On a chain, the walk towards any position past the end finds the last
      cluster and EOF, exactly when the chain is not longer than the loop guard allows. */
  lemma WalkToEnd(t: Table, limit: nat, c: seq<int>, cluster: int)
    requires IsChain(t, c) && |t| <= EOF && c != [] && cluster >= |c|
    ensures |c| <= limit + 1 ==> Walk(t, limit, cluster, 0, c[0]) == Found(EOF, |c| - 1, c[|c| - 1])
    ensures |c| > limit + 1 && cluster > limit + 1 ==> Walk(t, limit, cluster, 0, c[0]).status == EIO
  {
    var p := if |c| <= limit + 1 then |c| - 1 else limit + 1;
    WalkAlong(t, limit, c, 0, p);
    WalkFrom(t, limit, p, cluster, 0, c[0]);
  }

  /** On a chain, the walk finds a position exactly when the loop guard allows it. */
  lemma WalkToPosition(t: Table, limit: nat, c: seq<int>, p: nat)
    requires IsChain(t, c) && |t| <= EOF && p < |c|
    ensures p <= limit + 1 ==> Walk(t, limit, p, 0, c[0]) == Found(0, p, c[p])
    ensures p > limit + 1 ==> Walk(t, limit, p, 0, c[0]).status == EIO
  {
    var q := if p <= limit + 1 then p else limit + 1;
    WalkAlong(t, limit, c, 0, q);
    WalkFrom(t, limit, q, p, 0, c[0]);
  }

  /** A position reached before the end of a chain is a position of the chain. */
  lemma ReachedIsOnChain(t: Table, limit: nat, c: seq<int>, p: int, d: int)
    requires IsChain(t, c) && |t| <= EOF && c != [] && Reaches(t, limit, c[0], p, d)
    ensures p < |c| && d == c[p]
  {
    var q := if p < |c| then p else |c| - 1;
    if q <= limit + 1 {
      WalkAlong(t, limit, c, 0, q);
      WalkFrom(t, limit, q, p, 0, c[0]);
    } else {
      WalkAlong(t, limit, c, 0, limit + 1);
      WalkFrom(t, limit, limit + 1, p, 0, c[0]);
    }
  }

  // ----- growing and cutting a chain -----

  /** t' is t with the free clusters `added` linked behind the chain c. */
  ghost predicate Grown(t: Table, t': Table, c: seq<int>, added: seq<int>) {
    && |t'| == |t|
    && (forall i :: 0 <= i < |added| ==> ValidIn(t, added[i]) && t[added[i]] == FREE)
    && IsChain(t', c + added)
    && forall e :: 0 <= e < |t| && e !in added && (c == [] || e != c[|c| - 1]) ==> t'[e] == t[e]
  }

  /** t' is t with the chain c cut after its first n clusters and the rest freed. */
  ghost predicate Cut(t: Table, t': Table, c: seq<int>, n: nat) {
    && n <= |c| && |t'| == |t|
    && IsChain(t', c[..n])
    && (forall i :: n <= i < |c| ==> 0 <= c[i] < |t'| && t'[c[i]] == FREE)
    && forall e :: 0 <= e < |t| && e !in c[n..] && (n == 0 || e != c[n - 1]) ==> t'[e] == t[e]
  }

  lemma JoinChains(t: Table, c: seq<int>, d: seq<int>)
    requires |t| <= EOF && IsChain(t, c) && IsChain(t, d) && c != [] && d != [] && c[|c| - 1] !in d
    ensures IsChain(t[c[|c| - 1] := d[0]], c + d)
  {
    ChainIsAcyclic(t, c);
    var t' := t[c[|c| - 1] := d[0]];
    var e := c + d;
    forall i | 0 <= i < |e| ensures ValidIn(t', e[i]) && t'[e[i]] == Link(e, i) {
      if i < |c| {
        assert e[i] == c[i] && t[c[i]] == Link(c, i);
      } else {
        assert e[i] == d[i - |c|] && t[d[i - |c|]] == Link(d, i - |c|);
      }
    }
  }

  /** Linking the last cluster of c to freshly linked clusters grows c. */
  lemma Join(t0: Table, t: Table, c: seq<int>, added: seq<int>)
    requires |t| <= EOF && IsChain(t0, c) && IsChain(t, c) && c != [] && added != []
    requires Grown(t0, t, [], added)
    ensures Grown(t0, t[c[|c| - 1] := added[0]], c, added)
  {
    assert [] + added == added;
    assert t0[c[|c| - 1]] == Link(c, |c| - 1);
    JoinChains(t, c, added);
  }

  /** Ending c after n clusters leaves two chains. */
  lemma Split(t: Table, c: seq<int>, n: nat)
    requires |t| <= EOF && IsChain(t, c) && 0 < n < |c|
    ensures IsChain(t[c[n - 1] := EOF], c[..n]) && IsChain(t[c[n - 1] := EOF], c[n..])
  {
    ChainIsAcyclic(t, c);
    var t' := t[c[n - 1] := EOF];
    var a, b := c[..n], c[n..];
    forall i | 0 <= i < |a| ensures ValidIn(t', a[i]) && t'[a[i]] == Link(a, i) {
      assert a[i] == c[i] && t[c[i]] == Link(c, i);
    }
    forall i | 0 <= i < |b| ensures ValidIn(t', b[i]) && t'[b[i]] == Link(b, i) {
      assert b[i] == c[n + i] && t[c[n + i]] == Link(c, n + i);
    }
  }

  /** Releasing clusters that are not on a chain keeps it. */
  lemma KeptByRelease(t: Table, c: seq<int>, d: seq<int>)
    requires IsChain(t, c) && forall i :: 0 <= i < |c| ==> c[i] !in d
    ensures IsChain(Released(t, d), c)
  {
    forall i | 0 <= i < |c| ensures Released(t, d)[c[i]] == Link(c, i) {
      assert t[c[i]] == Link(c, i);
    }
  }

  lemma Apart(c: seq<int>, n: nat)
    requires Distinct(c) && n <= |c|
    ensures forall i :: 0 <= i < |c[..n]| ==> c[..n][i] !in c[n..]
  {
    forall i | 0 <= i < |c[..n]| ensures c[..n][i] !in c[n..] {
      assert c[..n][i] == c[i];
    }
  }

  /** Ending the chain after n clusters and freeing the rest cuts it. */
  lemma SplitAndRelease(t: Table, c: seq<int>, n: nat)
    requires |t| <= EOF && IsChain(t, c) && n < |c|
    ensures var t1 := if n == 0 then t else t[c[n - 1] := EOF];
            Cut(t, Released(t1, c[n..]), c, n)
  {
    var t1 := if n == 0 then t else t[c[n - 1] := EOF];
    assert IsChain(t1, c[..n]) && forall i :: 0 <= i < |c| ==> 0 <= c[i] < |t| by {
      if n > 0 { Split(t, c, n); }
    }
    assert IsChain(Released(t1, c[n..]), c[..n]) by {
      ChainIsAcyclic(t, c);
      Apart(c, n);
      KeptByRelease(t1, c[..n], c[n..]);
    }
    hide IsChain;
    forall i | n <= i < |c| ensures Released(t1, c[n..])[c[i]] == FREE {
      assert c[i] == c[n..][i - n];
    }
  }

  lemma UsedOnChain(t: Table, c: seq<int>, e: int)
    requires IsChain(t, c) && e in c
    ensures ValidIn(t, e) && t[e] != FREE
  {
    var i :| 0 <= i < |c| && c[i] == e;
    assert t[c[i]] == Link(c, i);
  }

  lemma DistinctTail(c: seq<int>, d: seq<int>)
    requires Distinct(c + d)
    ensures Distinct(d)
  {
    forall i, j | 0 <= i < j < |d| ensures d[i] != d[j] {
      assert d[i] == (c + d)[|c| + i] && d[j] == (c + d)[|c| + j];
    }
  }

  lemma GrownFreeSet(t: Table, t': Table, c: seq<int>, added: seq<int>)
    requires IsChain(t, c) && Grown(t, t', c, added)
    ensures FreeSet(t') == FreeSet(t) - (set e | e in added)
  {
    forall e | FIRST <= e < |t| ensures t'[e] == FREE <==> t[e] == FREE && e !in added {
      if e in added || (c != [] && e == c[|c| - 1]) {
        assert e in c + added;
        UsedOnChain(t', c + added, e);
        if e !in added { UsedOnChain(t, c, e); }
      }
    }
  }

  /** Growing takes exactly the added clusters from the free ones. */
  lemma GrownCount(t: Table, t': Table, c: seq<int>, added: seq<int>)
    requires |t| <= EOF && IsChain(t, c) && Grown(t, t', c, added)
    ensures CountFree(t') == CountFree(t) - |added|
  {
    GrownFreeSet(t, t', c, added);
    ChainIsAcyclic(t', c + added);
    DistinctTail(c, added);
    SizeOfDistinct(added);
    var s := set e | e in added;
    assert s <= FreeSet(t);
    assert FreeSet(t) == FreeSet(t) - s + s;
  }

  /** A chain whose clusters are in use is not touched by taking free clusters. */
  lemma KeptByTaking(t: Table, t': Table, c: seq<int>, added: seq<int>)
    requires IsChain(t, c) && Grown(t, t', [], added)
    ensures IsChain(t', c)
  {
    forall i | 0 <= i < |c| ensures t'[c[i]] == Link(c, i) {
      assert t[c[i]] == Link(c, i);
    }
  }

  /** A chain none of whose entries changed is still a chain. */
  lemma ChainKept(t: Table, t': Table, c: seq<int>)
    requires IsChain(t, c) && |t'| == |t| && forall e :: e in c ==> t'[e] == t[e]
    ensures IsChain(t', c)
  {
  }
}
