/** The A/B protocol as a state machine: boot, recovery, normal writes, freeze,
    seal and copy, with the power going at any moment.  A device is its bytes.
    A write reaches the device in pieces of any size; a piece of a copy may come
    in any order and hold anything if it was torn, and a descriptor may be
    written in part. */
module AbProtocol {
  import opened Sequences
  import opened LittleEndian
  import opened Descriptor

  const FOOTER := 4096

  type Bytes = seq<Byte>

  /** The payload hash and the size of both devices.  The last FOOTER bytes are
      not hashed; the descriptor is the last SIZE of them. */
  datatype Params = Params(hash: Bytes -> Bytes, length: nat) {
    ghost predicate Valid() {
      && FOOTER < length < 0x8000_0000_0000_0000
      && forall q :: |hash(q)| == DIGEST_SIZE
    }

    ghost predicate IsDevice(d: Bytes) { |d| == length }

    /** The protected size, which the descriptor stores. */
    function PayloadSize(): nat
      requires FOOTER < length
    {
      length - FOOTER
    }

    function Payload(d: Bytes): (r: Bytes)
      requires FOOTER < length == |d|
    {
      d[..PayloadSize()]
    }

    /** read_descriptor */
    function DigestOf(d: Bytes): (r: Option<Bytes>)
      requires FOOTER < length == |d| < 0x8000_0000_0000_0000
    {
      Read(d[length - SIZE..], PayloadSize())
    }

    /** powerctl_verify_path_digest when its hash run covered the first n bytes */
    function Check(d: Bytes, n: nat): (r: Option<Bytes>)
      requires FOOTER < length == |d| < 0x8000_0000_0000_0000 && n <= PayloadSize()
    {
      if DigestOf(d) == Some(hash(d[..n])) then DigestOf(d) else None
    }

    /** The check of the whole payload. */
    function Verify(d: Bytes): (r: Option<Bytes>)
      requires FOOTER < length == |d| < 0x8000_0000_0000_0000
    {
      Check(d, PayloadSize())
    }

    ghost predicate Good(d: Bytes) {
      Valid() && IsDevice(d) && Verify(d).Some?
    }

    /** The device after the first n bytes of a descriptor were written over the
        old one; all of it was when n == SIZE. */
    function Stamp(d: Bytes, digest: Bytes, n: nat): (r: Bytes)
      requires FOOTER < length == |d| < 0x8000_0000_0000_0000
      requires |digest| == DIGEST_SIZE && n <= SIZE
      ensures |r| == |d|
    {
      Splice(d, length - SIZE, Encode(digest, PayloadSize())[..n])
    }

    /** A device carries a digest exactly when its last 128 bytes are a descriptor
        of it for a device of this size, without the footer of 4096 bytes. */
    lemma DigestIff(d: Bytes, digest: Bytes)
      requires Valid() && IsDevice(d)
      ensures DigestOf(d) == Some(digest) <==> Describes(d[length - 128..], digest, length - 4096)
    {
      hide Read, Describes;
      ReadIffDescribes(d[length - SIZE..], PayloadSize(), digest);
    }

    /** A device with a whole new descriptor reads back the digest. */
    lemma StampReadsBack(d: Bytes, digest: Bytes)
      requires Valid() && IsDevice(d) && |digest| == DIGEST_SIZE
      ensures DigestOf(Stamp(d, digest, SIZE)) == Some(digest)
    {
      hide Read, Encode;
      ReadOfEncode(digest, PayloadSize());
      assert Stamp(d, digest, SIZE)[length - SIZE..] == Encode(digest, PayloadSize());
    }

    lemma StampKeepsPayload(d: Bytes, digest: Bytes, n: nat)
      requires Valid() && IsDevice(d) && |digest| == DIGEST_SIZE && n <= SIZE
      ensures Payload(Stamp(d, digest, n)) == Payload(d)
    {
      hide Encode;
    }

    /** Sealing a device that already verifies changes nothing, however much of
        the descriptor is written. */
    lemma StampAgain(d: Bytes, n: nat)
      requires Good(d) && n <= SIZE
      ensures Stamp(d, hash(Payload(d)), n) == d
    {
      hide Encode;
      ReadIffEncoded(d[length - SIZE..], PayloadSize(), hash(Payload(d)));
      assert Stamp(d, hash(Payload(d)), n) == d;
    }

    /** Writes below the descriptor leave it alone. */
    lemma WriteKeepsDescriptor(d: Bytes, at: nat, data: Bytes)
      requires Valid() && IsDevice(d) && at + |data| <= length - SIZE
      ensures DigestOf(Splice(d, at, data)) == DigestOf(d)
    {
      hide Read;
      assert Splice(d, at, data)[length - SIZE..] == d[length - SIZE..];
    }
  }

  datatype Side = A | B {
    function Other(): Side { if A? then B else A }
  }

  /** Where the running system is.  `cleared` says that the peer is known to
      verify: recovery was successful and no later copy touched it.  `seen` is
      what the seal has hashed so far. */
  datatype Phase =
    | Down
    | Mounted(active: Side, digest: Bytes)
    | Recovering(active: Side, digest: Bytes)
    | Normal(active: Side, cleared: bool)
    | Frozen(active: Side, cleared: bool)
    | Hashing(active: Side, cleared: bool, seen: Bytes)
    | Sealed(active: Side, cleared: bool)
    | Copying(active: Side)
    | Prepared(active: Side)

  /** The two devices, the phase, and every payload that a seal has hashed. */
  datatype Sys = Sys(a: Bytes, b: Bytes, phase: Phase, seals: set<Bytes>) {
    function Dev(side: Side): Bytes { if side.A? then a else b }

    function With(side: Side, d: Bytes): Sys {
      if side.A? then this.(a := d) else this.(b := d)
    }

    function WriteTo(side: Side, at: nat, data: Bytes): Sys
      requires at + |data| <= |Dev(side)|
    {
      With(side, Splice(Dev(side), at, data))
    }
  }

  /** `cover` is how much of the payload the hash run of a check covered. */
  datatype Event =
    | Stop
    | Boot(mountA: bool, mountB: bool, coverA: nat, coverB: nat)
    | KeepPeer(cover: nat)
    | BeginRecovery
    | CopyPiece(at: nat, data: Bytes)
    | EndRecovery(cover: nat)
    | FailRecovery
    | AppWrite(at: nat, data: Bytes)
    | Freeze
    | BeginSeal
    | HashPiece(bytes: nat)
    | WriteDescriptor(written: nat)
    | EndPrepare
    | Retry
    | Reopen

  /** mount_partition: the first device, A before B, that is accepted and mounts. */
  function Choice(p: Params, s: Sys, mountA: bool, mountB: bool, coverA: nat, coverB: nat): Option<(Side, Bytes)>
    requires FOOTER < p.length == |s.a| == |s.b| < 0x8000_0000_0000_0000
    requires coverA <= p.PayloadSize() && coverB <= p.PayloadSize()
  {
    if p.Check(s.a, coverA).Some? && mountA then Some((A, p.Check(s.a, coverA).value))
    else if p.Check(s.b, coverB).Some? && mountB then Some((B, p.Check(s.b, coverB).value))
    else None
  }

  /** Is the peer still known to verify when a power prepare is abandoned? */
  predicate ClearedAfter(phase: Phase) {
    match phase
    case Frozen(_, c) => c
    case Hashing(_, c, _) => c
    case Sealed(_, c) => c
    case Prepared(_) => true
    case _ => false
  }

  predicate Preparing(phase: Phase) {
    phase.Frozen? || phase.Hashing? || phase.Sealed? || phase.Copying? || phase.Prepared?
  }

  ghost predicate Fits(p: Params, s: Sys) {
    p.Valid() && p.IsDevice(s.a) && p.IsDevice(s.b)
  }

  /** The state after an event, where the event is possible. */
  ghost predicate Step(p: Params, s: Sys, e: Event, s': Sys)
    requires Fits(p, s)
  {
    match e
    case Stop => s' == s.(phase := Down)
    case Boot(mountA, mountB, coverA, coverB) =>
      && s.phase.Down? && coverA <= p.PayloadSize() && coverB <= p.PayloadSize()
      && (match Choice(p, s, mountA, mountB, coverA, coverB)
          case Some((x, digest)) => s' == s.(phase := Mounted(x, digest))
          case None => s' == s)
    case KeepPeer(n) =>
      && s.phase.Mounted? && n <= p.PayloadSize()
      && p.Check(s.Dev(s.phase.active.Other()), n) == Some(s.phase.digest)
      && s' == s.(phase := Normal(s.phase.active, true))
    case BeginRecovery =>
      s.phase.Mounted? && s' == s.(phase := Recovering(s.phase.active, s.phase.digest))
    case CopyPiece(at, data) =>
      && (s.phase.Recovering? || s.phase.Sealed? || s.phase.Copying?) && at + |data| <= p.length
      && s' == s.WriteTo(s.phase.active.Other(), at, data)
               .(phase := if s.phase.Recovering? then s.phase else Copying(s.phase.active))
    case EndRecovery(n) =>
      && s.phase.Recovering? && n <= p.PayloadSize()
      && p.Check(s.Dev(s.phase.active.Other()), n) == Some(s.phase.digest)
      && s' == s.(phase := Normal(s.phase.active, true))
    case FailRecovery =>
      (s.phase.Mounted? || s.phase.Recovering?) && s' == s.(phase := Normal(s.phase.active, false))
    case AppWrite(at, data) =>
      && !s.phase.Down? && at + |data| <= p.PayloadSize()
      && s' == s.WriteTo(s.phase.active, at, data)
    case Freeze =>
      s.phase.Normal? && s' == s.(phase := Frozen(s.phase.active, s.phase.cleared))
    case BeginSeal =>
      s.phase.Frozen? && s' == s.(phase := Hashing(s.phase.active, s.phase.cleared, []))
    case HashPiece(n) =>
      && s.phase.Hashing?
      && var from := |s.phase.seen|;
         && from + n <= p.PayloadSize()
         && s' == s.(phase := s.phase.(seen := s.phase.seen + s.Dev(s.phase.active)[from..from + n]))
    case WriteDescriptor(n) =>
      && s.phase.Hashing? && n <= SIZE
      && s' == s.With(s.phase.active, p.Stamp(s.Dev(s.phase.active), p.hash(s.phase.seen), n))
               .(phase := if n == SIZE then Sealed(s.phase.active, s.phase.cleared) else s.phase,
                 seals := s.seals + {s.phase.seen})
    case EndPrepare =>
      && (s.phase.Sealed? || s.phase.Copying?) && s.a == s.b
      && s' == s.(phase := Prepared(s.phase.active))
    case Retry =>
      Preparing(s.phase) && s' == s.(phase := Frozen(s.phase.active, ClearedAfter(s.phase)))
    case Reopen =>
      Preparing(s.phase) && s' == s.(phase := Normal(s.phase.active, ClearedAfter(s.phase)))
  }

  // ----- safety -----

  /** What each phase relies on. */
  ghost predicate Safe(p: Params, s: Sys) {
    && Fits(p, s)
    && match s.phase
       case Down => p.Good(s.a) || p.Good(s.b)
       case Mounted(x, d) => p.Verify(s.Dev(x)) == Some(d)
       case Recovering(x, d) => p.Verify(s.Dev(x)) == Some(d)
       case Normal(x, c) => p.Good(if c then s.Dev(x.Other()) else s.Dev(x))
       case Frozen(x, c) => p.Good(if c then s.Dev(x.Other()) else s.Dev(x))
       case Hashing(x, c, seen) =>
         seen <= p.Payload(s.Dev(x)) && p.Good(if c then s.Dev(x.Other()) else s.Dev(x))
       case Sealed(x, c) => p.Good(s.Dev(x)) && (c ==> p.Good(s.Dev(x.Other())))
       case Copying(x) => p.Good(s.Dev(x))
       case Prepared(x) => p.Good(s.Dev(x)) && s.a == s.b
  }

  /** The first condition of the safety theorem: the active payload changes on
      the device only in normal use, while the peer is known to verify. */
  predicate Disciplined(s: Sys, e: Event) {
    e.AppWrite? ==> s.phase.Normal? && s.phase.cleared
  }

  /** The second: the hash run of a seal, and of a check that is relied on,
      covered the whole payload.  (A check that wrongly rejects does no harm.) */
  predicate Covering(p: Params, s: Sys, e: Event)
    requires FOOTER < p.length
  {
    match e
    case Boot(mountA, mountB, coverA, coverB) =>
      (mountA ==> coverA == p.PayloadSize()) && (mountB ==> coverB == p.PayloadSize())
    case KeepPeer(n) => n == p.PayloadSize()
    case EndRecovery(n) => n == p.PayloadSize()
    case WriteDescriptor(_) => s.phase.Hashing? ==> |s.phase.seen| == p.PayloadSize()
    case _ => true
  }

  lemma SafeMeansOneGood(p: Params, s: Sys)
    requires Safe(p, s)
    ensures p.Good(s.a) || p.Good(s.b)
  {
  }

  lemma StepIsSafe(p: Params, s: Sys, e: Event, s': Sys)
    requires Safe(p, s) && Step(p, s, e, s') && Disciplined(s, e) && Covering(p, s, e)
    ensures Safe(p, s')
  {
    hide Params.DigestOf, Params.Check, Params.Stamp;
    match e {
      case WriteDescriptor(n) => StampIsSafe(p, s, n);
      case HashPiece(n) => HashedIsPrefix(p.Payload(s.Dev(s.phase.active)), s.phase.seen, n);
      case _ =>
    }
  }

  lemma HashedIsPrefix(payload: Bytes, seen: Bytes, n: nat)
    requires seen <= payload && |seen| + n <= |payload|
    ensures seen + payload[|seen|..|seen| + n] <= payload
  {
    assert payload[..|seen| + n] == payload[..|seen|] + payload[|seen|..|seen| + n];
  }

  /** Until the descriptor is complete the peer is the copy to rely on; without
      such a peer the active device verifies and its descriptor stays as it is. */
  lemma StampIsSafe(p: Params, s: Sys, n: nat)
    requires Safe(p, s) && s.phase.Hashing? && |s.phase.seen| == p.PayloadSize() && n <= SIZE
    ensures forall s' :: Step(p, s, WriteDescriptor(n), s') ==> Safe(p, s')
  {
    hide Params.DigestOf, Params.Stamp;
    var d := s.Dev(s.phase.active);
    assert s.phase.seen == p.Payload(d);
    p.StampKeepsPayload(d, p.hash(s.phase.seen), n);
    if n == SIZE { p.StampReadsBack(d, p.hash(s.phase.seen)); }
    if !s.phase.cleared { p.StampAgain(d, n); }
  }

  /** states[k] --events[k]--> states[k + 1] */
  ghost predicate IsRun(p: Params, states: seq<Sys>, events: seq<Event>) {
    && |states| == |events| + 1 && p.Valid()
    && forall k :: 0 <= k < |events| ==> Fits(p, states[k]) && Step(p, states[k], events[k], states[k + 1])
  }

  /** In every state of every run, with a stop anywhere, one of the two devices
      verifies, if both conditions hold of every event. */
  lemma {:induction false} OneDeviceAlwaysVerifies(p: Params, states: seq<Sys>, events: seq<Event>, k: nat)
    requires IsRun(p, states, events) && Safe(p, states[0]) && k < |states|
    requires forall i :: 0 <= i < |events| ==> Disciplined(states[i], events[i]) && Covering(p, states[i], events[i])
    ensures Safe(p, states[k]) && (p.Good(states[k].a) || p.Good(states[k].b))
    decreases k
  {
    if k > 0 {
      OneDeviceAlwaysVerifies(p, states, events, k - 1);
      StepIsSafe(p, states[k - 1], events[k - 1], states[k]);
    }
    SafeMeansOneGood(p, states[k]);
  }

  // ----- the conditions are needed -----

  /** A completed seal leaves the device verifying exactly when what it hashed
      has the hash of the payload. */
  lemma SealIsGoodIff(p: Params, d: Bytes, seen: Bytes)
    requires p.Valid() && p.IsDevice(d)
    ensures p.Good(p.Stamp(d, p.hash(seen), SIZE)) <==> p.hash(seen) == p.hash(p.Payload(d))
  {
    hide Params.DigestOf, Params.Stamp;
    p.StampReadsBack(d, p.hash(seen));
    p.StampKeepsPayload(d, p.hash(seen), SIZE);
  }

  /** The device after a seal whose hash run covered the first n bytes. */
  function SealedAs(p: Params, d: Bytes, n: nat): (r: Bytes)
    requires FOOTER < p.length == |d| < 0x8000_0000_0000_0000 && n <= p.PayloadSize() && |p.hash(d[..n])| == DIGEST_SIZE
    ensures |r| == |d|
  {
    p.Stamp(d, p.hash(d[..n]), SIZE)
  }

  /** These events lead from s to s'. */
  ghost predicate Runs(p: Params, s: Sys, events: seq<Event>, s': Sys) {
    exists states :: IsRun(p, states, events) && states[0] == s && states[|events|] == s'
  }

  lemma RunsOne(p: Params, s: Sys, e: Event, s': Sys)
    requires Fits(p, s) && Step(p, s, e, s')
    ensures Runs(p, s, [e], s')
  {
    hide Step;
    assert IsRun(p, [s, s'], [e]);
  }

  lemma RunsJoin(p: Params, s: Sys, es: seq<Event>, s1: Sys, fs: seq<Event>, s2: Sys)
    requires Runs(p, s, es, s1) && Runs(p, s1, fs, s2)
    ensures Runs(p, s, es + fs, s2)
  {
    hide Step, Fits;
    var xs :| IsRun(p, xs, es) && xs[0] == s && xs[|es|] == s1;
    var ys :| IsRun(p, ys, fs) && ys[0] == s1 && ys[|fs|] == s2;
    var states, events := xs + ys[1..], es + fs;
    forall k | 0 <= k < |events| ensures Fits(p, states[k]) && Step(p, states[k], events[k], states[k + 1]) {
      if k >= |es| {
        assert Step(p, ys[k - |es|], fs[k - |es|], ys[k - |es| + 1]);
      } else {
        assert Step(p, xs[k], es[k], xs[k + 1]);
      }
    }
    assert IsRun(p, states, events);
  }

  /** Two steps. */
  lemma RunsTwo(p: Params, s: Sys, e: Event, s1: Sys, f: Event, s2: Sys)
    requires Fits(p, s) && Step(p, s, e, s1) && Fits(p, s1) && Step(p, s1, f, s2)
    ensures Runs(p, s, [e, f], s2)
  {
    hide Step, Runs;
    RunsOne(p, s, e, s1);
    RunsOne(p, s1, f, s2);
    RunsJoin(p, s, [e], s1, [f], s2);
    assert [e] + [f] == [e, f];
  }

  function SealEvents(n: nat): seq<Event> { [Freeze, BeginSeal] + [HashPiece(n), WriteDescriptor(SIZE)] }

  /** The system after it was frozen and sealed with n bytes hashed. */
  function AfterSeal(p: Params, s: Sys, n: nat): (r: Sys)
    requires s.phase.Normal? && FOOTER < p.length == |s.Dev(s.phase.active)| < 0x8000_0000_0000_0000
    requires n <= p.PayloadSize() && |p.hash(s.Dev(s.phase.active)[..n])| == DIGEST_SIZE
  {
    var x := s.phase.active;
    s.With(x, SealedAs(p, s.Dev(x), n)).(phase := Sealed(x, s.phase.cleared), seals := s.seals + {s.Dev(x)[..n]})
  }

  /** Freezing and sealing a system in normal use runs through for every n. */
  lemma SealRuns(p: Params, s: Sys, n: nat)
    requires Fits(p, s) && s.phase.Normal? && n <= p.PayloadSize()
    ensures Runs(p, s, SealEvents(n), AfterSeal(p, s, n)) && Fits(p, AfterSeal(p, s, n))
  {
    hide Params.Stamp, Runs;
    var x, c, d := s.phase.active, s.phase.cleared, s.Dev(s.phase.active);
    var s1 := s.(phase := Frozen(x, c));
    var s2 := s.(phase := Hashing(x, c, []));
    var s3 := s.(phase := Hashing(x, c, d[..n]));
    assert [] + d[0..0 + n] == d[..n];
    RunsTwo(p, s, Freeze, s1, BeginSeal, s2);
    RunsTwo(p, s2, HashPiece(n), s3, WriteDescriptor(SIZE), AfterSeal(p, s, n));
    RunsJoin(p, s, [Freeze, BeginSeal], s2, [HashPiece(n), WriteDescriptor(SIZE)], AfterSeal(p, s, n));
  }

  function PrepareEvents(p: Params, d: Bytes, n: nat): seq<Event>
    requires FOOTER < p.length == |d| < 0x8000_0000_0000_0000 && n <= p.PayloadSize() && |p.hash(d[..n])| == DIGEST_SIZE
  {
    SealEvents(n) + [CopyPiece(0, SealedAs(p, d, n)), EndPrepare]
  }

  /** A power prepare of a system in normal use runs through for every n, and
      leaves devices that verify if and only if the bytes it hashed have the hash
      of the payload; otherwise it destroys both copies, a good peer included. */
  lemma PrepareIsGoodIff(p: Params, s: Sys, n: nat) returns (s': Sys)
    requires Fits(p, s) && s.phase.Normal? && n <= p.PayloadSize()
    ensures Runs(p, s, PrepareEvents(p, s.Dev(s.phase.active), n), s') && s'.phase == Prepared(s.phase.active)
    ensures var d := s.Dev(s.phase.active);
            p.Good(s'.a) || p.Good(s'.b) <==> p.hash(d[..n]) == p.hash(p.Payload(d))
  {
    var x, d := s.phase.active, s.Dev(s.phase.active);
    var sealed, s1 := SealedAs(p, d, n), AfterSeal(p, s, n);
    SealIsGoodIff(p, d, d[..n]);
    SealRuns(p, s, n);
    hide Params.Check, SealedAs, Runs, SealEvents;
    var s2 := Sys(sealed, sealed, Copying(x), s1.seals);
    s' := s2.(phase := Prepared(x));
    assert Splice(s1.Dev(x.Other()), 0, sealed) == sealed;
    RunsTwo(p, s1, CopyPiece(0, sealed), s2, EndPrepare, s');
    RunsJoin(p, s, SealEvents(n), s1, [CopyPiece(0, sealed), EndPrepare], s');
  }

  /** While the active volume is writable, a write can leave no device that
      verifies exactly when the peer does not verify.  (q is any payload whose
      hash is not the one stored on the active device.) */
  lemma WritesAreSafeIffPeerVerifies(p: Params, s: Sys, q: Bytes)
    requires Fits(p, s) && !s.phase.Down? && |q| == p.PayloadSize()
    requires p.DigestOf(s.Dev(s.phase.active)) != Some(p.hash(q))
    ensures (forall e: Event, s' :: e.AppWrite? && Step(p, s, e, s') ==> p.Good(s'.a) || p.Good(s'.b))
            <==> p.Good(s.Dev(s.phase.active.Other()))
  {
    hide Read;
    var d := s.Dev(s.phase.active);
    var s' := s.WriteTo(s.phase.active, 0, q);
    var w := s'.Dev(s.phase.active);
    p.WriteKeepsDescriptor(d, 0, q);
    assert p.Payload(w) == q;
    assert !p.Good(w);
    assert Step(p, s, AppWrite(0, q), s');
  }

  /** A recovery that fails half way leaves the volume mounted and writable; one
      write to it can then leave nothing that verifies. */
  lemma FailedRecoveryLosesBoth(p: Params, s: Sys, q: Bytes)
    requires Fits(p, s) && s.phase.Recovering? && p.Verify(s.Dev(s.phase.active)) == Some(s.phase.digest)
    requires !p.Good(s.Dev(s.phase.active.Other()))
    requires |q| == p.PayloadSize() && p.hash(q) != s.phase.digest
    ensures exists s1, s2 :: Step(p, s, FailRecovery, s1) && Fits(p, s1) && Step(p, s1, AppWrite(0, q), s2)
                             && !p.Good(s2.a) && !p.Good(s2.b)
  {
    hide Read;
    var s1 := s.(phase := Normal(s.phase.active, false));
    var s2 := s1.WriteTo(s.phase.active, 0, q);
    p.WriteKeepsDescriptor(s.Dev(s.phase.active), 0, q);
    assert p.Payload(s2.Dev(s.phase.active)) == q;
    assert Step(p, s, FailRecovery, s1) && Step(p, s1, AppWrite(0, q), s2);
  }

  // ----- what an accepted device holds -----

  /** The descriptor on a device, if any, was made by one of these seals. */
  ghost predicate FromSeals(p: Params, seals: set<Bytes>, d: Bytes)
    requires p.Valid() && p.IsDevice(d)
  {
    p.DigestOf(d).Some? ==> exists q :: q in seals && p.hash(q) == p.DigestOf(d).value
  }

  ghost predicate Sourced(p: Params, s: Sys) {
    Fits(p, s) && FromSeals(p, s.seals, s.a) && FromSeals(p, s.seals, s.b)
  }

  /** The descriptor is written atomically, in a seal and in a copy. */
  ghost predicate Whole(p: Params, s: Sys, e: Event) {
    match e
    case CopyPiece(at, data) =>
      || at + |data| <= p.length - SIZE
      || (&& at <= p.length - SIZE && at + |data| == p.length == |s.a| == |s.b| && !s.phase.Down?
          && data[p.length - SIZE - at..] == s.Dev(s.phase.active)[p.length - SIZE..])
    case WriteDescriptor(n) => n == SIZE
    case _ => true
  }

  lemma StepIsSourced(p: Params, s: Sys, e: Event, s': Sys)
    requires Sourced(p, s) && Step(p, s, e, s') && Whole(p, s, e)
    ensures Sourced(p, s') && s.seals <= s'.seals
  {
    hide Params.Stamp, Params.DigestOf, Params.Verify;
    match e {
      case WriteDescriptor(_) => SealedIsSourced(p, s, s.phase.active, s.phase.seen);
      case CopyPiece(at, data) => CopiedIsSourced(p, s, s.phase.active, at, data);
      case AppWrite(at, data) => p.WriteKeepsDescriptor(s.Dev(s.phase.active), at, data);
      case _ =>
    }
  }

  lemma SealedIsSourced(p: Params, s: Sys, side: Side, seen: Bytes)
    requires Sourced(p, s)
    ensures Sourced(p, s.With(side, p.Stamp(s.Dev(side), p.hash(seen), SIZE)).(seals := s.seals + {seen}))
  {
    hide Read, Encode;
    p.StampReadsBack(s.Dev(side), p.hash(seen));
    assert seen in s.seals + {seen};
  }

  lemma CopiedIsSourced(p: Params, s: Sys, side: Side, at: nat, data: Bytes)
    requires Sourced(p, s) && at + |data| <= p.length
    requires || at + |data| <= p.length - SIZE
             || (&& at <= p.length - SIZE && at + |data| == p.length
                 && data[p.length - SIZE - at..] == s.Dev(side)[p.length - SIZE..])
    ensures Sourced(p, s.WriteTo(side.Other(), at, data))
  {
    hide Read;
    var t := s.Dev(side.Other());
    if at + |data| <= p.length - SIZE {
      p.WriteKeepsDescriptor(t, at, data);
    } else {
      assert Splice(t, at, data)[p.length - SIZE..] == s.Dev(side)[p.length - SIZE..];
    }
  }

  /** Whatever was interrupted before, the bytes that a check accepts are, one
      for one, what some seal hashed, or else they collide with that under the
      hash.  With n the payload size this is the payload. */
  lemma {:induction false} AcceptedWasSealed(p: Params, states: seq<Sys>, events: seq<Event>, k: nat, side: Side,
                                             n: nat)
    requires IsRun(p, states, events) && Sourced(p, states[0]) && k < |states| && n <= p.PayloadSize()
    requires forall i :: 0 <= i < |events| ==> Whole(p, states[i], events[i])
    ensures Sourced(p, states[k])
    ensures var d := states[k].Dev(side);
            p.Check(d, n).Some? ==>
              || d[..n] in states[k].seals
              || exists q :: q in states[k].seals && q != d[..n] && p.hash(q) == p.hash(d[..n])
    decreases k
  {
    hide Read;
    if k > 0 {
      AcceptedWasSealed(p, states, events, k - 1, side, n);
      StepIsSourced(p, states[k - 1], events[k - 1], states[k]);
    }
  }

  // ----- what the next boot finds -----

  /** Equal devices that verify: every boot that mounts one finds the sealed
      digest, takes A if A mounts, and finds the peer in no need of a copy. */
  lemma EqualDevicesBootClean(p: Params, s: Sys, mountA: bool, mountB: bool, s': Sys)
    requires Fits(p, s) && s.phase == Down && s.a == s.b && p.Good(s.a) && (mountA || mountB)
    requires Step(p, s, Boot(mountA, mountB, p.PayloadSize(), p.PayloadSize()), s')
    ensures s' == s.(phase := Mounted(if mountA then A else B, p.hash(p.Payload(s.a))))
    ensures Step(p, s', KeepPeer(p.PayloadSize()), s'.(phase := Normal(s'.phase.active, true)))
  {
    hide Params.DigestOf;
  }

  /** After the power went between a seal and the end of its copy, a boot with
      covering checks finds a device, and it has the sealed payload if and only
      if the sealed device is A, A does not verify, or the payloads are equal. */
  lemma NewestPayloadBootsIff(p: Params, s: Sys)
    requires Safe(p, s) && (s.phase.Sealed? || s.phase.Copying?)
    ensures var x, choice := s.phase.active, Choice(p, s, true, true, p.PayloadSize(), p.PayloadSize());
            && choice.Some?
            && (p.Payload(s.Dev(choice.value.0)) == p.Payload(s.Dev(x))
                <==> x == A || !p.Good(s.a) || p.Payload(s.a) == p.Payload(s.b))
  {
    hide Params.DigestOf;
  }

  /** B is mounted because A does not mount, and gets a new payload. */
  function WriteEvents(full: nat, q: Bytes): seq<Event> {
    [Boot(false, true, full, full), KeepPeer(full)] + [AppWrite(0, q)]
  }

  lemma WriteRuns(p: Params, d: Bytes, q: Bytes)
    requires p.Good(d) && |q| == p.PayloadSize()
    ensures Runs(p, Sys(d, d, Down, {}), WriteEvents(p.PayloadSize(), q), Sys(d, Splice(d, 0, q), Normal(B, true), {}))
  {
    hide Params.DigestOf, Runs;
    var full := p.PayloadSize();
    var s0 := Sys(d, d, Down, {});
    var s1 := s0.(phase := Mounted(B, p.hash(p.Payload(d))));
    var s2 := s0.(phase := Normal(B, true));
    RunsTwo(p, s0, Boot(false, true, full, full), s1, KeepPeer(full), s2);
    RunsOne(p, s2, AppWrite(0, q), s2.(b := Splice(d, 0, q)));
    RunsJoin(p, s0, [Boot(false, true, full, full), KeepPeer(full)], s2, [AppWrite(0, q)], s2.(b := Splice(d, 0, q)));
  }

  lemma RebootRuns(p: Params, s: Sys, digest: Bytes)
    requires Fits(p, s) && p.Verify(s.a) == Some(digest)
    ensures Runs(p, s, [Stop, Boot(true, true, p.PayloadSize(), p.PayloadSize())], s.(phase := Mounted(A, digest)))
  {
    hide Params.Check, Runs;
    var boot := Boot(true, true, p.PayloadSize(), p.PayloadSize());
    RunsTwo(p, s, Stop, s.(phase := Down), boot, s.(phase := Mounted(A, digest)));
  }

  /** The run in which it does not: the new payload q of B is sealed, the power
      goes, and A boots with the old one, although B verifies. */
  lemma NewestSealCanBeLost(p: Params, d: Bytes, q: Bytes) returns (s: Sys)
    requires p.Good(d) && |q| == p.PayloadSize() && q != p.Payload(d)
    ensures var full := p.PayloadSize();
            var reboot := [Stop, Boot(true, true, full, full)];
            Runs(p, Sys(d, d, Down, {}), WriteEvents(full, q) + SealEvents(full) + reboot, s)
    ensures Fits(p, s) && p.Good(s.b) && p.Payload(s.b) == q
    ensures s.phase == Mounted(A, p.hash(p.Payload(d))) && p.Payload(s.a) != q
  {
    var full, written := p.PayloadSize(), Splice(d, 0, q);
    var s0, s1 := Sys(d, d, Down, {}), Sys(d, written, Normal(B, true), {});
    var s2 := AfterSeal(p, s1, full);
    assert p.Payload(written) == q;
    SealIsGoodIff(p, written, q);
    p.StampKeepsPayload(written, p.hash(q), SIZE);
    WriteRuns(p, d, q);
    SealRuns(p, s1, full);
    hide Runs, Params.Stamp, Params.DigestOf, WriteEvents, SealEvents;
    RebootRuns(p, s2, p.hash(p.Payload(d)));
    RunsJoin(p, s0, WriteEvents(full, q), s1, SealEvents(full), s2);
    s := s2.(phase := Mounted(A, p.hash(p.Payload(d))));
    RunsJoin(p, s0, WriteEvents(full, q) + SealEvents(full), s2, [Stop, Boot(true, true, full, full)], s);
  }
}
