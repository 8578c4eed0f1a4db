/** Seal, verify, copy, mount, recovery and power prepare as they work on two
    devices, step by step.  Every state the devices go through is recorded, so
    what the protocol promises holds for the power going between any two writes.
    Hashes come from the two threads of the hash ring, by some schedule. */
module AbStorage {
  import opened Sequences
  import opened Multiples
  import opened LittleEndian
  import opened Descriptor
  import HashRing
  import opened AbProtocol

  const COPY_BUFFER := 1024 * 1024
  const CHUNK := 8192 * 1024

  datatype Exit = Ok | IoError | MetadataInvalid | HashMismatch | NoMemory

  /** What the kernel answers to one pread or pwrite.  A count is in bytes, in
      logical blocks for the unbuffered write of a copy, and one for all of a
      descriptor, which lies in one page. */
  datatype Answer = Moved(count: nat) | Interrupted | Refused

  /** The number of transfers the answers allow before one fails. */
  function Supply(answers: seq<Answer>): nat {
    if answers == [] then 0
    else match answers[0]
      case Interrupted => Supply(answers[1..])
      case Moved(n) => if n == 0 then 0 else 1 + Supply(answers[1..])
      case Refused => 0
  }

  /** The number of other system calls that are granted before one fails. */
  function Granted(calls: seq<bool>): nat {
    if calls == [] || !calls[0] then 0 else 1 + Granted(calls[1..])
  }

  /** Exactly n calls were made, and all of them were granted. */
  ghost predicate Took(before: seq<bool>, after: seq<bool>, n: nat) {
    |before| >= n && after == before[n..] && forall i :: 0 <= i < n ==> before[i]
  }

  lemma TookMore(before: seq<bool>, mid: seq<bool>, after: seq<bool>, m: nat, n: nat)
    requires Took(before, mid, m) && Took(mid, after, n)
    ensures Took(before, after, m + n)
  {
    assert before[m..][n..] == before[m + n..];
    forall i | 0 <= i < m + n ensures before[i] {
      if i >= m { assert mid[i - m] == before[i]; }
    }
  }

  /** The number of hash runs that cover the whole payload before one may not. */
  ghost function Steady(schedules: seq<seq<HashRing.Event>>, length: nat): nat {
    if schedules == [] || !HashRing.Thorough(schedules[0], length, CHUNK) then 0
    else 1 + Steady(schedules[1..], length)
  }

  /** A recorded run of the protocol from a state with a device that verifies;
      the active payload changes only while the peer verifies, and descriptors
      are written whole. */
  ghost predicate Recorded(p: Params, states: seq<Sys>, events: seq<Event>, now: Sys) {
    && IsRun(p, states, events) && Safe(p, states[0]) && states[|events|] == now && Fits(p, now)
    && forall i :: 0 <= i < |events| ==> Disciplined(states[i], events[i]) && Whole(p, states[i], events[i])
  }

  /** Every hash run that was relied on covered the whole payload. */
  ghost predicate AllCover(p: Params, states: seq<Sys>, events: seq<Event>) {
    p.Valid() && |states| == |events| + 1 && forall i :: 0 <= i < |events| ==> Covering(p, states[i], events[i])
  }

  lemma RecordOne(p: Params, states: seq<Sys>, events: seq<Event>, s: Sys, e: Event, s': Sys)
    requires Recorded(p, states, events, s) && Step(p, s, e, s') && Disciplined(s, e) && Whole(p, s, e) && Fits(p, s')
    ensures Recorded(p, states + [s'], events + [e], s')
    ensures AllCover(p, states, events) && Covering(p, s, e) ==> AllCover(p, states + [s'], events + [e])
  {
    hide Step, Safe, Disciplined, Whole, Covering;
  }

  lemma RecordedFits(p: Params, states: seq<Sys>, events: seq<Event>, s: Sys)
    requires Recorded(p, states, events, s)
    ensures Fits(p, s)
  {
  }

  /** The phase after a write to the peer. */
  function PhaseAfter(before: Phase): Phase
    requires !before.Down?
  {
    if before.Recovering? then before else Copying(before.active)
  }

  /** The phase once n bytes of the descriptor are written. */
  function PhaseStamped(before: Phase, n: nat): Phase
    requires before.Hashing?
  {
    if n == SIZE then Sealed(before.active, before.cleared) else before
  }

  /** More bytes of the descriptor are a step of the protocol. */
  lemma DescriptorStep(p: Params, s: Sys, m: nat, n: nat, before: Bytes)
    requires Fits(p, s) && s.phase.Hashing? && m <= n <= SIZE
    requires |before| == p.length
    requires s.Dev(s.phase.active) == p.Stamp(before, p.hash(s.phase.seen), m)
    ensures var s' := s.With(s.phase.active, p.Stamp(before, p.hash(s.phase.seen), n))
                       .(phase := PhaseStamped(s.phase, n), seals := s.seals + {s.phase.seen});
            Fits(p, s') && Step(p, s, WriteDescriptor(n), s')
  {
    hide Encode;
    SpliceMore(before, p.length - SIZE, Encode(p.hash(s.phase.seen), p.PayloadSize()), m, n);
  }

  lemma CheckIs(p: Params, d: Bytes, n: nat, expected: Option<Bytes>)
    requires p.Valid() && p.IsDevice(d) && n <= p.PayloadSize() && expected == p.DigestOf(d)
    ensures p.Check(d, n) == if expected == Some(p.hash(d[..n])) then expected else None
  {
  }

  // Steps that change the phase only.

  /** An accepted device has its size in the descriptor, eight bytes from the
      104th before its end. */
  lemma AcceptedDescribes(p: Params, d: Bytes, digest: Bytes)
    requires p.Valid() && p.IsDevice(d) && p.DigestOf(d) == Some(digest)
    ensures Describes(d[p.length - 128..], digest, p.length - 4096)
    ensures Holds64(d[p.length - 104..p.length - 96], p.length - 4096)
  {
    hide Params.DigestOf, Holds64, Holds32;
    p.DigestIff(d, digest);
    assert d[p.length - 128..][24..32] == d[p.length - 104..p.length - 96];
  }

  lemma CheckDescribes(p: Params, d: Bytes, n: nat)
    requires p.Valid() && p.IsDevice(d) && n <= p.PayloadSize() && p.Check(d, n).Some?
    ensures Describes(d[p.length - 128..], p.hash(d[..n]), p.length - 4096)
    ensures Holds64(d[p.length - 104..p.length - 96], p.length - 4096)
  {
    hide Params.DigestOf, Holds64, Describes;
    AcceptedDescribes(p, d, p.hash(d[..n]));
  }

  lemma SealedDescribes(p: Params, d: Bytes, n: nat)
    requires p.Valid() && p.IsDevice(d) && n <= p.PayloadSize()
    ensures var e := SealedAs(p, d, n);
            && |e| == p.length && Describes(e[p.length - 128..], p.hash(d[..n]), p.length - 4096)
            && Holds64(e[p.length - 104..p.length - 96], p.length - 4096)
  {
    hide Params.DigestOf, Params.Stamp, Holds64, Describes;
    p.StampReadsBack(d, p.hash(d[..n]));
    AcceptedDescribes(p, SealedAs(p, d, n), p.hash(d[..n]));
  }

  lemma FailStep(p: Params, s: Sys)
    requires Fits(p, s) && (s.phase.Mounted? || s.phase.Recovering?)
    ensures Step(p, s, FailRecovery, s.(phase := Normal(s.phase.active, false)))
  {
  }

  lemma BeginStep(p: Params, s: Sys)
    requires Fits(p, s) && s.phase.Mounted?
    ensures Step(p, s, BeginRecovery, s.(phase := Recovering(s.phase.active, s.phase.digest)))
  {
  }

  lemma EndStep(p: Params, s: Sys, n: nat)
    requires Fits(p, s) && (s.phase.Mounted? || s.phase.Recovering?) && n <= p.PayloadSize()
    requires p.Check(s.Dev(s.phase.active.Other()), n) == Some(s.phase.digest)
    ensures Step(p, s, if s.phase.Mounted? then KeepPeer(n) else EndRecovery(n),
                 s.(phase := Normal(s.phase.active, true)))
  {
  }

  /** The boot in which a check of n bytes accepts this side. */
  function BootEvent(side: Side, n: nat): Event {
    Boot(side.A?, side.B?, if side.A? then n else 0, if side.B? then n else 0)
  }

  lemma BootStep(p: Params, s: Sys, side: Side, n: nat, digest: Bytes)
    requires Fits(p, s) && s.phase == Down && n <= p.PayloadSize() && p.Check(s.Dev(side), n) == Some(digest)
    ensures Step(p, s, BootEvent(side, n), s.(phase := Mounted(side, digest)))
  {
    hide Params.Check;
  }

  lemma HashStep(p: Params, s: Sys, n: nat)
    requires Fits(p, s) && s.phase.Frozen? && n <= p.PayloadSize()
    ensures var d, s1 := s.Dev(s.phase.active), s.(phase := Hashing(s.phase.active, s.phase.cleared, []));
            && Step(p, s, BeginSeal, s1) && Fits(p, s1)
            && Step(p, s1, HashPiece(n), s1.(phase := Hashing(s.phase.active, s.phase.cleared, d[..n])))
  {
    var d := s.Dev(s.phase.active);
    assert [] + d[0..0 + n] == d[..n];
  }

  lemma FreezeStep(p: Params, s: Sys)
    requires Fits(p, s) && (s.phase.Normal? || Preparing(s.phase))
    ensures s.phase.Normal? ==> Step(p, s, Freeze, s.(phase := Frozen(s.phase.active, s.phase.cleared)))
    ensures Preparing(s.phase) ==>
              && Step(p, s, Retry, s.(phase := Frozen(s.phase.active, ClearedAfter(s.phase))))
              && Step(p, s, Reopen, s.(phase := Normal(s.phase.active, ClearedAfter(s.phase))))
  {
  }

  lemma PreparedStep(p: Params, s: Sys)
    requires Fits(p, s) && (s.phase.Sealed? || s.phase.Copying?) && s.a == s.b
    ensures Step(p, s, EndPrepare, s.(phase := Prepared(s.phase.active)))
  {
  }

  /** The bytes that an answer of n units moves. */
  function Transfer(n: nat, unit: nat, left: nat): nat { Min(n * unit, left) }

  lemma TransferIs(n: nat, unit: nat, left: nat)
    requires unit > 0 && left > 0 && Starts(unit, left)
    ensures n == 0 ==> Transfer(n, unit, left) == 0
    ensures n > 0 ==> 0 < Transfer(n, unit, left) <= left
    ensures Starts(unit, Transfer(n, unit, left)) && Starts(unit, left - Transfer(n, unit, left))
  {
    QuotientIs(n * unit, unit, n);
    if n > 0 { MultipleApart(n, unit); }
    QuotientOf(left, unit);
    if n * unit < left {
      assert (left / unit - n) * unit == left / unit * unit - n * unit;
      NonNegative(left / unit - n, unit);
      QuotientIs(left - n * unit, unit, left / unit - n);
    } else {
      QuotientIs(0, unit, 0);
    }
  }

  lemma NonNegative(k: int, unit: nat)
    requires unit > 0 && k * unit > 0
    ensures k > 0
  {
    MultipleApart(k, unit);
  }

  /** A piece of a copy in whole blocks holds the whole descriptor or none of it. */
  lemma AlignedPieceIsWhole(p: Params, s: Sys, logical: nat, at: nat, data: Bytes)
    requires Fits(p, s) && !s.phase.Down? && logical >= SIZE && Starts(logical, p.length)
    requires Starts(logical, at) && Starts(logical, at + |data|) && at + |data| <= p.length && data != []
    requires Holds(s.Dev(s.phase.active), at, data)
    ensures Whole(p, s, CopyPiece(at, data))
  {
    if at + |data| < p.length {
      BlockFits(logical, at + |data|, p.length);
    } else {
      BlockFits(logical, at, p.length);
      var d := s.Dev(s.phase.active);
      assert data[p.length - SIZE - at..] == d[p.length - SIZE..];
    }
  }

  /** The peer is being written. */
  ghost predicate Copies(s: Sys, target: Side) {
    !s.phase.Down? && target == s.phase.active.Other() && (s.phase.Recovering? || s.phase.Sealed? || s.phase.Copying?)
  }

  /** A write of a copy: whole blocks of the active device to the peer. */
  ghost predicate ToPeer(logical: nat, s: Sys, target: Side, data: Bytes, at: nat)
    requires logical > 0
  {
    Copies(s, target) && Starts(logical, at) && Starts(logical, |data|) && Holds(s.Dev(target.Other()), at, data)
  }

  /** `done` bytes of such a write are made since s0. */
  ghost predicate Written(p: Params, logical: nat, target: Side, data: Bytes, at: nat, done: nat, s0: Sys, s: Sys)
    requires logical > 0
  {
    && Fits(p, s0) && Fits(p, s) && logical >= SIZE && Starts(logical, p.length)
    && ToPeer(logical, s, target, data, at) && done <= |data| && at + |data| <= p.length && Starts(logical, done)
    && !s0.phase.Down?
    && s == s0.With(target, Splice(s0.Dev(target), at, data[..done]))
            .(phase := if done == 0 then s0.phase else PhaseAfter(s0.phase))
  }

  lemma NothingWritten(p: Params, logical: nat, target: Side, data: Bytes, at: nat, states: seq<Sys>,
                       events: seq<Event>, s: Sys)
    requires Recorded(p, states, events, s) && logical >= SIZE && Starts(logical, p.length)
    requires ToPeer(logical, s, target, data, at) && at + |data| <= p.length
    ensures Written(p, logical, target, data, at, 0, s, s) && Starts(logical, |data|)
  {
    StartOf(logical, 0);
    SpliceNone(s.Dev(target), at, data);
  }

  lemma PieceIsWhole(p: Params, s: Sys, logical: nat, target: Side, data: Bytes, at: nat, m: nat, count: nat)
    requires Fits(p, s) && logical >= SIZE && Starts(logical, p.length) && ToPeer(logical, s, target, data, at)
    requires Starts(logical, m) && Starts(logical, count) && 0 < count && m + count <= |data| && at + |data| <= p.length
    ensures Whole(p, s, CopyPiece(at + m, data[m..m + count])) && Starts(logical, m + count)
  {
    hide Starts, Whole, Holds;
    NextMultiple(logical, at, m);
    NextMultiple(logical, m, count);
    NextMultiple(logical, at + m, count);
    HoldsPart(s.Dev(s.phase.active), at, data, m, m + count);
    AlignedPieceIsWhole(p, s, logical, at + m, data[m..m + count]);
  }

  /** The state after count more bytes of a copy. */
  function PieceWritten(s: Sys, target: Side, data: Bytes, at: nat, m: nat, count: nat): Sys
    requires m + count <= |data| && at + m + count <= |s.Dev(target)| && !s.phase.Down?
  {
    s.With(target, Splice(s.Dev(target), at + m, data[m..m + count])).(phase := PhaseAfter(s.phase))
  }

  lemma PieceIsWritten(p: Params, s: Sys, logical: nat, target: Side, data: Bytes, at: nat, m: nat, count: nat, s0: Sys)
    requires logical > 0 && Written(p, logical, target, data, at, m, s0, s)
    requires 0 < count && m + count <= |data| && Starts(logical, m + count) && at + m + count <= |s.Dev(target)|
    ensures var s' := PieceWritten(s, target, data, at, m, count);
            Written(p, logical, target, data, at, m + count, s0, s') && Fits(p, s')
  {
    hide Starts, Splice, Holds;
    SpliceMore(s0.Dev(target), at, data, m, m + count);
  }

  lemma PieceIsStep(p: Params, s: Sys, target: Side, data: Bytes, at: nat, m: nat, count: nat)
    requires Fits(p, s) && Copies(s, target) && m + count <= |data| && at + m + count <= p.length
    ensures at + m + count <= |s.Dev(target)|
    ensures Step(p, s, CopyPiece(at + m, data[m..m + count]), PieceWritten(s, target, data, at, m, count))
  {
    hide Splice;
  }

  /** Writing count more bytes of a copy is a whole step of the protocol. */
  lemma PeerStep(p: Params, s: Sys, logical: nat, target: Side, data: Bytes, at: nat, m: nat, count: nat, s0: Sys)
    requires logical > 0 && Written(p, logical, target, data, at, m, s0, s)
    requires 0 < count && m + count <= |data| && Starts(logical, count)
    ensures at + m + count <= |s.Dev(target)| && Fits(p, s) && !s.phase.Down?
    ensures var e, s' := CopyPiece(at + m, data[m..m + count]), PieceWritten(s, target, data, at, m, count);
            && Written(p, logical, target, data, at, m + count, s0, s')
            && Fits(p, s') && Step(p, s, e, s') && Whole(p, s, e)
  {
    hide Step, Starts, Whole, Splice, Holds, PieceWritten;
    PieceIsWhole(p, s, logical, target, data, at, m, count);
    PieceIsStep(p, s, target, data, at, m, count);
    PieceIsWritten(p, s, logical, target, data, at, m, count, s0);
  }

  /** The first `offset` bytes are copied since s0. */
  ghost predicate Copied(p: Params, target: Side, offset: nat, s0: Sys, s: Sys) {
    && Fits(p, s0) && Fits(p, s) && Copies(s, target) && !s0.phase.Down?
    && s == s0.With(target, s.Dev(target)).(phase := s.phase)
    && (s.phase == s0.phase || s.phase == PhaseAfter(s0.phase))
    && SameStart(s.Dev(target), s.Dev(target.Other()), offset)
  }

  lemma NothingCopied(p: Params, logical: nat, target: Side, states: seq<Sys>, events: seq<Event>, s: Sys)
    requires Recorded(p, states, events, s) && Copies(s, target)
    requires logical > 0 && Starts(logical, p.length) && FOOTER % logical == 0
    ensures Copied(p, target, 0, s, s) && Starts(logical, 0) && Starts(logical, COPY_BUFFER)
  {
    BufferIsAligned(logical);
    StartOf(logical, 0);
  }

  lemma CopiedLess(p: Params, target: Side, offset: nat, s0: Sys, s: Sys)
    requires Copied(p, target, offset, s0, s)
    ensures Copied(p, target, 0, s0, s)
  {
  }

  lemma ReadyToWrite(p: Params, logical: nat, target: Side, offset: nat, s0: Sys, s: Sys,
                     source: Bytes, from: nat, active: Bytes, buffer: Bytes)
    requires Copied(p, target, offset, s0, s) && Holds(source, from, active) && active == s0.Dev(target.Other())
    requires logical > 0 && Starts(logical, offset) && Starts(logical, |buffer|) && offset + |buffer| <= p.length
    requires forall i :: 0 <= i < |buffer| ==> from + offset + i < |source| && buffer[i] == source[from + offset + i]
    ensures ToPeer(logical, s, target, buffer, offset)
  {
    ReadOfPartition(source, from, active, offset, buffer);
  }

  lemma WrittenIsCopied(p: Params, logical: nat, target: Side, offset: nat, s0: Sys, s: Sys, buffer: Bytes, done: nat,
                        s': Sys)
    requires Copied(p, target, offset, s0, s) && logical > 0 && Written(p, logical, target, buffer, offset, done, s, s')
    ensures Copied(p, target, offset, s0, s')
    ensures done == |buffer| ==> Copied(p, target, offset + |buffer|, s0, s')
  {
    HoldsPart(s.Dev(target.Other()), offset, buffer, 0, done);
    SameStartMore(s.Dev(target), s.Dev(target.Other()), offset, buffer[..done]);
    SameStartLess(s'.Dev(target), s'.Dev(target.Other()), offset + done, offset);
    hide SameStart, Splice, Starts, Holds;
    assert done == |buffer| ==> buffer[..done] == buffer;
  }

  lemma SameStartLess(d: Bytes, source: Bytes, m: nat, n: nat)
    requires SameStart(d, source, m) && n <= m
    ensures SameStart(d, source, n)
  {
  }

  ghost predicate EndsWith(all: seq<Event>, end: seq<Event>) {
    |end| <= |all| && all[|all| - |end|..] == end
  }

  /** The first n bytes of both are equal. */
  ghost predicate SameStart(d: Bytes, source: Bytes, n: nat) {
    n <= |d| && n <= |source| && forall i :: 0 <= i < n ==> d[i] == source[i]
  }

  lemma SameStartMore(d: Bytes, source: Bytes, n: nat, buffer: Bytes)
    requires SameStart(d, source, n) && |d| == |source| && Holds(source, n, buffer)
    ensures SameStart(Splice(d, n, buffer), source, n + |buffer|)
  {
    var r := Splice(d, n, buffer);
    forall i | 0 <= i < n + |buffer| ensures r[i] == source[i] {
      if i >= n { assert buffer[i - n] == source[n + (i - n)]; }
    }
  }

  lemma SameAll(d: Bytes, source: Bytes)
    requires |d| == |source| && SameStart(d, source, |d|)
    ensures d == source
  {
  }

  /** What was read from the disk at a partition is what the partition holds. */
  lemma ReadOfPartition(disk: Bytes, from: nat, d: Bytes, offset: nat, buffer: Bytes)
    requires Holds(disk, from, d) && offset + |buffer| <= |d|
    requires forall i :: 0 <= i < |buffer| ==> from + offset + i < |disk| && buffer[i] == disk[from + offset + i]
    ensures Holds(d, offset, buffer)
  {
    var x := d[offset..offset + |buffer|];
    forall i | 0 <= i < |buffer| ensures x[i] == buffer[i] {
      assert d[offset + i] == disk[from + (offset + i)];
    }
  }

  lemma RestIsAligned(logical: nat, left: nat, count: nat)
    requires logical > 0 && Starts(logical, left) && Starts(logical, count) && count <= left
    ensures Starts(logical, left - count)
  {
    QuotientOf(left, logical);
    QuotientOf(count, logical);
    var m, n := left / logical, count / logical;
    assert (m - n) * logical == m * logical - n * logical;
    if m < n { MultipleApart(m - n, logical); }
    QuotientIs(left - count, logical, m - n);
  }

  lemma BufferIsAligned(logical: nat)
    requires logical > 0 && FOOTER % logical == 0
    ensures Starts(logical, COPY_BUFFER)
  {
    QuotientOf(FOOTER, logical);
    var q := FOOTER / logical;
    assert (256 * q) * logical == 256 * (q * logical);
    QuotientIs(COPY_BUFFER, logical, 256 * q);
  }

  class Storage {
    const p: Params
    const logical: nat
    var a: Bytes
    var b: Bytes
    var answers: seq<Answer>
    var calls: seq<bool>
    var schedules: seq<seq<HashRing.Event>>
    /** The answers of all calls so far. */
    ghost var made: seq<bool>
    ghost var phase: Phase
    ghost var seals: set<Bytes>
    ghost var states: seq<Sys>
    ghost var events: seq<Event>

    ghost function Now(): Sys
      reads this`a, this`b, this`phase, this`seals
    {
      Sys(a, b, phase, seals)
    }

    /** open_target accepts the layout, logical blocks are at least 512 bytes, and
        the chunks of a hash can be counted in 32 bits. */
    ghost predicate Layout() {
      && FOOTER < p.length && logical >= 512 && FOOTER % logical == 0 && Starts(logical, p.length)
      && p.PayloadSize() <= CHUNK * (HashRing.WORD - 1)
    }

    ghost predicate Valid()
      reads this`a, this`b, this`phase, this`seals, this`states, this`events
    {
      Recorded(p, states, events, Now()) && Layout()
    }

    /** Every hash run that was relied on so far covered the whole payload. */
    ghost predicate Covered()
      reads this`states, this`events
    {
      AllCover(p, states, events)
    }

    ghost function CoveringRuns(): nat
      reads this`schedules
    {
      if FOOTER < p.length then Steady(schedules, p.PayloadSize()) else 0
    }

    constructor (p: Params, logical: nat, a: Bytes, b: Bytes, answers: seq<Answer>, calls: seq<bool>,
                 schedules: seq<seq<HashRing.Event>>, ghost seals: set<Bytes>)
      requires p.Good(a) || p.Good(b)
      requires p.IsDevice(a) && p.IsDevice(b) && logical >= 512 && FOOTER % logical == 0 && Starts(logical, p.length)
      requires FOOTER < p.length && p.PayloadSize() <= CHUNK * (HashRing.WORD - 1)
      ensures Valid() && Covered() && this.p == p && this.logical == logical && Now() == Sys(a, b, Down, seals)
      ensures this.answers == answers && this.calls == calls && this.schedules == schedules
      ensures states == [Now()] && events == []
    {
      this.p, this.logical, this.a, this.b := p, logical, a, b;
      this.answers, this.calls, this.schedules := answers, calls, schedules;
      made := [];
      phase, this.seals, states, events := Down, seals, [Sys(a, b, Down, seals)], [];
    }

    function Dev(side: Side): Bytes
      reads this`a, this`b
    {
      if side.A? then a else b
    }

    /** Note a step of the protocol that was just made. */
    ghost method Record(e: Event, s: Sys)
      requires Recorded(p, states, events, s) && Layout() && Step(p, s, e, Now()) && Fits(p, Now())
      requires Disciplined(s, e) && Whole(p, s, e)
      modifies this`states, this`events
      ensures Valid() && states == old(states) + [Now()] && events == old(events) + [e]
      ensures old(Covered()) && Covering(p, s, e) ==> Covered()
    {
      hide Step, Safe, Disciplined, Whole, Covering;
      RecordOne(p, states, events, s, e, Now());
      states, events := states + [Now()], events + [e];
    }

    /** A step that changes the phase only. */
    ghost method Go(e: Event, next: Phase)
      requires Valid() && !e.AppWrite? && !e.CopyPiece? && !e.WriteDescriptor?
      requires p.Valid() && p.IsDevice(a) && p.IsDevice(b) && Step(p, Now(), e, Now().(phase := next))
      modifies this`phase, this`states, this`events
      ensures Valid() && phase == next && events == old(events) + [e]
      ensures old(Covered()) && Covering(p, old(Now()), e) ==> Covered()
    {
      hide Recorded, Step, Covering;
      ghost var s := Now();
      phase := next;
      Record(e, s);
    }

    /** One system call other than pread and pwrite. */
    method Call() returns (ok: bool)
      modifies this`calls, this`made
      ensures Granted(calls) >= Granted(old(calls)) - 1
      ensures Granted(old(calls)) > 0 ==> ok
      ensures ok <==> old(calls) != [] && old(calls)[0]
      ensures ok ==> Took(old(calls), calls, 1)
      ensures made == old(made) + [ok]
    {
      ok := calls != [] && calls[0];
      if calls != [] { calls := calls[1..]; }
      made := made + [ok];
    }

    /** One pread or pwrite of pread_full and pwrite_full, again while it is
        interrupted; zero stands for an error and for no progress. */
    method Move(unit: nat, left: nat) returns (count: nat)
      requires unit > 0 && left > 0 && Starts(unit, left)
      modifies this`answers
      ensures count <= left && Starts(unit, count) && Starts(unit, left - count)
      ensures Supply(answers) >= Supply(old(answers)) - 1
      ensures Supply(old(answers)) > 0 ==> count > 0
    {
      StartOf(unit, 0);
      hide Starts, Transfer;
      while answers != []
        invariant Supply(answers) >= Supply(old(answers))
        decreases |answers|
      {
        var answer := answers[0];
        answers := answers[1..];
        match answer {
          case Interrupted =>
          case Refused => return 0;
          case Moved(n) =>
            TransferIs(n, unit, left);
            return Transfer(n, unit, left);
        }
      }
      count := 0;
    }

    /** pread_full */
    method PreadFull(dev: Bytes, length: nat, offset: nat) returns (ok: bool, buffer: Bytes)
      modifies this`answers
      ensures ok ==> |buffer| == length
      ensures ok ==> forall i :: 0 <= i < length ==> offset + i < |dev| && buffer[i] == dev[offset + i]
      ensures Supply(answers) >= Supply(old(answers)) - length
      ensures offset + length <= |dev| && Supply(old(answers)) >= length ==> ok
    {
      hide Supply;
      buffer := [];
      while |buffer| < length
        invariant |buffer| <= length && (buffer != [] ==> offset + |buffer| <= |dev|)
        invariant forall i :: 0 <= i < |buffer| ==> buffer[i] == dev[offset + i]
        invariant Supply(answers) >= Supply(old(answers)) - |buffer|
      {
        var from := offset + |buffer|;
        if from >= |dev| { return false, buffer; }
        var count := Move(1, Min(length - |buffer|, |dev| - from));
        if count == 0 { return false, buffer; }
        buffer := buffer + dev[from..from + count];
      }
      ok := true;
    }

    /** The write that ends a seal. */
    ghost predicate ToDescriptor(target: Side, data: Bytes, offset: nat)
      reads this`phase
    {
      && p.Valid() && phase.Hashing? && target == phase.active
      && offset == p.length - SIZE && data == Encode(p.hash(phase.seen), p.PayloadSize())
    }

    /** One successful pwrite of a copy. */
    method PwritePeer(target: Side, data: Bytes, offset: nat, done: nat, count: nat, ghost s0: Sys)
      requires Valid() && logical > 0 && Written(p, logical, target, data, offset, done, s0, Now())
      requires 0 < count && done + count <= |data| && Starts(logical, count)
      modifies this`a, this`b, this`phase, this`states, this`events
      ensures Valid() && Written(p, logical, target, data, offset, done + count, s0, Now())
      ensures old(Covered()) ==> Covered()
    {
      ghost var s, piece := Now(), data[done..done + count];
      PeerStep(p, s, logical, target, data, offset, done, count, s0);
      hide Recorded, Step, Splice, Starts, Whole, AllCover, Written, Fits;
      var device := Splice(Dev(target), offset + done, data[done..done + count]);
      if target.A? { a := device; } else { b := device; }
      phase := PhaseAfter(phase);
      Record(CopyPiece(offset + done, piece), s);
    }

    /** The successful pwrite of a descriptor. */
    method PwriteDescriptor(target: Side, data: Bytes, offset: nat)
      requires Valid() && ToDescriptor(target, data, offset)
      modifies this`a, this`b, this`phase, this`seals, this`states, this`events
      ensures Valid() && offset + |data| <= |old(Dev(target))| && Dev(target) == Splice(old(Dev(target)), offset, data)
      ensures Dev(target.Other()) == old(Dev(target.Other()))
      ensures phase == Sealed(old(phase).active, old(phase).cleared)
      ensures old(Covered()) && |old(phase).seen| == p.PayloadSize() ==> Covered()
    {
      ghost var s := Now();
      RecordedFits(p, states, events, s);
      hide Recorded, Step, Encode;
      ghost var before := Dev(target);
      SpliceNone(before, offset, data);
      DescriptorStep(p, s, 0, SIZE, before);
      assert data[..SIZE] == data;
      var device := Splice(Dev(target), offset, data);
      if target.A? { a := device; } else { b := device; }
      phase, seals := Sealed(phase.active, phase.cleared), seals + {phase.seen};
      Record(WriteDescriptor(SIZE), s);
    }

    lemma BeginWrite(target: Side, data: Bytes, offset: nat)
      requires Valid() && logical > 0 && ToPeer(logical, Now(), target, data, offset) && offset + |data| <= p.length
      ensures Written(p, logical, target, data, offset, 0, Now(), Now()) && Starts(logical, |data|)
    {
      hide Recorded;
      NothingWritten(p, logical, target, data, offset, states, events, Now());
    }

    lemma BeginCopy(target: Side, source: Bytes, from: nat)
      requires Valid() && Copies(Now(), target) && Holds(source, from, Dev(target.Other()))
      ensures Copied(p, target, 0, Now(), Now()) && Now().Dev(target.Other()) == Dev(target.Other())
      ensures logical > 0 && Starts(logical, 0) && Starts(logical, p.length) && Starts(logical, COPY_BUFFER)
      ensures COPY_BUFFER > 0 && from + p.length <= |source|
    {
      hide Recorded;
      NothingCopied(p, logical, target, states, events, Now());
    }

    /** pwrite_full in a copy: some first blocks of the data are written, all of
        them exactly on success. */
    method PwriteFull(target: Side, data: Bytes, offset: nat) returns (ok: bool, ghost done: nat)
      requires Valid() && logical > 0 && ToPeer(logical, Now(), target, data, offset)
      requires data != [] && offset + |data| <= p.length
      modifies this`a, this`b, this`answers, this`phase, this`states, this`events
      ensures Valid() && Written(p, logical, target, data, offset, done, old(Now()), Now()) && (ok <==> done == |data|)
      ensures old(Covered()) ==> Covered()
      ensures Supply(answers) >= Supply(old(answers)) - |data|
      ensures Supply(old(answers)) >= |data| ==> ok
    {
      hide *;
      BeginWrite(target, data, offset);
      var moved: nat, left: nat := 0, |data|;
      done := 0;
      while left > 0
        invariant done == moved && moved + left == |data| && Valid()
        invariant Written(p, logical, target, data, offset, moved, old(Now()), Now()) && Starts(logical, left)
        invariant old(Covered()) ==> Covered()
        invariant Supply(answers) >= Supply(old(answers)) - moved
      {
        var count := Move(logical, left);
        if count == 0 { return false, done; }
        PwritePeer(target, data, offset, moved, count, old(Now()));
        moved, left := moved + count, left - count;
        done := moved;
      }
      ok := true;
    }

    /** pwrite_full of a descriptor */
    method PwriteFullDescriptor(target: Side, data: Bytes, offset: nat) returns (ok: bool)
      requires Valid() && ToDescriptor(target, data, offset)
      modifies this`a, this`b, this`answers, this`phase, this`seals, this`states, this`events
      ensures Valid() && Dev(target.Other()) == old(Dev(target.Other()))
      ensures ok ==> offset + |data| <= |old(Dev(target))| && Dev(target) == Splice(old(Dev(target)), offset, data)
      ensures ok ==> phase == Sealed(old(phase).active, old(phase).cleared)
      ensures !ok ==> Now() == old(Now())
      ensures old(Covered()) && |old(phase).seen| == p.PayloadSize() ==> Covered()
      ensures Supply(answers) >= Supply(old(answers)) - 1
      ensures Supply(old(answers)) >= 1 ==> ok
    {
      hide Recorded, Splice, AllCover, Starts;
      assert Starts(SIZE, SIZE) by { StartOf(SIZE, SIZE); }
      var count := Move(SIZE, |data|);
      ok := count > 0;
      if ok { PwriteDescriptor(target, data, offset); }
    }

    /** The loop of copy_block_range_from_target. */
    method CopyLoop(target: Side, source: Bytes, from: nat) returns (ok: bool)
      requires Valid() && Copies(Now(), target) && Holds(source, from, Dev(target.Other()))
      modifies this`a, this`b, this`answers, this`phase, this`states, this`events
      ensures Valid() && Copied(p, target, if ok then p.length else 0, old(Now()), Now())
      ensures old(Covered()) ==> Covered()
      ensures Supply(answers) >= Supply(old(answers)) - 2 * p.length
      ensures Supply(old(answers)) >= 2 * p.length ==> ok
    {
      hide *;
      BeginCopy(target, source, from);
      ghost var s0, active := Now(), Dev(target.Other());
      var offset: nat, left: nat := 0, p.length;
      while left > 0
        invariant offset + left == p.length && Valid() && Copied(p, target, offset, s0, Now())
        invariant Starts(logical, offset) && Starts(logical, left)
        invariant old(Covered()) ==> Covered()
        invariant Supply(answers) >= Supply(old(answers)) - 2 * offset
      {
        var count: nat := if left < COPY_BUFFER then left else COPY_BUFFER;
        var buffer;
        ok, buffer := PreadFull(source, count, from + offset);
        if !ok {
          CopiedLess(p, target, offset, s0, Now());
          return;
        }
        ghost var s := Now();
        ReadyToWrite(p, logical, target, offset, s0, s, source, from, active, buffer);
        ghost var done;
        ok, done := PwriteFull(target, buffer, offset);
        WrittenIsCopied(p, logical, target, offset, s0, s, buffer, done, Now());
        if !ok {
          CopiedLess(p, target, offset, s0, Now());
          return;
        }
        NextMultiple(logical, offset, count);
        RestIsAligned(logical, left, count);
        offset, left := offset + count, left - count;
      }
      ok := true;
    }

    lemma CopyEnds(target: Side, s0: Sys, done: bool)
      requires Valid() && Copied(p, target, if done then p.length else 0, s0, Now())
      ensures Dev(target.Other()) == s0.Dev(target.Other()) && seals == s0.seals
      ensures !s0.phase.Down? && (phase == s0.phase || phase == PhaseAfter(s0.phase))
      ensures done ==> Dev(target) == Dev(target.Other())
    {
      if done { SameAll(Dev(target), Dev(target.Other())); }
    }

    /** copy_block_range_from_target; the destination is the whole peer, and the
        source range is the active device, read directly or through its disk. */
    method CopyRange(target: Side, source: Bytes, from: nat, length: nat, sourceLogical: nat) returns (ok: bool)
      requires Valid() && Copies(Now(), target) && sourceLogical > 0
      requires length == p.length && from + length <= |source| ==> Holds(source, from, Dev(target.Other()))
      modifies this`a, this`b, this`answers, this`calls, this`made, this`phase, this`states, this`events
      ensures Valid() && Dev(target.Other()) == old(Dev(target.Other())) && (old(Covered()) ==> Covered())
      ensures !old(phase).Down? && (phase == old(phase) || phase == PhaseAfter(old(phase)))
      ensures ok ==> length == p.length && from + length <= |source| && Dev(target) == Dev(target.Other())
      ensures ok ==> Took(old(calls), calls, 3)
      ensures ok ==> from % sourceLogical == 0 && length % sourceLogical == 0
      ensures Supply(answers) >= Supply(old(answers)) - 2 * p.length && Granted(calls) >= Granted(old(calls)) - 3
      ensures (&& length == p.length && from + length <= |source| && from % sourceLogical == length % sourceLogical == 0
               && Supply(old(answers)) >= 2 * p.length && Granted(old(calls)) >= 3) ==> ok
    {
      assert Starts(logical, p.length) && FOOTER < p.length && logical > 0;
      assert !phase.Down?;
      hide Recorded, Copied, SameStart, Copies, Holds, Layout, Supply, Granted, AllCover, Dev, Took;
      if length == 0 || from > |source| || length > |source| - from { return false; }
      var open := Call();
      if !open { return false; }
      ghost var c1 := calls;
      if p.length != length || from % sourceLogical != 0 || length % sourceLogical != 0 || length % logical != 0 {
        return false;
      }
      var memory := Call();
      if !memory { return false; }
      ghost var c2 := calls;
      TookMore(old(calls), c1, c2, 1, 1);
      ghost var s0 := Now();
      ok := CopyLoop(target, source, from);
      CopyEnds(target, s0, ok);
      if ok { ok := Call(); }
      if ok { TookMore(old(calls), c2, calls, 2, 1); }
    }

    /** hash_sha256_fd on the payload, by the next schedule of its two threads.
        `cover` is how much of the payload was hashed: all of it exactly when the
        hasher loaded the last tail after the last publish. */
    method HashFd(dev: Bytes) returns (ok: bool, digest: Bytes, ghost cover: nat)
      requires Layout() && p.Valid() && |dev| == p.length
      modifies this`calls, this`made, this`schedules
      ensures ok ==> cover <= p.PayloadSize() && digest == p.hash(dev[..cover])
      ensures ok ==>
                && old(schedules) != []
                && (cover == p.PayloadSize() <==>
                      HashRing.EndsInTime(HashRing.Job(p.Payload(dev), CHUNK), old(schedules)[0]))
      ensures ok <==>
                && old(calls) != [] && old(calls)[0] && old(schedules) != []
                && HashRing.Ends(HashRing.Job(p.Payload(dev), CHUNK), old(schedules)[0])
                && HashRing.Untroubled(HashRing.Job(p.Payload(dev), CHUNK), old(schedules)[0])
      ensures ok ==> Took(old(calls), calls, 1)
      ensures Granted(calls) >= Granted(old(calls)) - 1 && CoveringRuns() >= old(CoveringRuns()) - 1
      ensures ok && old(CoveringRuns()) > 0 ==> cover == p.PayloadSize()
      ensures Granted(old(calls)) > 0 && old(CoveringRuns()) > 0 ==> ok
    {
      digest, cover := [], 0;
      ok := Call();
      if !ok { return; }
      if schedules == [] { return false, [], 0; }
      var schedule := schedules[0];
      schedules := schedules[1..];
      var input := HashRing.HashInput(HashRing.Job(p.Payload(dev), CHUNK), schedule);
      if input.None? { return false, [], 0; }
      ok, digest, cover := true, p.hash(input.value), |input.value|;
      assert input.value == dev[..cover];
    }

    lemma Fitting()
      requires Valid()
      ensures p.Valid() && p.IsDevice(a) && p.IsDevice(b) && Fits(p, Now()) && Layout()
      ensures 4096 < p.length && p.PayloadSize() == p.length - 4096
    {
      RecordedFits(p, states, events, Now());
    }

    lemma FittingSide(side: Side)
      requires p.IsDevice(a) && p.IsDevice(b)
      ensures p.IsDevice(Dev(side)) && |Dev(side)| == p.length && SIZE == 128
    {
    }

    /** read_descriptor */
    method ReadDescriptor(d: Bytes) returns (ok: bool, digest: Option<Bytes>)
      requires p.Valid() && p.IsDevice(d)
      modifies this`answers, this`calls, this`made
      ensures ok ==> digest == p.DigestOf(d) && Took(old(calls), calls, 2)
      ensures Supply(answers) >= Supply(old(answers)) - SIZE && Granted(calls) >= Granted(old(calls)) - 2
      ensures Supply(old(answers)) >= SIZE && Granted(old(calls)) >= 2 ==> ok
    {
      hide Read, Supply, Granted, Took;
      digest := None;
      ok := Call();
      if !ok { return; }
      var raw;
      ghost var mid := calls;
      ok, raw := PreadFull(d, SIZE, p.length - SIZE);
      var restored := Call();
      if !restored || !ok { return false, None; }
      TookMore(old(calls), mid, calls, 1, 1);
      assert raw == d[p.length - SIZE..];
      digest := Validate(raw, p.PayloadSize());
    }

    /** powerctl_verify_path_digest: a device is accepted exactly when its
        descriptor holds the hash of the bytes that the hash run covered. */
    method VerifyPath(side: Side) returns (r: Exit, digest: Bytes, ghost cover: nat)
      requires Valid()
      modifies this`answers, this`calls, this`made, this`schedules
      ensures p.Valid() && p.IsDevice(Dev(side)) && cover <= p.PayloadSize()
      ensures r != IoError ==> (r == Ok <==> p.Check(Dev(side), cover).Some?)
      ensures r != IoError ==> (r == MetadataInvalid <==> p.DigestOf(Dev(side)).None?)
      ensures r == Ok ==> p.Check(Dev(side), cover) == Some(digest)
      ensures r == Ok ==> Describes(Dev(side)[p.length - 128..], p.hash(Dev(side)[..cover]), p.length - 4096)
      ensures r == Ok ==> Took(old(calls), calls, 4)
      ensures !Holds64(Dev(side)[p.length - 104..p.length - 96], p.length - 4096) ==> r != Ok
      ensures Supply(answers) >= Supply(old(answers)) - SIZE && Granted(calls) >= Granted(old(calls)) - 4
      ensures CoveringRuns() >= old(CoveringRuns()) - 1
      ensures old(CoveringRuns()) > 0 ==> cover == p.PayloadSize()
      ensures Supply(old(answers)) >= SIZE && Granted(old(calls)) >= 4 && old(CoveringRuns()) > 0 ==> r != IoError
    {
      hide *;
      Fitting();
      FittingSide(side);
      cover := p.PayloadSize();
      var d := Dev(side);
      var ok := Call();
      if !ok { return IoError, [], cover; }
      var expected;
      ghost var c1 := calls;
      ok, expected := ReadDescriptor(d);
      if !ok { return IoError, [], cover; }
      ghost var c2 := calls;
      TookMore(old(calls), c1, c2, 1, 2);
      CheckIs(p, d, cover, expected);
      if expected.None? { return MetadataInvalid, [], cover; }
      ghost var n;
      ok, digest, n := HashFd(d);
      if !ok { return IoError, [], cover; }
      cover := n;
      TookMore(old(calls), c2, calls, 3, 1);
      CheckIs(p, d, cover, expected);
      r := if digest == expected.value then Ok else HashMismatch;
      if r == Ok { CheckDescribes(p, d, cover); }
    }

    /** A write of the file system to the mounted device. */
    method AppWrite(active: Side, at: nat, data: Bytes)
      requires Valid() && phase == Normal(active, true) && at + |data| <= p.length - FOOTER
      modifies this`a, this`b, this`states, this`events
      ensures Valid() && at + |data| <= |old(Dev(active))| && Dev(active) == Splice(old(Dev(active)), at, data)
      ensures Dev(active.Other()) == old(Dev(active.Other())) && (old(Covered()) ==> Covered())
    {
      hide Recorded, AllCover, Splice;
      Fitting();
      ghost var s := Now();
      var device := Splice(Dev(active), at, data);
      if active.A? { a := device; } else { b := device; }
      Record(AbProtocol.AppWrite(at, data), s);
    }

    lemma FrozenIs(active: Side, cleared: bool)
      ensures Preparing(Frozen(active, cleared)) && ClearedAfter(Frozen(active, cleared)) == cleared
    {
    }

    ghost method GoHashing(active: Side, cleared: bool, n: nat)
      requires Valid() && p.Valid() && p.IsDevice(Dev(active)) && phase == Frozen(active, cleared)
      requires n <= p.PayloadSize()
      modifies this`phase, this`states, this`events
      ensures Valid() && phase == Hashing(active, cleared, Dev(active)[..n]) && (old(Covered()) ==> Covered())
    {
      Fitting();
      HashStep(p, Now(), n);
      hide Recorded, Step, AllCover, Layout;
      Go(BeginSeal, Hashing(active, cleared, []));
      Go(HashPiece(n), Hashing(active, cleared, Dev(active)[..n]));
    }

    /** powerctl_seal_block_device on the frozen device */
    method Seal(active: Side, ghost cleared: bool) returns (ok: bool, ghost cover: nat)
      requires Valid() && phase == Frozen(active, cleared)
      modifies this`a, this`b, this`answers, this`calls, this`made, this`schedules, this`phase, this`seals, this`states,
               this`events
      ensures Valid() && Preparing(phase) && phase.active == active && ClearedAfter(phase) == cleared
      ensures p.Valid() && p.IsDevice(old(Dev(active))) && p.IsDevice(Dev(active)) && cover <= p.PayloadSize()
      ensures Dev(active.Other()) == old(Dev(active.Other())) && p.Payload(Dev(active)) == p.Payload(old(Dev(active)))
      ensures ok ==> phase == Sealed(active, cleared) && Dev(active) == SealedAs(p, old(Dev(active)), cover)
      ensures ok ==> Took(old(calls), calls, 5)
      ensures ok ==> Describes(Dev(active)[p.length - 128..], p.hash(old(Dev(active))[..cover]), p.length - 4096)
      ensures ok ==> Holds64(Dev(active)[p.length - 104..p.length - 96], p.length - 4096)
      ensures old(CoveringRuns()) > 0 ==> cover == p.PayloadSize() == p.length - 4096
      ensures old(Covered()) && old(CoveringRuns()) > 0 ==> Covered()
      ensures Supply(answers) >= Supply(old(answers)) - 1 && Granted(calls) >= Granted(old(calls)) - 5
      ensures CoveringRuns() >= old(CoveringRuns()) - 1
      ensures Supply(old(answers)) >= 1 && Granted(old(calls)) >= 5 && old(CoveringRuns()) > 0 ==> ok
    {
      hide *;
      Fitting();
      FittingSide(active);
      FrozenIs(active, cleared);
      cover := p.PayloadSize();
      var d := Dev(active);
      ok := Call();
      if !ok { return; }
      ghost var n, c1 := 0, calls;
      var digest;
      ok, digest, n := HashFd(d);
      if !ok { return; }
      ghost var c2 := calls;
      TookMore(old(calls), c1, c2, 1, 1);
      cover := n;
      GoHashing(active, cleared, cover);
      ok := WriteDescriptorOf(active, cleared, cover, digest);
      if ok { TookMore(old(calls), c2, calls, 2, 3); }
    }

    /** write_descriptor */
    method WriteDescriptorOf(active: Side, ghost cleared: bool, ghost cover: nat, digest: Bytes) returns (ok: bool)
      requires Valid() && p.Valid() && p.IsDevice(Dev(active)) && cover <= p.PayloadSize()
      requires phase == Hashing(active, cleared, Dev(active)[..cover]) && digest == p.hash(Dev(active)[..cover])
      modifies this`a, this`b, this`answers, this`calls, this`made, this`phase, this`seals, this`states, this`events
      ensures Valid() && Preparing(phase) && phase.active == active && ClearedAfter(phase) == cleared
      ensures Dev(active.Other()) == old(Dev(active.Other()))
      ensures p.IsDevice(Dev(active)) && p.Payload(Dev(active)) == p.Payload(old(Dev(active)))
      ensures ok ==> phase == Sealed(active, cleared) && Dev(active) == SealedAs(p, old(Dev(active)), cover)
      ensures ok ==> Took(old(calls), calls, 3)
      ensures ok ==> Describes(Dev(active)[p.length - 128..], digest, p.length - 4096)
      ensures ok ==> Holds64(Dev(active)[p.length - 104..p.length - 96], p.length - 4096)
      ensures old(Covered()) && cover == p.PayloadSize() ==> Covered()
      ensures Supply(answers) >= Supply(old(answers)) - 1 && Granted(calls) >= Granted(old(calls)) - 3
      ensures Supply(old(answers)) >= 1 && Granted(old(calls)) >= 3 ==> ok
    {
      hide Recorded, Encode, Splice, AllCover, Supply, Granted, Describes, Holds64, Took;
      var raw := Build(digest, p.PayloadSize());
      ok := Call();
      if !ok { return; }
      ghost var d, c1 := Dev(active), calls;
      ok := PwriteFullDescriptor(active, raw, p.length - SIZE);
      if ok {
        p.StampKeepsPayload(d, digest, SIZE);
        assert Encode(digest, p.PayloadSize())[..SIZE] == raw;
        assert Dev(active) == SealedAs(p, d, cover);
        SealedDescribes(p, d, cover);
      }
      var restored := Call();
      if !restored || !ok { return false; }
      ghost var c2 := calls;
      ok := Call();
      if ok {
        TookMore(old(calls), c1, c2, 1, 1);
        TookMore(old(calls), c2, calls, 2, 1);
      }
    }

    // ----- steps of the phase -----

    ghost method GoBoot(side: Side, n: nat, digest: Bytes)
      requires Valid() && phase == Down && p.Valid() && p.IsDevice(Dev(side)) && n <= p.PayloadSize()
      requires p.Check(Dev(side), n) == Some(digest)
      modifies this`phase, this`states, this`events
      ensures Valid() && phase == Mounted(side, digest) && events == old(events) + [BootEvent(side, n)]
      ensures old(Covered()) && n == p.PayloadSize() ==> Covered()
    {
      Fitting();
      BootStep(p, Now(), side, n, digest);
      hide Recorded, Step, AllCover, Layout, Params.Check;
      Go(BootEvent(side, n), Mounted(side, digest));
    }

    /** The power goes, or the volume is unmounted. */
    method PowerOff()
      requires Valid()
      modifies this`phase, this`states, this`events
      ensures Valid() && phase == Down && events == old(events) + [Stop] && (old(Covered()) ==> Covered())
    {
      Fitting();
      hide Recorded, AllCover, Layout;
      Go(Stop, Down);
    }

    ghost method GoEnd(active: Side, n: nat, digest: Bytes)
      requires Valid() && (phase == Mounted(active, digest) || phase == Recovering(active, digest))
      requires p.Valid() && p.IsDevice(Dev(active.Other())) && n <= p.PayloadSize()
      requires p.Check(Dev(active.Other()), n) == Some(digest)
      modifies this`phase, this`states, this`events
      ensures Valid() && phase == Normal(active, true)
      ensures events == old(events) + [if old(phase).Mounted? then KeepPeer(n) else EndRecovery(n)]
      ensures old(Covered()) && n == p.PayloadSize() ==> Covered()
    {
      Fitting();
      EndStep(p, Now(), n);
      hide Recorded, Step, AllCover, Layout, Params.Check;
      Go(if phase.Mounted? then KeepPeer(n) else EndRecovery(n), Normal(active, true));
    }

    ghost method GoFail(active: Side, digest: Bytes)
      requires Valid() && (phase == Mounted(active, digest) || phase == Recovering(active, digest))
      modifies this`phase, this`states, this`events
      ensures Valid() && phase == Normal(active, false) && (old(Covered()) ==> Covered())
    {
      Fitting();
      FailStep(p, Now());
      hide Recorded, Step, AllCover, Layout;
      Go(FailRecovery, Normal(active, false));
    }

    ghost method GoRecover(active: Side, digest: Bytes)
      requires Valid() && phase == Mounted(active, digest)
      modifies this`phase, this`states, this`events
      ensures Valid() && phase == Recovering(active, digest) && (old(Covered()) ==> Covered())
    {
      Fitting();
      BeginStep(p, Now());
      hide Recorded, Step, AllCover, Layout;
      Go(BeginRecovery, Recovering(active, digest));
    }

    /** Frozen anew, or opened again. */
    ghost method GoFreeze(active: Side, freeze: bool) returns (cleared: bool)
      requires Valid() && (phase.Normal? || Preparing(phase)) && phase.active == active
      modifies this`phase, this`states, this`events
      ensures Valid() && phase == if freeze then Frozen(active, cleared) else Normal(active, cleared)
      ensures cleared == if old(phase).Normal? then old(phase).cleared else ClearedAfter(old(phase))
      ensures old(Covered()) ==> Covered()
    {
      Fitting();
      FreezeStep(p, Now());
      hide Recorded, Step, AllCover, Layout;
      cleared := if phase.Normal? then phase.cleared else ClearedAfter(phase);
      if freeze {
        Go(if phase.Normal? then Freeze else Retry, Frozen(active, cleared));
      } else if Preparing(phase) {
        Go(Reopen, Normal(active, cleared));
      }
    }

    ghost method GoPrepared(active: Side)
      requires Valid() && (phase.Sealed? || phase.Copying?) && phase.active == active && a == b
      modifies this`phase, this`states, this`events
      ensures Valid() && phase == Prepared(active) && (old(Covered()) ==> Covered())
    {
      Fitting();
      PreparedStep(p, Now());
      hide Recorded, Step, AllCover, Layout;
      Go(EndPrepare, Prepared(active));
    }

    // ----- the commands -----

    /** What mount_partition chooses when every hash run covers the payload. */
    ghost function FirstGood(): Option<(Side, Bytes)>
      reads this`a, this`b
      requires p.Valid() && p.IsDevice(a) && p.IsDevice(b)
    {
      Choice(p, Sys(a, b, Down, {}), true, true, p.PayloadSize(), p.PayloadSize())
    }

    lemma FirstGoodIs()
      requires p.Valid() && p.IsDevice(a) && p.IsDevice(b)
      ensures var full := p.PayloadSize();
              FirstGood() == if p.Check(a, full).Some? then Some((A, p.Check(a, full).value))
                             else if p.Check(b, full).Some? then Some((B, p.Check(b, full).value))
                             else None
      ensures SIZE == 128 && Dev(A) == a && Dev(B) == b
      ensures p.Good(a) <==> p.Check(a, p.PayloadSize()).Some?
      ensures p.Good(b) <==> p.Check(b, p.PayloadSize()).Some?
    {
    }

    /** The turn of one candidate in mount_partition; it ends the search when the
        device is accepted and mounts. */
    method TryMount(side: Side) returns (done: bool, r: Exit, digest: Bytes, ghost cover: nat)
      requires Valid() && phase == Down
      modifies this`answers, this`calls, this`made, this`schedules, this`phase, this`states, this`events
      ensures Valid() && p.Valid() && p.IsDevice(Dev(side)) && cover <= p.PayloadSize()
      ensures !done ==> phase == Down && states == old(states) && events == old(events)
      ensures done && r != Ok ==> phase == Down
      ensures done && r == Ok ==> phase == Mounted(side, digest) && p.Check(Dev(side), cover) == Some(digest)
      ensures done && r == Ok ==> events == old(events) + [BootEvent(side, cover)] && Took(old(calls), calls, 7)
      ensures old(CoveringRuns()) > 0 ==> cover == p.PayloadSize() && (old(Covered()) ==> Covered())
      ensures Supply(answers) >= Supply(old(answers)) - SIZE && CoveringRuns() >= old(CoveringRuns()) - 1
      ensures Granted(calls) >= Granted(old(calls)) - if done then 7 else 5
      ensures Supply(old(answers)) >= SIZE && Granted(old(calls)) >= 7 && old(CoveringRuns()) > 0 ==>
                && (done <==> p.Check(Dev(side), p.PayloadSize()).Some?)
                && (done ==> r == Ok && p.Check(Dev(side), p.PayloadSize()) == Some(digest))
    {
      hide *;
      done := false;
      r, digest, cover := VerifyPath(side);
      if r == Ok {
        ghost var c1 := calls;
        done := Call();
        if done {
          ghost var c2 := calls;
          TookMore(old(calls), c1, c2, 4, 1);
          GoBoot(side, cover, digest);
          r := Announce();
          if r == Ok { TookMore(old(calls), c2, calls, 5, 2); }
        }
      }
    }

    /** mount_partition.  It mounts a device that its check accepts; with nothing
        refused and covering hash runs, the first one that verifies. */
    method Mount() returns (r: Exit, active: Side, digest: Bytes, ghost cover: nat)
      requires Valid() && phase == Down
      modifies this`answers, this`calls, this`made, this`schedules, this`phase, this`states, this`events
      ensures Valid() && p.Valid() && p.IsDevice(a) && p.IsDevice(b) && cover <= p.PayloadSize()
      ensures p.IsDevice(Dev(active))
      ensures r == Ok ==> phase == Mounted(active, digest) && p.Check(Dev(active), cover) == Some(digest)
      ensures r == Ok ==> events == old(events) + [BootEvent(active, cover)]
      ensures r != Ok ==> phase == Down
      ensures old(CoveringRuns()) >= 2 ==> cover == p.PayloadSize()
      ensures old(Covered()) && old(CoveringRuns()) >= 2 ==> Covered()
      ensures Supply(answers) >= Supply(old(answers)) - 2 * SIZE && Granted(calls) >= Granted(old(calls)) - 15
      ensures CoveringRuns() >= old(CoveringRuns()) - 2
      ensures Supply(old(answers)) >= 2 * SIZE && Granted(old(calls)) >= 15 && old(CoveringRuns()) >= 2 ==>
                if FirstGood().Some? then r == Ok && FirstGood() == Some((active, digest)) else r == MetadataInvalid
      ensures Supply(old(answers)) >= 2 * SIZE && Granted(old(calls)) >= 15 && old(CoveringRuns()) >= 2 ==>
                (r == Ok <==> p.Good(a) || p.Good(b)) && (r == Ok ==> (active == A <==> p.Good(a)))
    {
      hide *;
      Fitting();
      FirstGoodIs();
      cover := p.PayloadSize();
      active, digest := A, [];
      var ok := Call();
      if !ok { return IoError, A, [], cover; }
      ok := Call();
      if !ok { return IoError, A, [], cover; }
      ok := Call();
      if !ok { return IoError, A, [], cover; }
      for index: nat := 0 to 2
        invariant Valid() && phase == Down && active == A && cover == p.PayloadSize()
        invariant a == old(a) && b == old(b) && states == old(states) && events == old(events)
        invariant Supply(answers) >= Supply(old(answers)) - index * SIZE
        invariant CoveringRuns() >= old(CoveringRuns()) - index
        invariant Granted(calls) >= Granted(old(calls)) - 3 - 5 * index
        invariant Supply(old(answers)) >= 2 * SIZE && Granted(old(calls)) >= 15 && old(CoveringRuns()) >= 2 ==>
                    && (index > 0 ==> p.Check(a, p.PayloadSize()).None?)
                    && (index > 1 ==> p.Check(b, p.PayloadSize()).None?)
      {
        var candidate := if index == 0 then A else B;
        var e, d;
        ghost var n;
        ok, e, d, n := TryMount(candidate);
        if ok { return e, candidate, d, n; }
      }
      r := MetadataInvalid;
    }

    /** The end of mount_partition; on an error the volume is unmounted again. */
    method Announce() returns (r: Exit)
      requires Valid()
      modifies this`calls, this`made, this`phase, this`states, this`events
      ensures Valid() && phase == (if r == Ok then old(phase) else Down) && (old(Covered()) ==> Covered())
      ensures r == Ok ==> events == old(events) && Took(old(calls), calls, 2)
      ensures Granted(calls) >= Granted(old(calls)) - 2
      ensures Granted(old(calls)) >= 2 ==> r == Ok
    {
      hide *;
      var memory := Call();
      if !memory {
        PowerOff();
        return NoMemory;
      }
      ghost var c1 := calls;
      var notified := Call();
      if !notified {
        PowerOff();
        return IoError;
      }
      TookMore(old(calls), c1, calls, 1, 1);
      r := Ok;
    }

    lemma ReadyToCopy(active: Side, digest: Bytes, front: Bytes, back: Bytes)
      requires Valid() && phase == Recovering(active, digest)
      ensures Copies(Now(), active.Other()) && active.Other().Other() == active
      ensures Holds(front + Dev(active) + back, |front|, Dev(active)) && |Dev(active)| == p.length
      ensures |front| + p.length <= |front + Dev(active) + back|
      ensures PhaseAfter(phase) == phase
    {
      Fitting();
      hide Recorded, Layout;
      var disk := front + Dev(active) + back;
      assert disk[|front|..|front| + |Dev(active)|] == Dev(active);
    }

    /** copy_block_range from the disk that holds the active partition */
    method CopyActive(active: Side, digest: Bytes, front: Bytes, back: Bytes, sourceLogical: nat) returns (ok: bool)
      requires Valid() && phase == Recovering(active, digest) && sourceLogical > 0
      modifies this`a, this`b, this`answers, this`calls, this`made, this`phase, this`states, this`events
      ensures Valid() && phase == Recovering(active, digest) && Dev(active) == old(Dev(active))
      ensures old(Covered()) ==> Covered()
      ensures ok ==> Dev(active.Other()) == Dev(active) && Took(old(calls), calls, 4)
      ensures Supply(answers) >= Supply(old(answers)) - 2 * p.length && Granted(calls) >= Granted(old(calls)) - 4
      ensures (&& Supply(old(answers)) >= 2 * p.length && Granted(old(calls)) >= 4
               && |front| % sourceLogical == p.length % sourceLogical == 0) ==> ok
    {
      hide *;
      ReadyToCopy(active, digest, front, back);
      ok := Call();
      ghost var c1 := calls;
      if ok {
        ok := CopyRange(active.Other(), front + Dev(active) + back, |front|, p.length, sourceLogical);
        if ok { TookMore(old(calls), c1, calls, 1, 3); }
      }
    }

    /** The recovery copy, checked afterwards. */
    method Restore(active: Side, digest: Bytes, front: Bytes, back: Bytes, sourceLogical: nat)
      returns (r: Exit, ghost cover: nat)
      requires Valid() && phase == Mounted(active, digest) && sourceLogical > 0
      modifies this`a, this`b, this`answers, this`calls, this`made, this`schedules, this`phase, this`states, this`events
      ensures Valid() && phase == Normal(active, r == Ok) && Dev(active) == old(Dev(active))
      ensures p.Valid() && p.IsDevice(Dev(active)) && p.IsDevice(Dev(active.Other())) && cover <= p.PayloadSize()
      ensures r == Ok ==> p.Check(Dev(active.Other()), cover) == Some(digest)
      ensures old(CoveringRuns()) > 0 ==> cover == p.PayloadSize() && (old(Covered()) ==> Covered())
      ensures Granted(calls) >= Granted(old(calls)) - 9
      ensures (&& Supply(old(answers)) >= SIZE + 2 * p.length && Granted(old(calls)) >= 9 && old(CoveringRuns()) > 0
               && |front| % sourceLogical == p.length % sourceLogical == 0
               && p.Check(Dev(active), p.PayloadSize()) == Some(digest)) ==> r == Ok
    {
      hide *;
      Fitting();
      FittingSide(active);
      FittingSide(active.Other());
      cover := p.PayloadSize();
      var ok := Call();
      if ok {
        GoRecover(active, digest);
        ok := CopyActive(active, digest, front, back, sourceLogical);
      }
      Fitting();
      FittingSide(active.Other());
      r := IoError;
      if ok {
        var d;
        r, d, cover := VerifyPath(active.Other());
        if r == Ok && d != digest { r := HashMismatch; }
      }
      if r == Ok {
        GoEnd(active, cover, digest);
      } else {
        GoFail(active, digest);
      }
    }

    /** recover_app_param.  The active partition lies between front and back on
        its disk.  The peer is not touched when its check finds the mounted
        digest; with nothing refused and covering hash runs, recovery of a
        verifying device is successful. */
    method Recover(active: Side, digest: Bytes, front: Bytes, back: Bytes, sourceLogical: nat)
      returns (r: Exit, ghost cover: nat)
      requires Valid() && phase == Mounted(active, digest) && sourceLogical > 0
      modifies this`a, this`b, this`answers, this`calls, this`made, this`schedules, this`phase, this`states, this`events
      ensures Valid() && phase.Normal? && phase.active == active && Dev(active) == old(Dev(active))
      ensures p.Valid() && p.IsDevice(Dev(active)) && p.IsDevice(Dev(active.Other())) && cover <= p.PayloadSize()
      ensures p.IsDevice(old(Dev(active.Other())))
      ensures phase.cleared ==> p.Check(Dev(active.Other()), cover) == Some(digest)
      ensures r == Ok ==> phase.cleared && |made| >= 2 && made[|made| - 2] && made[|made| - 1]
      ensures old(CoveringRuns()) >= 2 ==> cover == p.PayloadSize() && (old(Covered()) ==> Covered())
      ensures (&& Supply(old(answers)) >= 2 * SIZE + 2 * p.length && Granted(old(calls)) >= 15
               && old(CoveringRuns()) >= 2
               && |front| % sourceLogical == p.length % sourceLogical == 0
               && p.Check(Dev(active), p.PayloadSize()) == Some(digest)) ==> r == Ok
      ensures (&& Supply(old(answers)) >= SIZE && Granted(old(calls)) >= 6 && old(CoveringRuns()) >= 2
               && p.Check(old(Dev(active.Other())), p.PayloadSize()) == Some(digest)) ==>
                r == Ok && a == old(a) && b == old(b) && events == old(events) + [KeepPeer(p.PayloadSize())]
    {
      hide *;
      Fitting();
      FittingSide(active);
      var d;
      r, d, cover := VerifyPath(active.Other());
      if r == Ok && d == digest {
        GoEnd(active, cover, digest);
      } else {
        r, cover := Restore(active, digest, front, back, sourceLogical);
      }
      if r == Ok {
        var released := Call();
        if !released { r := IoError; }
      }
      var restored := Call();
      if !restored && r == Ok { r := IoError; }
    }

    /** disable_vfat_write, on a volume that may be frozen already.  When the
        call itself fails, the gate is open again. */
    method DisableWrite(active: Side) returns (ok: bool, ghost cleared: bool)
      requires Valid() && (phase.Normal? || Preparing(phase)) && phase.active == active
      modifies this`calls, this`made, this`phase, this`states, this`events
      ensures Valid() && (phase.Normal? || Preparing(phase)) && phase.active == active && (old(Covered()) ==> Covered())
      ensures ok ==> phase == Frozen(active, cleared) && Took(old(calls), calls, 3)
      ensures Granted(calls) >= Granted(old(calls)) - 3
      ensures Granted(old(calls)) >= 3 ==> ok
    {
      hide Recorded, AllCover, Layout, Granted, Took;
      cleared := false;
      ok := Call();
      if !ok { return; }
      ghost var c1 := calls;
      ok := Call();
      ghost var c2 := calls;
      cleared := GoFreeze(active, ok);
      if !ok { return; }
      ok := Call();
      if ok {
        TookMore(old(calls), c1, c2, 1, 1);
        TookMore(old(calls), c2, calls, 2, 1);
      }
    }

    lemma ReadyToCopySealed(active: Side)
      requires Valid() && phase.Sealed? && phase.active == active
      ensures Copies(Now(), active.Other()) && active.Other().Other() == active && !phase.Down?
      ensures Holds(Dev(active), 0, Dev(active)) && |Dev(active)| == p.length
      ensures logical > 0 && 0 % logical == p.length % logical == 0
      ensures PhaseAfter(phase) == Copying(active) && Preparing(phase) && Preparing(Copying(active))
    {
      Fitting();
      hide Recorded;
      assert Dev(active)[0..0 + |Dev(active)|] == Dev(active);
    }

    lemma SameDevices(active: Side)
      requires Dev(active) == Dev(active.Other())
      ensures a == b
    {
    }

    /** copy_block_device from the sealed device to its peer */
    method CopySealed(active: Side) returns (ok: bool)
      requires Valid() && phase.Sealed? && phase.active == active
      modifies this`a, this`b, this`answers, this`calls, this`made, this`phase, this`states, this`events
      ensures Valid() && Preparing(phase) && phase.active == active && Dev(active) == old(Dev(active))
      ensures old(Covered()) ==> Covered()
      ensures ok ==> phase == Prepared(active) && a == b && Took(old(calls), calls, 4)
      ensures Supply(answers) >= Supply(old(answers)) - 2 * p.length && Granted(calls) >= Granted(old(calls)) - 4
      ensures Supply(old(answers)) >= 2 * p.length && Granted(old(calls)) >= 4 ==> ok
    {
      hide *;
      ReadyToCopySealed(active);
      PreparedIs(active);
      ok := Call();
      if !ok { return; }
      ghost var c1 := calls;
      ok := CopyRange(active.Other(), Dev(active), 0, p.length, logical);
      if !ok { return; }
      TookMore(old(calls), c1, calls, 1, 3);
      SameDevices(active);
      GoPrepared(active);
    }

    lemma PreparedIs(active: Side)
      ensures Preparing(Prepared(active)) && Preparing(Copying(active))
    {
    }

    /** prepare_app_param and umount_partition.  On success the devices are equal
        and sealed, and they verify exactly when the bytes that were hashed have
        the hash of the payload; the active payload never changes. */
    method Prepare(active: Side) returns (r: Exit, ghost cover: nat)
      requires Valid() && (phase.Normal? || Preparing(phase)) && phase.active == active
      modifies this`a, this`b, this`answers, this`calls, this`made, this`schedules, this`phase, this`seals, this`states,
               this`events
      ensures Valid() && (phase.Normal? || Preparing(phase)) && phase.active == active
      ensures p.Valid() && p.IsDevice(old(Dev(active))) && p.IsDevice(Dev(active)) && cover <= p.PayloadSize()
      ensures p.Payload(Dev(active)) == p.Payload(old(Dev(active)))
      ensures r == Ok ==> Took(old(calls), calls, 14)
      ensures r == Ok ==> phase == Prepared(active) && a == b && Dev(active) == SealedAs(p, old(Dev(active)), cover)
      ensures r == Ok ==> (p.Good(a) <==> p.hash(old(Dev(active))[..cover]) == p.hash(p.Payload(old(Dev(active)))))
      ensures old(CoveringRuns()) > 0 ==> cover == p.PayloadSize() && (old(Covered()) ==> Covered())
      ensures Supply(answers) >= Supply(old(answers)) - 1 - 2 * p.length && Granted(calls) >= Granted(old(calls)) - 14
      ensures CoveringRuns() >= old(CoveringRuns()) - 1
      ensures (Supply(old(answers)) >= 1 + 2 * p.length && Granted(old(calls)) >= 14 && old(CoveringRuns()) > 0) ==>
                r == Ok
    {
      hide *;
      Fitting();
      FittingSide(active);
      cover := p.PayloadSize();
      var ok := Call();
      if !ok { return IoError, cover; }
      ghost var c1 := calls;
      ok := Call();
      if !ok { return IoError, cover; }
      ghost var cleared, c2 := false, calls;
      ok, cleared := DisableWrite(active);
      if !ok { return IoError, cover; }
      ghost var c3 := calls;
      ok, cover := Seal(active, cleared);
      if !ok { return IoError, cover; }
      ghost var c4 := calls;
      ok := CopySealed(active);
      if !ok { return IoError, cover; }
      TookMore(old(calls), c1, c2, 1, 1);
      TookMore(old(calls), c2, c3, 2, 3);
      TookMore(old(calls), c3, c4, 5, 5);
      TookMore(old(calls), c4, calls, 10, 4);
      GoodIff(active, old(Dev(active)), cover);
      r := Ok;
    }

    lemma GoodIff(active: Side, d: Bytes, n: nat)
      requires p.Valid() && p.IsDevice(d) && n <= p.PayloadSize() && a == b && Dev(active) == SealedAs(p, d, n)
      ensures p.Good(a) <==> p.hash(d[..n]) == p.hash(p.Payload(d))
    {
      SealIsGoodIff(p, d, d[..n]);
    }

    lemma SealedChecks(d: Bytes, active: Side)
      requires p.Valid() && p.IsDevice(d) && Dev(active) == SealedAs(p, d, p.PayloadSize()) && a == b
      ensures p.IsDevice(a) && p.IsDevice(b) && p.Check(a, p.PayloadSize()) == Some(p.hash(p.Payload(d)))
      ensures FirstGood() == Some((A, p.hash(p.Payload(d)))) && Dev(A) == a && Dev(A.Other()) == b
      ensures a == SealedAs(p, d, p.PayloadSize())
    {
      hide Params.DigestOf, Params.Stamp;
      p.StampReadsBack(d, p.hash(p.Payload(d)));
      p.StampKeepsPayload(d, p.hash(p.Payload(d)), SIZE);
    }

    /** A power prepare, the power going, and the next boot and recovery.  With
        nothing refused and covering hash runs the boot mounts A with the sealed
        digest, and the devices, which are equal, are not written again. */
    method PowerCycle(active: Side, front: Bytes, back: Bytes, sourceLogical: nat) returns (r: Exit, digest: Bytes)
      requires Valid() && (phase.Normal? || Preparing(phase)) && phase.active == active && sourceLogical > 0
      modifies this`a, this`b, this`answers, this`calls, this`made, this`schedules, this`phase, this`seals, this`states,
               this`events
      ensures Valid() && p.Valid() && p.IsDevice(old(Dev(active)))
      ensures (&& Supply(old(answers)) >= 1 + 2 * p.length + 3 * SIZE && Granted(old(calls)) >= 35
               && old(CoveringRuns()) >= 5) ==>
                && r == Ok && phase == Normal(A, true) && digest == p.hash(p.Payload(old(Dev(active))))
                && a == b == SealedAs(p, old(Dev(active)), p.PayloadSize())
                && EndsWith(events, [Stop, BootEvent(A, p.PayloadSize()), KeepPeer(p.PayloadSize())])
      ensures old(Covered()) && old(CoveringRuns()) >= 5 ==> Covered()
    {
      hide *;
      Fitting();
      FittingSide(active);
      digest := [];
      ghost var cover;
      r, cover := Prepare(active);
      if r != Ok { return; }
      ghost var d, before := old(Dev(active)), events;
      if old(CoveringRuns()) >= 5 { SealedChecks(d, active); }
      PowerOff();
      var side;
      r, side, digest, cover := Mount();
      if r != Ok { return; }
      r, cover := Recover(side, digest, front, back, sourceLogical);
      CycleEnds(before, BootEvent(side, p.PayloadSize()), KeepPeer(p.PayloadSize()));
    }

    lemma CycleEnds(before: seq<Event>, boot: Event, keep: Event)
      ensures EndsWith(before + [Stop] + [boot] + [keep], [Stop, boot, keep])
    {
      var all := before + [Stop] + [boot] + [keep];
      assert all[|all| - 3..] == [Stop, boot, keep];
    }

    /** Whenever the power goes, a device that verifies is left, as long as the
        hash runs that were relied on covered the payload. */
    lemma EveryStateHasADevice(k: nat)
      requires Valid() && Covered() && k < |states|
      ensures p.Good(states[k].a) || p.Good(states[k].b)
    {
      hide Step, Safe, Disciplined, Whole, Covering, Layout;
      OneDeviceAlwaysVerifies(p, states, events, k);
    }

    /** In every state these calls went through, the bytes that a check of a
        device accepts are what a seal hashed, or they collide with it. */
    lemma EveryAcceptedWasSealed(k: nat, side: Side, n: nat)
      requires Valid() && Sourced(p, states[0]) && k < |states| && n <= p.PayloadSize()
      ensures var d := states[k].Dev(side);
              && p.IsDevice(d)
              && (p.Check(d, n).Some? ==>
                    || d[..n] in states[k].seals
                    || exists q :: q in states[k].seals && q != d[..n] && p.hash(q) == p.hash(d[..n]))
    {
      hide Step, Safe, Disciplined, Whole, Params.Check, FromSeals;
      AcceptedWasSealed(p, states, events, k, side, n);
    }
  }
}
