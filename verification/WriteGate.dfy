/** The write gate of the FAT volume.  Any number of threads call gated
    operations and fat_disable_write; every lock, test, block write and flush is
    a step of its own.  Pages made writable through the gate may be stored to
    later without it, until they are next written back. */
module WriteGate {
  import opened Sequences

  type Image<T> = seq<T>

  /** Where a thread is: in a gated operation (fat_begin_write to fat_end_write)
      or in fat_disable_write. */
  datatype Thread =
    | Idle
    | ReadHeld
    | Refusing
    | Inside
    | WriteHeld
    | Syncing(synced: nat)
    | Flushing(flushed: nat)
    | Failed
    | Opened
    | Succeeded
  {
    predicate Reads() { ReadHeld? || Refusing? || Inside? }

    predicate Writes() { WriteHeld? || Syncing? || Flushing? || Failed? || Opened? || Succeeded? }
  }

  /** mem: the volume as operations see it; device: what was handed to the
      block device; media: what its cache has put on the media.  `mapped` are the
      blocks that mapped pages may store to.  `frozen` is the volume at the return
      of the last successful fat_disable_write, until the gate is reopened. */
  datatype State<T> = State(threads: seq<Thread>, blocked: bool, mem: Image<T>, device: Image<T>, media: Image<T>,
                            mapped: set<nat>, log: seq<(nat, T)>, frozen: Option<Image<T>>)

  datatype Event<T> =
    | DownRead(t: nat) | Test(t: nat) | UpRead(t: nat)
    | Mutate(t: nat, block: nat, value: T) | MakeWritable(t: nat, block: nat) | EndWrite(t: nat)
    | Store(block: nat, value: T) | Writeback(block: nat) | Destage(block: nat)
    | DownWrite(t: nat) | Block(t: nat) | SyncBlock(t: nat) | SyncDone(t: nat) | FlushBlock(t: nat) | FlushDone(t: nat)
    | Fail(t: nat) | Unblock(t: nat) | UpWrite(t: nat)

  ghost predicate NoWriter(threads: seq<Thread>) {
    forall t :: 0 <= t < |threads| ==> !threads[t].Writes()
  }

  ghost predicate NoHolder(threads: seq<Thread>) {
    forall t :: 0 <= t < |threads| ==> !threads[t].Writes() && !threads[t].Reads()
  }

  ghost predicate Sized<T>(s: State<T>) {
    |s.mem| == |s.device| == |s.media|
  }

  /** Gated operations: fat_begin_write, what they do, fat_end_write. */
  ghost predicate GatedStep<T(!new)>(s: State<T>, e: Event<T>, s': State<T>)
    requires Sized(s)
  {
    match e
    case DownRead(t) =>
      && t < |s.threads| && s.threads[t].Idle? && NoWriter(s.threads)
      && s' == s.(threads := s.threads[t := ReadHeld])
    case Test(t) =>
      && t < |s.threads| && s.threads[t].ReadHeld?
      && s' == s.(threads := s.threads[t := if s.blocked then Refusing else Inside])
    case UpRead(t) =>
      t < |s.threads| && s.threads[t].Refusing? && s' == s.(threads := s.threads[t := Idle])
    case Mutate(t, i, v) =>
      && t < |s.threads| && s.threads[t].Inside? && i < |s.mem|
      && s' == s.(mem := s.mem[i := v], log := s.log + [(i, v)])
    case MakeWritable(t, i) =>
      t < |s.threads| && s.threads[t].Inside? && i < |s.mem| && s' == s.(mapped := s.mapped + {i})
    case EndWrite(t) =>
      t < |s.threads| && s.threads[t].Inside? && s' == s.(threads := s.threads[t := Idle])
    case _ => false
  }

  /** What happens at any time: stores to mapped pages, writeback (which write
      protects the page again), and the cache of the device. */
  ghost predicate FreeStep<T(!new)>(s: State<T>, e: Event<T>, s': State<T>)
    requires Sized(s)
  {
    match e
    case Store(i, v) =>
      && i in s.mapped && i < |s.mem|
      && s' == s.(mem := s.mem[i := v], log := s.log + [(i, v)])
    case Writeback(i) =>
      i < |s.mem| && s' == s.(device := s.device[i := s.mem[i]], mapped := s.mapped - {i})
    case Destage(i) => i < |s.mem| && s' == s.(media := s.media[i := s.device[i]])
    case _ => false
  }

  /** fat_disable_write */
  ghost predicate DisableStep<T(!new)>(s: State<T>, e: Event<T>, s': State<T>)
    requires Sized(s)
  {
    match e
    case DownWrite(t) =>
      && t < |s.threads| && s.threads[t].Idle? && NoHolder(s.threads)
      && s' == s.(threads := s.threads[t := WriteHeld])
    case Block(t) =>
      && t < |s.threads| && s.threads[t].WriteHeld?
      && s' == s.(threads := s.threads[t := Syncing(0)], blocked := true)
    case SyncBlock(t) =>
      && t < |s.threads| && s.threads[t].Syncing?
      && var k := s.threads[t].synced;
         && k < |s.mem|
         && s' == s.(threads := s.threads[t := Syncing(k + 1)],
                     device := s.device[k := s.mem[k]], mapped := s.mapped - {k})
    case SyncDone(t) =>
      && t < |s.threads| && s.threads[t] == Syncing(|s.mem|)
      && s' == s.(threads := s.threads[t := Flushing(0)])
    case FlushBlock(t) =>
      && t < |s.threads| && s.threads[t].Flushing?
      && var k := s.threads[t].flushed;
         && k < |s.mem|
         && s' == s.(threads := s.threads[t := Flushing(k + 1)], media := s.media[k := s.device[k]])
    case FlushDone(t) =>
      && t < |s.threads| && s.threads[t] == Flushing(|s.mem|)
      && s' == s.(threads := s.threads[t := Succeeded])
    case Fail(t) =>
      && t < |s.threads| && (s.threads[t].Syncing? || s.threads[t].Flushing?)
      && s' == s.(threads := s.threads[t := Failed])
    case Unblock(t) =>
      && t < |s.threads| && s.threads[t].Failed?
      && s' == s.(threads := s.threads[t := Opened], blocked := false, frozen := None)
    case UpWrite(t) =>
      && t < |s.threads| && (s.threads[t].Succeeded? || s.threads[t].Opened?)
      && s' == s.(threads := s.threads[t := Idle],
                  frozen := if s.threads[t].Succeeded? then Some(s.mem) else s.frozen)
    case _ => false
  }

  ghost predicate Step<T(!new)>(s: State<T>, e: Event<T>, s': State<T>) {
    Sized(s) && (GatedStep(s, e, s') || FreeStep(s, e, s') || DisableStep(s, e, s'))
  }

  // ----- the invariant -----

  function Apply<T>(image: Image<T>, log: seq<(nat, T)>): (r: Image<T>)
    ensures |r| == |image|
  {
    if log == [] then image
    else
      var r := Apply(image, log[..|log| - 1]);
      var (i, v) := log[|log| - 1];
      if i < |r| then r[i := v] else r
  }

  ghost predicate Agree<T(!new)>(x: Image<T>, y: Image<T>, n: nat) {
    n <= |x| && n <= |y| && forall i :: 0 <= i < n ==> x[i] == y[i]
  }

  /** What one thread may rely on. */
  ghost predicate ThreadInv<T(!new)>(s: State<T>, thread: Thread) {
    match thread
    case Inside => !s.blocked
    case WriteHeld => s.blocked ==> s.frozen.Some?
    case Syncing(k) =>
      s.blocked && Agree(s.device, s.mem, k) && forall i :: i in s.mapped ==> k <= i
    case Flushing(k) => s.blocked && s.device == s.mem && s.mapped == {} && Agree(s.media, s.mem, k)
    case Failed => s.blocked
    case Opened => !s.blocked
    case Succeeded => s.blocked && s.media == s.device == s.mem && s.mapped == {}
    case _ => true
  }

  /** The lock: a writer holds it alone. */
  ghost predicate Exclusive(threads: seq<Thread>) {
    forall t, u :: 0 <= t < |threads| && 0 <= u < |threads| && t != u && threads[t].Writes() ==>
      !threads[u].Writes() && !threads[u].Reads()
  }

  ghost predicate Inv<T(!new)>(initial: Image<T>, s: State<T>) {
    && Sized(s) && Exclusive(s.threads) && (forall i :: i in s.mapped ==> i < |s.mem|)
    && (forall t :: 0 <= t < |s.threads| ==> ThreadInv(s, s.threads[t]))
    && (NoWriter(s.threads) && s.blocked ==> s.frozen.Some?)
    && (s.frozen.Some? ==> s.blocked && s.mem == s.device == s.media == s.frozen.value && s.mapped == {})
    && s.mem == Apply(initial, s.log)
  }

  lemma StepKeepsInv<T(!new)>(initial: Image<T>, s: State<T>, e: Event<T>, s': State<T>)
    requires Inv(initial, s) && Step(s, e, s')
    ensures Inv(initial, s')
  {
    if GatedStep(s, e, s') {
      GatedKeepsInv(initial, s, e, s');
    } else if FreeStep(s, e, s') {
      FreeKeepsInv(initial, s, e, s');
    } else {
      DisableKeepsInv(initial, s, e, s');
    }
  }

  lemma GatedKeepsInv<T(!new)>(initial: Image<T>, s: State<T>, e: Event<T>, s': State<T>)
    requires Inv(initial, s) && GatedStep(s, e, s')
    ensures Inv(initial, s')
  {
    hide Apply;
    if e.Mutate? { ApplyMore(initial, s.log, e.block, e.value); }
  }

  lemma ApplyMore<T>(initial: Image<T>, log: seq<(nat, T)>, i: nat, v: T)
    requires i < |initial|
    ensures Apply(initial, log + [(i, v)]) == Apply(initial, log)[i := v]
  {
    assert (log + [(i, v)])[..|log|] == log;
  }

  lemma FreeKeepsInv<T(!new)>(initial: Image<T>, s: State<T>, e: Event<T>, s': State<T>)
    requires Inv(initial, s) && FreeStep(s, e, s')
    ensures Inv(initial, s')
  {
    hide Apply;
    if e.Store? { ApplyMore(initial, s.log, e.block, e.value); }
  }

  /** While a thread is in fat_disable_write, no other thread is anywhere. */
  ghost predicate Alone(threads: seq<Thread>, t: nat) {
    t < |threads| && forall u :: 0 <= u < |threads| && u != t ==> threads[u].Idle?
  }

  lemma WriterIsAlone<T(!new)>(initial: Image<T>, s: State<T>, t: nat)
    requires Inv(initial, s) && t < |s.threads| && s.threads[t].Writes()
    ensures Alone(s.threads, t)
  {
  }

  /** With one thread at work, only what it relies on has to be shown. */
  lemma AloneKeepsInv<T(!new)>(initial: Image<T>, s: State<T>, t: nat)
    requires Sized(s) && Alone(s.threads, t) && (forall i :: i in s.mapped ==> i < |s.mem|)
    requires ThreadInv(s, s.threads[t]) && s.mem == Apply(initial, s.log)
    requires s.threads[t].Idle? && s.blocked ==> s.frozen.Some?
    requires s.threads[t].Idle? || s.threads[t].Writes()
    requires s.frozen.Some? ==> s.blocked && s.mem == s.device == s.media == s.frozen.value && s.mapped == {}
    ensures Inv(initial, s)
  {
    hide Apply;
    if s.threads[t].Idle? { assert NoWriter(s.threads); } else { assert !NoWriter(s.threads); }
  }

  lemma DisableKeepsInv<T(!new)>(initial: Image<T>, s: State<T>, e: Event<T>, s': State<T>)
    requires Inv(initial, s) && DisableStep(s, e, s')
    ensures Inv(initial, s')
  {
    hide Apply;
    if e.DownWrite? {
      assert Alone(s'.threads, e.t);
    } else {
      WriterIsAlone(initial, s, e.t);
      assert Alone(s'.threads, e.t);
      AllAgree(s.device, s.mem);
      AllAgree(s.media, s.mem);
      if e.SyncBlock? { SyncedMore(s.device, s.mem, s.threads[e.t].synced); }
      if e.FlushBlock? { SyncedMore(s.media, s.mem, s.threads[e.t].flushed); }
    }
    AloneKeepsInv(initial, s', e.t);
  }

  lemma AllAgree<T(!new)>(x: Image<T>, y: Image<T>)
    requires |x| == |y|
    ensures Agree(x, y, |x|) <==> x == y
  {
  }

  lemma SyncedMore<T(!new)>(x: Image<T>, y: Image<T>, k: nat)
    requires Agree(x, y, k) && k < |x| == |y|
    ensures Agree(x[k := y[k]], y, k + 1)
    ensures x == y ==> x[k := y[k]] == x
  {
  }

  // ----- every interleaving -----

  /** A freshly mounted volume. */
  ghost predicate Fresh<T(!new)>(initial: Image<T>, s: State<T>) {
    && Sized(s) && s.mem == initial && !s.blocked && s.mapped == {} && s.log == [] && s.frozen == None
    && forall t :: 0 <= t < |s.threads| ==> s.threads[t].Idle?
  }

  ghost predicate IsRun<T(!new)>(initial: Image<T>, states: seq<State<T>>, events: seq<Event<T>>) {
    && |states| == |events| + 1 && Fresh(initial, states[0])
    && forall k :: 0 <= k < |events| ==> Step(states[k], events[k], states[k + 1])
  }

  lemma {:induction false} RunKeepsInv<T(!new)>(initial: Image<T>, states: seq<State<T>>, events: seq<Event<T>>, k: nat)
    requires IsRun(initial, states, events) && k < |states|
    ensures Inv(initial, states[k])
    decreases k
  {
    hide Step, Inv;
    if k > 0 {
      RunKeepsInv(initial, states, events, k - 1);
      assert Step(states[k - 1], events[k - 1], states[k]);
      StepKeepsInv(initial, states[k - 1], events[k - 1], states[k]);
    } else {
      FreshInv(initial, states[0]);
    }
  }

  lemma FreshInv<T(!new)>(initial: Image<T>, s: State<T>)
    requires Fresh(initial, s)
    ensures Inv(initial, s)
  {
  }

  /** Once fat_disable_write has returned 0, no operation is between its begin
      and its end, and the media hold every change that was ever let through. */
  lemma FrozenIsComplete<T(!new)>(initial: Image<T>, states: seq<State<T>>, events: seq<Event<T>>, k: nat)
    requires IsRun(initial, states, events) && k < |states|
    ensures var s := states[k];
            s.frozen.Some? ==>
              && (forall t :: 0 <= t < |s.threads| ==> !s.threads[t].Inside?)
              && s.media == s.device == s.mem == s.frozen.value == Apply(initial, s.log)
    ensures (&& k < |events| && events[k].UpWrite? && events[k].t < |states[k].threads|
             && states[k].threads[events[k].t].Succeeded?) ==> states[k + 1].frozen.Some?
  {
    hide Apply;
    RunKeepsInv(initial, states, events, k);
    if k < |events| { assert Step(states[k], events[k], states[k + 1]); }
  }

  /** From then on nothing changes, in memory or on the media, until a later
      fat_disable_write fails to sync and opens the gate again. */
  lemma {:induction false} FrozenUntilReopened<T(!new)>(initial: Image<T>, states: seq<State<T>>, events: seq<Event<T>>,
                                                        i: nat, j: nat)
    requires IsRun(initial, states, events) && i <= j < |states| && states[i].frozen.Some?
    requires forall k :: i <= k < j ==> !events[k].Unblock?
    ensures states[j].frozen == states[i].frozen && states[j].log == states[i].log
    ensures states[j].media == states[j].mem == states[i].media
    decreases j
  {
    hide Step, Inv, Apply;
    if i < j {
      FrozenUntilReopened(initial, states, events, i, j - 1);
      RunKeepsInv(initial, states, events, j - 1);
      assert Step(states[j - 1], events[j - 1], states[j]);
      FrozenStep(initial, states[j - 1], events[j - 1], states[j]);
    }
    RunKeepsInv(initial, states, events, j);
    FrozenImage(initial, states[j]);
    RunKeepsInv(initial, states, events, i);
    FrozenImage(initial, states[i]);
  }

  lemma FrozenImage<T(!new)>(initial: Image<T>, s: State<T>)
    requires Inv(initial, s) && s.frozen.Some?
    ensures s.media == s.mem == s.frozen.value
  {
  }

  lemma FrozenStep<T(!new)>(initial: Image<T>, s: State<T>, e: Event<T>, s': State<T>)
    requires Inv(initial, s) && s.frozen.Some? && Step(s, e, s') && !e.Unblock?
    ensures s'.frozen == s.frozen && s'.log == s.log
  {
    hide Apply;
  }

  /** Steps after one another. */
  ghost predicate Path<T(!new)>(s: State<T>, events: seq<Event<T>>, s': State<T>)
    decreases |events|
  {
    if events == [] then s' == s else exists m :: Step(s, events[0], m) && Path(m, events[1..], s')
  }

  lemma PathStep<T(!new)>(s: State<T>, e: Event<T>, m: State<T>, rest: seq<Event<T>>, s': State<T>)
    requires Step(s, e, m) && Path(m, rest, s')
    ensures Path(s, [e] + rest, s')
  {
    assert ([e] + rest)[1..] == rest;
  }

  lemma {:induction false} PathJoin<T(!new)>(s: State<T>, x: seq<Event<T>>, m: State<T>, y: seq<Event<T>>, s': State<T>)
    requires Path(s, x, m) && Path(m, y, s')
    ensures Path(s, x + y, s')
    decreases |x|
  {
    hide Step;
    if x == [] {
      assert x + y == y;
    } else {
      var n :| Step(s, x[0], n) && Path(n, x[1..], m);
      PathJoin(n, x[1..], m, y, s');
      PathStep(s, x[0], n, x[1..] + y, s');
      assert [x[0]] + (x[1..] + y) == x + y;
    }
  }

  lemma OneStep<T(!new)>(s: State<T>, e: Event<T>, s': State<T>)
    requires Step(s, e, s')
    ensures Path(s, [e], s')
  {
    hide Step;
    PathStep(s, e, s', [], s');
    assert [e] + [] == [e];
  }

  /** A call of fat_disable_write in its sync or its flush can go on to the end of it. */
  ghost predicate SameVolume<T(!new)>(s: State<T>, s': State<T>) {
    s'.mem == s.mem && s'.blocked == s.blocked && s'.log == s.log && s'.frozen == s.frozen && Sized(s')
  }

  lemma {:induction false} SyncRest<T(!new)>(s: State<T>, t: nat, k: nat) returns (events: seq<Event<T>>, s': State<T>)
    requires Sized(s) && t < |s.threads| && s.threads[t] == Syncing(k) && k <= |s.mem|
    ensures Path(s, events, s') && SameVolume(s, s') && s'.threads == s.threads[t := Syncing(|s.mem|)]
    decreases |s.mem| - k
  {
    if k == |s.mem| {
      events, s' := [], s;
    } else {
      var m := s.(threads := s.threads[t := Syncing(k + 1)], device := s.device[k := s.mem[k]],
                  mapped := s.mapped - {k});
      assert Step(s, SyncBlock(t), m);
      var rest;
      rest, s' := SyncRest(m, t, k + 1);
      hide Step, Path;
      PathStep(s, SyncBlock(t), m, rest, s');
      events := [SyncBlock(t)] + rest;
    }
  }

  lemma {:induction false} FlushRest<T(!new)>(s: State<T>, t: nat, k: nat) returns (events: seq<Event<T>>, s': State<T>)
    requires Sized(s) && t < |s.threads| && s.threads[t] == Flushing(k) && k <= |s.mem|
    ensures Path(s, events, s') && SameVolume(s, s') && s'.threads == s.threads[t := Flushing(|s.mem|)]
    decreases |s.mem| - k
  {
    if k == |s.mem| {
      events, s' := [], s;
    } else {
      var m := s.(threads := s.threads[t := Flushing(k + 1)], media := s.media[k := s.device[k]]);
      assert Step(s, FlushBlock(t), m);
      var rest;
      rest, s' := FlushRest(m, t, k + 1);
      hide Step, Path;
      PathStep(s, FlushBlock(t), m, rest, s');
      events := [FlushBlock(t)] + rest;
    }
  }

  /** The end of the call, from the end of its sync. */
  lemma FlushAndReturn<T(!new)>(s: State<T>, t: nat) returns (events: seq<Event<T>>, s': State<T>)
    requires Sized(s) && t < |s.threads| && s.threads[t] == Syncing(|s.mem|)
    ensures Path(s, events, s') && s'.mem == s.mem && s'.blocked == s.blocked && s'.log == s.log
    ensures s'.threads == s.threads[t := Idle] && s'.frozen == Some(s.mem)
  {
    hide GatedStep, FreeStep;
    var a := s.(threads := s.threads[t := Flushing(0)]);
    assert Step(s, SyncDone(t), a);
    var flush, b := FlushRest(a, t, 0);
    var c := b.(threads := b.threads[t := Succeeded]);
    s' := c.(threads := c.threads[t := Idle], frozen := Some(c.mem));
    assert Step(b, FlushDone(t), c) && Step(c, UpWrite(t), s');
    hide Step, Path;
    OneStep(s, SyncDone(t), a);
    OneStep(b, FlushDone(t), c);
    OneStep(c, UpWrite(t), s');
    PathJoin(b, [FlushDone(t)], c, [UpWrite(t)], s');
    PathJoin(a, flush, b, [FlushDone(t)] + [UpWrite(t)], s');
    PathJoin(s, [SyncDone(t)], a, flush + ([FlushDone(t)] + [UpWrite(t)]), s');
    events := [SyncDone(t)] + (flush + ([FlushDone(t)] + [UpWrite(t)]));
  }

  /** From every volume with an idle thread and no call in progress, open or
      frozen, a call of fat_disable_write can succeed: the volume is then frozen as
      it was, and the gate is closed. */
  lemma CallCanSucceed<T(!new)>(s: State<T>, t: nat) returns (events: seq<Event<T>>, s': State<T>)
    requires Sized(s) && NoHolder(s.threads) && t < |s.threads| && s.threads[t].Idle?
    ensures Path(s, events, s') && s'.threads == s.threads && s'.blocked
    ensures s'.frozen == Some(s.mem) && s'.mem == s.mem && s'.log == s.log
  {
    var a := s.(threads := s.threads[t := WriteHeld]);
    var b := a.(threads := a.threads[t := Syncing(0)], blocked := true);
    assert Step(s, DownWrite(t), a) && Step(a, Block(t), b);
    var sync, c := SyncRest(b, t, 0);
    var rest;
    rest, s' := FlushAndReturn(c, t);
    assert s'.threads == s.threads;
    hide Step, Path;
    OneStep(s, DownWrite(t), a);
    OneStep(a, Block(t), b);
    PathJoin(b, sync, c, rest, s');
    PathJoin(a, [Block(t)], b, sync + rest, s');
    PathJoin(s, [DownWrite(t)], a, [Block(t)] + (sync + rest), s');
    events := [DownWrite(t)] + ([Block(t)] + (sync + rest));
  }

  /** A second call of fat_disable_write on a frozen volume that fails its sync. */
  function FailingCall<T>(t: nat): seq<Event<T>> {
    [DownWrite(t)] + ([Block(t)] + ([Fail(t)] + ([Unblock(t)] + ([UpWrite(t)] + []))))
  }

  function Change<T>(t: nat, i: nat, v: T): seq<Event<T>> {
    [DownRead(t)] + ([Test(t)] + ([Mutate(t, i, v)] + []))
  }

  lemma SecondCallFails<T(!new)>(initial: Image<T>, s: State<T>, t: nat)
    requires Inv(initial, s) && s.frozen.Some? && NoHolder(s.threads) && t < |s.threads| && s.threads[t].Idle?
    ensures Path(s, FailingCall(t), s.(blocked := false, frozen := None))
  {
    hide Apply, Inv, GatedStep, FreeStep;
    var x := s.threads;
    var s1 := s.(threads := x[t := WriteHeld]);
    var s2 := s.(threads := x[t := Syncing(0)], blocked := true);
    var s3 := s2.(threads := x[t := Failed]);
    var s4 := s2.(threads := x[t := Opened], blocked := false, frozen := None);
    var s5 := s.(blocked := false, frozen := None);
    assert Sized(s) by { InvSized(initial, s); }
    assert x[t := WriteHeld][t := Syncing(0)] == x[t := Syncing(0)];
    assert x[t := Syncing(0)][t := Failed] == x[t := Failed] && x[t := Failed][t := Opened] == x[t := Opened];
    assert x[t := Opened][t := Idle] == x;
    assert Step(s, DownWrite(t), s1) && Step(s1, Block(t), s2) && Step(s2, Fail(t), s3);
    assert Step(s3, Unblock(t), s4) && Step(s4, UpWrite(t), s5);
    hide Step;
    PathStep(s4, UpWrite(t), s5, [], s5);
    PathStep(s3, Unblock(t), s4, [UpWrite(t)] + [], s5);
    PathStep(s2, Fail(t), s3, [Unblock(t)] + ([UpWrite(t)] + []), s5);
    PathStep(s1, Block(t), s2, [Fail(t)] + ([Unblock(t)] + ([UpWrite(t)] + [])), s5);
    PathStep(s, DownWrite(t), s1, [Block(t)] + ([Fail(t)] + ([Unblock(t)] + ([UpWrite(t)] + []))), s5);
  }

  lemma InvSized<T(!new)>(initial: Image<T>, s: State<T>)
    requires Inv(initial, s)
    ensures Sized(s)
  {
  }

  /** An open volume lets a change through. */
  lemma ChangeGoesThrough<T(!new)>(m: State<T>, t: nat, i: nat, v: T)
    requires Sized(m) && !m.blocked && NoHolder(m.threads) && t < |m.threads| && m.threads[t].Idle? && i < |m.mem|
    ensures Path(m, Change(t, i, v),
                 m.(threads := m.threads[t := Inside], mem := m.mem[i := v], log := m.log + [(i, v)]))
  {
    hide DisableStep, FreeStep;
    var x := m.threads;
    var s1 := m.(threads := x[t := ReadHeld]);
    var s2 := m.(threads := x[t := Inside]);
    var s3 := s2.(mem := m.mem[i := v], log := m.log + [(i, v)]);
    assert x[t := ReadHeld][t := Inside] == x[t := Inside];
    assert Step(m, DownRead(t), s1) && Step(s1, Test(t), s2) && Step(s2, Mutate(t, i, v), s3);
    hide Step;
    PathStep(s2, Mutate(t, i, v), s3, [], s3);
    PathStep(s1, Test(t), s2, [Mutate(t, i, v)] + [], s3);
    PathStep(m, DownRead(t), s1, [Test(t)] + ([Mutate(t, i, v)] + []), s3);
  }

  /** That call undoes the promise of the first one: from any frozen volume with
      no call in progress, its failure lets every later change through. */
  lemma SecondCallReopens<T(!new)>(initial: Image<T>, s: State<T>, t: nat, i: nat, v: T)
    requires Inv(initial, s) && s.frozen.Some? && NoHolder(s.threads) && t < |s.threads| && s.threads[t].Idle?
    requires i < |s.mem|
    ensures exists m, s' :: Path(s, FailingCall(t), m) && Path(m, Change(t, i, v), s')
                            && s'.frozen == None && s'.mem == s.frozen.value[i := v]
  {
    var m := s.(blocked := false, frozen := None);
    SecondCallFails(initial, s, t);
    assert s.mem == s.frozen.value && Sized(s);
    hide Apply, Inv, Path, Change, FailingCall, NoHolder;
    ChangeGoesThrough(m, t, i, v);
  }
}
