/** The two-thread hash of a device: a reader fills the slots of a ring, a
    hasher digests them.  Each atomic load or store of the shared words is one
    step, and the steps of the threads interleave in any way. */
module HashRing {
  import opened Sequences
  import opened LittleEndian

  const SLOTS := 8
  const WORD := 0x1_0000_0000

  type Bytes = seq<Byte>

  datatype Slot = Garbage | Full(data: Bytes)

  datatype Producer =
    | NotStarted
    | AtTop
    | GotHead(head: nat)
    | Checked(head: nat)
    | Filling
    | Filled
    | Failing
    | Exited

  /** `late` is set when the tail was loaded after the last publish. */
  datatype Consumer =
    | Starting
    | Dead
    | AtLoad
    | GotTail(tail: nat, late: bool)
    | Digesting
    | Digested
    | Breaking
    | Broken
    | Finishing(late: bool)
    | Finished(late: bool, ok: bool)

  /** The bytes to hash and the chunk size. */
  datatype Job = Job(file: Bytes, chunk: nat) {
    ghost predicate Valid() { chunk > 0 && |file| <= chunk * (WORD - 1) }

    /** Where chunk i begins. */
    function Off(i: nat): (r: nat)
      ensures r <= |file|
    {
      if i * chunk < |file| then i * chunk else |file|
    }

    function Piece(i: nat): (r: Bytes)
      requires Off(i) <= Off(i + 1)
    {
      file[Off(i)..Off(i + 1)]
    }

    /** The next chunk, as the reader computes it. */
    function Want(offset: nat): nat
      requires offset <= |file|
    {
      if |file| - offset < chunk then |file| - offset else chunk
    }

    lemma FewerChunks(i: nat, n: nat)
      requires i * chunk < n * chunk
      ensures i < n
    {
    }

    lemma NextOff(i: nat)
      requires Valid() && Off(i) < |file|
      ensures Off(i + 1) == Off(i) + Want(Off(i)) && i < WORD - 1
    {
      assert (i + 1) * chunk == i * chunk + chunk;
      FewerChunks(i, WORD - 1);
    }

    lemma OffGrows(i: nat)
      requires Valid()
      ensures Off(i) <= Off(i + 1) && Off(0) == 0
    {
      assert (i + 1) * chunk == i * chunk + chunk;
    }

    lemma OffMonotone(i: nat, j: nat)
      requires i <= j
      ensures Off(i) <= Off(j)
    {
      assert j * chunk == i * chunk + (j - i) * chunk;
    }
  }

  /** head and tail are the shared counters; the hasher's own head and the
      reader's own tail only differ from them between a step and its store. */
  datatype State = State(slots: seq<Slot>, head: nat, tail: nat, offset: nat, done: bool, error: bool,
                         producer: Producer, consumer: Consumer, digested: Bytes)

  function Start(): State {
    State(seq(SLOTS, _ => Garbage), 0, 0, 0, false, false, NotStarted, Starting, [])
  }

  datatype Event =
    | Create | CreateFails
    | LoadHead | LoadError | TestSpace | ReadOk | ReadFails | StoreDone | Publish | Complete
    | Init | InitFails
    | LoadTail | TestTail | LoadDone | Update(junk: Bytes) | UpdateFails | StoreBreak | PublishHead
    | Finish(finalOk: bool)

  function Cell(i: nat): (r: nat)
    ensures r < SLOTS
  {
    i % SLOTS
  }

  lemma CellsApart(i: nat, j: nat)
    requires i < j < i + SLOTS
    ensures Cell(i) != Cell(j)
  {
  }

  /** What the reader does at an event, where it can. */
  function ReaderNext(job: Job, s: State, e: Event): Option<State>
    requires |s.slots| == SLOTS && s.offset <= |job.file|
  {
    match e
    case Create => if s.producer.NotStarted? then Some(s.(producer := AtTop)) else None
    case CreateFails => if s.producer.NotStarted? then Some(s.(producer := Failing, error := true)) else None
    case LoadHead =>
      if s.producer.AtTop? && s.offset < |job.file| then Some(s.(producer := GotHead(s.head))) else None
    case LoadError =>
      if s.producer.GotHead? then Some(s.(producer := if s.error then Exited else Checked(s.producer.head))) else None
    case TestSpace =>
      if !s.producer.Checked? then None
      else if (s.tail - s.producer.head) % WORD < SLOTS
      then Some(s.(producer := Filling, slots := s.slots[Cell(s.tail) := Garbage]))
      else Some(s.(producer := AtTop))
    case ReadOk =>
      if !s.producer.Filling? then None
      else
        var data := job.file[s.offset..s.offset + job.Want(s.offset)];
        Some(s.(producer := Filled, slots := s.slots[Cell(s.tail) := Full(data)]))
    case ReadFails => if s.producer.Filling? then Some(s.(producer := Failing, error := true)) else None
    case StoreDone => if s.producer.Failing? then Some(s.(producer := Exited, done := true)) else None
    case Publish =>
      if s.producer.Filled?
      then Some(s.(producer := AtTop, tail := (s.tail + 1) % WORD, offset := s.offset + job.Want(s.offset)))
      else None
    case Complete =>
      if s.producer.AtTop? && s.offset >= |job.file| then Some(s.(producer := Exited, done := true)) else None
    case _ => None
  }

  /** What the hasher does at an event, where it can. */
  function HasherNext(job: Job, s: State, e: Event): Option<State>
    requires |s.slots| == SLOTS
  {
    match e
    case Init => if s.consumer.Starting? then Some(s.(consumer := AtLoad)) else None
    case InitFails => if s.consumer.Starting? then Some(s.(consumer := Dead)) else None
    case LoadTail =>
      if s.consumer.AtLoad? then Some(s.(consumer := GotTail(s.tail, s.offset == |job.file|))) else None
    case TestTail =>
      if s.consumer.GotTail? && s.head < s.consumer.tail then Some(s.(consumer := Digesting)) else None
    case LoadDone =>
      if s.consumer.GotTail? && s.head >= s.consumer.tail
      then Some(s.(consumer := if s.done then Finishing(s.consumer.late) else AtLoad))
      else None
    case Update(junk) =>
      if !s.consumer.Digesting? then None
      else
        var slot := s.slots[Cell(s.head)];
        Some(s.(consumer := Digested, digested := s.digested + if slot.Full? then slot.data else junk))
    case UpdateFails => if s.consumer.Digesting? then Some(s.(consumer := Breaking, error := true)) else None
    case StoreBreak => if s.consumer.Breaking? then Some(s.(consumer := Broken, done := true)) else None
    case PublishHead =>
      if s.consumer.Digested? then Some(s.(consumer := AtLoad, head := (s.head + 1) % WORD)) else None
    case Finish(finalOk) =>
      if s.consumer.Finishing? then Some(s.(consumer := Finished(s.consumer.late, s.error || finalOk))) else None
    case _ => None
  }

  ghost predicate ReaderStep(job: Job, s: State, e: Event, s': State)
    requires |s.slots| == SLOTS && s.offset <= |job.file|
  {
    ReaderNext(job, s, e) == Some(s')
  }

  ghost predicate HasherStep(job: Job, s: State, e: Event, s': State)
    requires |s.slots| == SLOTS
  {
    HasherNext(job, s, e) == Some(s')
  }

  /** The digested input that hash_sha256_fd returns the hash of, after both
      threads were joined. */
  function Result(s: State): Option<Bytes> {
    if s.producer.Exited? && s.consumer.Finished? && s.consumer.ok && !s.error then Some(s.digested) else None
  }

  // ----- the invariant -----

  ghost predicate Holds(job: Job, slots: seq<Slot>, i: nat)
    requires |slots| == SLOTS && job.Valid()
  {
    job.OffGrows(i);
    slots[Cell(i)] == Full(job.Piece(i))
  }

  /** Every chunk that was published and not digested is in its slot. */
  ghost predicate Window(job: Job, slots: seq<Slot>, head: nat, tail: nat)
    requires job.Valid()
  {
    && |slots| == SLOTS && head <= tail <= head + SLOTS && tail < WORD
    && forall i :: head <= i < tail ==> Holds(job, slots, i)
  }

  ghost predicate ReaderInv(job: Job, s: State)
    requires job.Valid() && |s.slots| == SLOTS
  {
    && (match s.producer
        case GotHead(h) => h <= s.head && s.offset < |job.file|
        case Checked(h) => h <= s.head && s.offset < |job.file|
        case Filling => s.tail < s.head + SLOTS && s.offset < |job.file|
        case Filled => s.tail < s.head + SLOTS && s.offset < |job.file| && Holds(job, s.slots, s.tail)
        case Failing => s.error
        case _ => true)
    && (s.producer.Exited? || s.done ==> s.error || s.offset == |job.file|)
    && (s.done ==> s.producer.Exited? || s.consumer.Broken?)
    && (s.producer.Exited? ==> s.error || s.done)
  }

  ghost predicate HasherInv(job: Job, s: State)
    requires job.Valid()
  {
    && s.digested == job.file[..job.Off(if s.consumer.Digested? then s.head + 1 else s.head)]
    && (s.consumer.Starting? || s.consumer.Dead? ==> s.head == 0)
    && match s.consumer
       case GotTail(t, late) =>
         s.head <= t <= s.tail && (if s.offset == |job.file| then late <==> t == s.tail else !late)
       case Digesting => s.head < s.tail
       case Digested => s.head < s.tail
       case Breaking => s.error
       case Finishing(late) =>
         s.producer.Exited? && (s.offset == |job.file| ==> (late <==> s.head == s.tail))
       case Finished(late, _) =>
         s.producer.Exited? && (s.offset == |job.file| ==> (late <==> s.head == s.tail))
       case _ => true
  }

  ghost predicate Inv(job: Job, s: State) {
    && job.Valid() && Window(job, s.slots, s.head, s.tail) && s.offset == job.Off(s.tail)
    && (s.tail > 0 ==> job.Off(s.tail - 1) < |job.file|)
    && ReaderInv(job, s) && HasherInv(job, s)
  }

  /** A slot outside the window may be overwritten. */
  lemma OutsideWindow(job: Job, slots: seq<Slot>, head: nat, tail: nat, slot: Slot)
    requires job.Valid() && Window(job, slots, head, tail) && tail < head + SLOTS
    ensures Window(job, slots[Cell(tail) := slot], head, tail)
  {
    hide Job.Off, Cell;
    var slots' := slots[Cell(tail) := slot];
    forall i | head <= i < tail ensures Holds(job, slots', i) {
      CellsApart(i, tail);
      assert Holds(job, slots, i);
    }
  }

  lemma ReaderKeepsInv(job: Job, s: State, e: Event, s': State)
    requires Inv(job, s) && ReaderStep(job, s, e, s')
    ensures Inv(job, s')
  {
    hide Job.Off, Cell, Holds, Window;
    assert |s.slots| == SLOTS && s.tail <= s.head + SLOTS by { WindowBounds(job, s); }
    match e {
      case TestSpace => if s'.producer.Filling? { SpaceIsOutside(job, s); }
      case ReadOk => FilledHolds(job, s);
      case Publish => PublishedWindow(job, s);
      case _ =>
    }
  }

  lemma WindowBounds(job: Job, s: State)
    requires Inv(job, s)
    ensures |s.slots| == SLOTS && s.head <= s.tail <= s.head + SLOTS && s.tail < WORD
  {
  }

  /** No slot is refilled before it was digested: where the reader finds space,
      the chunk that was in the slot is one the hasher is done with. */
  lemma SpaceIsOutside(job: Job, s: State)
    requires Inv(job, s) && s.producer.Checked? && (s.tail - s.producer.head) % WORD < SLOTS
    ensures s.tail < s.head + SLOTS && Window(job, s.slots[Cell(s.tail) := Garbage], s.head, s.tail)
  {
    hide Job.Off, Cell, Holds;
    OutsideWindow(job, s.slots, s.head, s.tail, Garbage);
  }

  lemma PublishedWindow(job: Job, s: State)
    requires Inv(job, s) && s.producer.Filled?
    ensures (s.tail + 1) % WORD == s.tail + 1 && Window(job, s.slots, s.head, s.tail + 1)
    ensures s.offset + job.Want(s.offset) == job.Off(s.tail + 1)
  {
    hide Job.Off, Cell, Holds;
    job.NextOff(s.tail);
  }

  lemma FilledHolds(job: Job, s: State)
    requires Inv(job, s) && s.producer.Filling?
    ensures var data := job.file[s.offset..s.offset + job.Want(s.offset)];
            var slots := s.slots[Cell(s.tail) := Full(data)];
            Window(job, slots, s.head, s.tail) && Holds(job, slots, s.tail)
  {
    hide Job.Off, Cell;
    job.NextOff(s.tail);
    var data := job.file[s.offset..s.offset + job.Want(s.offset)];
    OutsideWindow(job, s.slots, s.head, s.tail, Full(data));
  }

  lemma HasherKeepsInv(job: Job, s: State, e: Event, s': State)
    requires Inv(job, s) && HasherStep(job, s, e, s')
    ensures Inv(job, s')
  {
    hide Job.Off, Cell, Holds;
    match e {
      case Update(_) => UpdateAppends(job, s);
      case _ =>
    }
  }

  /** What the hasher is given is the chunk after those it has digested. */
  lemma UpdateAppends(job: Job, s: State)
    requires Inv(job, s) && s.consumer.Digesting?
    ensures s.slots[Cell(s.head)].Full?
    ensures s.digested + s.slots[Cell(s.head)].data == job.file[..job.Off(s.head + 1)]
  {
    hide Job.Off, Cell;
    job.OffGrows(s.head);
    assert Holds(job, s.slots, s.head);
    assert job.file[..job.Off(s.head + 1)] == job.file[..job.Off(s.head)] + job.Piece(s.head);
  }

  // ----- every interleaving -----

  ghost predicate Step(job: Job, s: State, e: Event, s': State) {
    |s.slots| == SLOTS && s.offset <= |job.file| && (ReaderStep(job, s, e, s') || HasherStep(job, s, e, s'))
  }

  ghost predicate IsRun(job: Job, states: seq<State>, events: seq<Event>) {
    && |states| == |events| + 1 && states[0] == Start()
    && forall k :: 0 <= k < |events| ==> Step(job, states[k], events[k], states[k + 1])
  }

  lemma {:induction false} RunKeepsInv(job: Job, states: seq<State>, events: seq<Event>, k: nat)
    requires job.Valid() && IsRun(job, states, events) && k < |states|
    ensures Inv(job, states[k])
    decreases k
  {
    if k > 0 {
      RunKeepsInv(job, states, events, k - 1);
      assert Step(job, states[k - 1], events[k - 1], states[k]);
      if ReaderStep(job, states[k - 1], events[k - 1], states[k]) {
        ReaderKeepsInv(job, states[k - 1], events[k - 1], states[k]);
      } else {
        HasherKeepsInv(job, states[k - 1], events[k - 1], states[k]);
      }
    } else {
      job.OffGrows(0);
      assert job.file[..0] == [];
    }
  }

  /** In every state of every interleaving the hasher has digested an in-order
      prefix of the file, and a slot it is digesting holds the next chunk.  A
      result without an error is the whole file exactly when the tail of the
      finish test was loaded after the last publish. */
  lemma RunDigestsPrefix(job: Job, states: seq<State>, events: seq<Event>, k: nat)
    requires job.Valid() && IsRun(job, states, events) && k < |states|
    ensures states[k].digested <= job.file
    ensures states[k].consumer.Digesting? ==>
              |states[k].slots| == SLOTS && states[k].slots[Cell(states[k].head)].Full?
              && states[k].digested + states[k].slots[Cell(states[k].head)].data <= job.file
    ensures Result(states[k]).Some? ==> (Result(states[k]) == Some(job.file) <==> states[k].consumer.late)
  {
    hide Job.Off, Cell, Holds;
    RunKeepsInv(job, states, events, k);
    var s := states[k];
    if s.consumer.Digesting? { UpdateAppends(job, s); }
    if Result(s).Some? {
      assert s.offset == |job.file|;
      if s.head < s.tail { ShorterThanFile(job, s); }
      assert s.digested == job.file[..job.Off(s.head)];
      assert job.file[..|job.file|] == job.file;
    }
  }

  lemma ShorterThanFile(job: Job, s: State)
    requires Inv(job, s) && s.head < s.tail && s.offset == |job.file|
    ensures job.Off(s.head) < |job.file|
  {
    job.OffMonotone(s.head, s.tail - 1);
  }

  // ----- which runs return a result -----

  /** What can go wrong: a thread cannot be created, a read, or the hash function. */
  predicate Trouble(e: Event) {
    e.CreateFails? || e.ReadFails? || e.InitFails? || e.UpdateFails? || (e.Finish? && !e.finalOk)
  }

  /** Both threads have returned. */
  predicate Ended(s: State) {
    s.producer.Exited? && (s.consumer.Dead? || s.consumer.Broken? || s.consumer.Finished?)
  }

  /** Where trouble leaves its mark. */
  predicate Marked(s: State) {
    s.error || s.consumer.Dead? || (s.consumer.Finished? && !s.consumer.ok)
  }

  ghost predicate BreaksMarked(s: State) { s.consumer.Breaking? || s.consumer.Broken? ==> Marked(s) }

  lemma StepMarks(job: Job, s: State, e: Event, s': State)
    requires Step(job, s, e, s') && BreaksMarked(s)
    ensures BreaksMarked(s') && (Marked(s') <==> Marked(s) || Trouble(e))
  {
  }

  lemma ResultIffUnmarked(s: State)
    requires BreaksMarked(s)
    ensures Result(s).Some? <==> Ended(s) && !Marked(s)
  {
  }

  lemma {:induction false} RunMarks(job: Job, states: seq<State>, events: seq<Event>, k: nat)
    requires IsRun(job, states, events) && k < |states|
    ensures BreaksMarked(states[k])
    ensures Marked(states[k]) <==> exists i :: 0 <= i < k && Trouble(events[i])
    decreases k
  {
    if k > 0 {
      RunMarks(job, states, events, k - 1);
      hide Step, Trouble, Marked, BreaksMarked;
      assert Step(job, states[k - 1], events[k - 1], states[k]);
      StepMarks(job, states[k - 1], events[k - 1], states[k]);
    }
  }

  /** In every interleaving there is a result exactly when both threads have
      returned and nothing went wrong at any step. */
  lemma ResultIffNoTrouble(job: Job, states: seq<State>, events: seq<Event>, k: nat)
    requires IsRun(job, states, events) && k < |states|
    ensures Result(states[k]).Some? <==> Ended(states[k]) && forall i :: 0 <= i < k ==> !Trouble(events[i])
  {
    hide Step, Trouble, Marked, Ended, Result, BreaksMarked;
    RunMarks(job, states, events, k);
    ResultIffUnmarked(states[k]);
  }

  // ----- schedules -----

  /** The state after an event; an event that is not possible changes nothing. */
  function After(job: Job, s: State, e: Event): State {
    if |s.slots| != SLOTS || s.offset > |job.file| then s
    else if ReaderNext(job, s, e).Some? then ReaderNext(job, s, e).value
    else if HasherNext(job, s, e).Some? then HasherNext(job, s, e).value
    else s
  }

  function Exec(job: Job, s: State, schedule: seq<Event>): State
    decreases |schedule|
  {
    if schedule == [] then s else Exec(job, After(job, s, schedule[0]), schedule[1..])
  }

  /** The input whose hash a schedule returns, if it returns one. */
  function Outcome(job: Job, schedule: seq<Event>): Option<Bytes> { Result(Exec(job, Start(), schedule)) }

  /** The tail with which the hasher ends was loaded after the last publish. */
  ghost predicate EndsInTime(job: Job, schedule: seq<Event>) {
    var c := Exec(job, Start(), schedule).consumer;
    c.Finished? && c.late
  }

  /** Event i of the schedule is possible when its turn comes. */
  ghost predicate Taken(job: Job, schedule: seq<Event>, i: nat)
    requires i < |schedule|
  {
    Possible(job, Exec(job, Start(), schedule[..i]), schedule[i])
  }

  ghost predicate Possible(job: Job, s: State, e: Event) { exists s' :: Step(job, s, e, s') }

  /** Nothing goes wrong under the schedule. */
  ghost predicate Untroubled(job: Job, schedule: seq<Event>) {
    forall i :: 0 <= i < |schedule| && Trouble(schedule[i]) ==> !Taken(job, schedule, i)
  }

  /** The schedule lets both threads return. */
  ghost predicate Ends(job: Job, schedule: seq<Event>) { Ended(Exec(job, Start(), schedule)) }

  /** The schedule digests every file of this length as a whole. */
  ghost predicate Thorough(schedule: seq<Event>, length: nat, chunk: nat) {
    forall file :: |file| == length ==> Outcome(Job(file, chunk), schedule) == Some(file)
  }

  lemma AfterMarks(job: Job, s: State, e: Event)
    requires BreaksMarked(s)
    ensures BreaksMarked(After(job, s, e))
    ensures Marked(After(job, s, e)) <==> Marked(s) || (Trouble(e) && Possible(job, s, e))
  {
    hide Marked, BreaksMarked, Trouble, Possible, After, Step;
    AfterIsStep(job, s, e);
    if Possible(job, s, e) { StepMarks(job, s, e, After(job, s, e)); }
  }

  lemma AfterIsStep(job: Job, s: State, e: Event)
    ensures if Possible(job, s, e) then Step(job, s, e, After(job, s, e)) else After(job, s, e) == s
  {
    hide ReaderNext, HasherNext;
    assert Step(job, s, e, After(job, s, e)) ==> Possible(job, s, e);
  }

  lemma ExecLast(job: Job, schedule: seq<Event>, k: nat)
    requires k < |schedule|
    ensures Exec(job, Start(), schedule[..k + 1]) == After(job, Exec(job, Start(), schedule[..k]), schedule[k])
  {
    hide After, Start;
    assert schedule[..k + 1] == schedule[..k] + [schedule[k]];
    ExecConcat(job, Start(), schedule[..k], [schedule[k]]);
  }

  lemma {:induction false} ExecMarks(job: Job, schedule: seq<Event>, k: nat)
    requires k <= |schedule|
    ensures var s := Exec(job, Start(), schedule[..k]);
            && BreaksMarked(s)
            && (Marked(s) <==> exists i :: 0 <= i < k && Trouble(schedule[i]) && Taken(job, schedule, i))
    decreases k
  {
    if k > 0 {
      hide Marked, BreaksMarked, Trouble, Possible, After, Exec, Start;
      ExecMarks(job, schedule, k - 1);
      ExecLast(job, schedule, k - 1);
      AfterMarks(job, Exec(job, Start(), schedule[..k - 1]), schedule[k - 1]);
    }
  }

  /** A schedule returns a result exactly when it lets both threads return and
      nothing goes wrong under it. */
  lemma OutcomeIff(job: Job, schedule: seq<Event>)
    ensures Outcome(job, schedule).Some? <==> Ends(job, schedule) && Untroubled(job, schedule)
  {
    hide Step, Trouble, Marked, Ended, Result, BreaksMarked, Exec, Start, Taken;
    ExecMarks(job, schedule, |schedule|);
    assert schedule[..|schedule|] == schedule;
    ResultIffUnmarked(Exec(job, Start(), schedule));
  }

  lemma AfterKeepsInv(job: Job, s: State, e: Event)
    requires Inv(job, s)
    ensures Inv(job, After(job, s, e))
  {
    hide Inv, ReaderNext, HasherNext;
    InvShape(job, s);
    if ReaderNext(job, s, e).Some? {
      ReaderKeepsInv(job, s, e, After(job, s, e));
    } else if HasherNext(job, s, e).Some? {
      HasherKeepsInv(job, s, e, After(job, s, e));
    }
  }

  lemma InvShape(job: Job, s: State)
    requires Inv(job, s)
    ensures |s.slots| == SLOTS && s.offset <= |job.file|
  {
  }

  lemma {:induction false} ExecKeepsInv(job: Job, s: State, schedule: seq<Event>)
    requires Inv(job, s)
    ensures Inv(job, Exec(job, s, schedule))
    decreases |schedule|
  {
    hide Inv, After;
    if schedule != [] {
      AfterKeepsInv(job, s, schedule[0]);
      ExecKeepsInv(job, After(job, s, schedule[0]), schedule[1..]);
    }
  }

  lemma {:induction false} ExecConcat(job: Job, s: State, x: seq<Event>, y: seq<Event>)
    ensures Exec(job, s, x + y) == Exec(job, Exec(job, s, x), y)
    decreases |x|
  {
    hide After;
    if x == [] {
      assert x + y == y;
    } else {
      assert (x + y)[1..] == x[1..] + y;
      ExecConcat(job, After(job, s, x[0]), x[1..], y);
    }
  }

  ghost predicate RunTo(job: Job, states: seq<State>, events: seq<Event>, s: State) {
    IsRun(job, states, events) && states[|events|] == s
  }

  ghost predicate Reachable(job: Job, s: State) {
    exists states, events :: RunTo(job, states, events, s)
  }

  lemma Onward(job: Job, s: State, e: Event)
    requires Reachable(job, s)
    ensures Reachable(job, After(job, s, e))
  {
    hide ReaderNext, HasherNext;
    var s' := After(job, s, e);
    if s' != s {
      var states, events :| RunTo(job, states, events, s);
      assert Step(job, s, e, s');
      assert RunTo(job, states + [s'], events + [e], s');
    }
  }

  /** What a schedule leads to is a state of an interleaving. */
  lemma {:induction false} ExecIsReachable(job: Job, s: State, schedule: seq<Event>)
    requires Reachable(job, s)
    ensures Reachable(job, Exec(job, s, schedule))
    decreases |schedule|
  {
    hide Reachable, After;
    if schedule != [] {
      Onward(job, s, schedule[0]);
      ExecIsReachable(job, After(job, s, schedule[0]), schedule[1..]);
    }
  }

  lemma StartIsReachable(job: Job)
    ensures Reachable(job, Start())
  {
    assert RunTo(job, [Start()], [], Start());
  }

  lemma ReachableInv(job: Job, s: State)
    requires job.Valid() && Reachable(job, s)
    ensures Inv(job, s)
  {
    hide Step, Inv;
    var states, events :| RunTo(job, states, events, s);
    RunKeepsInv(job, states, events, |events|);
  }

  /** hash_sha256_fd up to the hash function: the two threads run by a schedule,
      then both are joined. */
  method HashInput(job: Job, schedule: seq<Event>) returns (r: Option<Bytes>)
    requires job.Valid()
    ensures r == Outcome(job, schedule)
    ensures r.Some? <==> Ends(job, schedule) && Untroubled(job, schedule)
    ensures r.Some? ==> r.value <= job.file && (r.value == job.file <==> EndsInTime(job, schedule))
  {
    hide Inv, Step, After;
    var s, i := Start(), 0;
    StartIsReachable(job);
    while i < |schedule|
      invariant i <= |schedule| && Reachable(job, s) && Exec(job, s, schedule[i..]) == Exec(job, Start(), schedule)
    {
      hide Reachable;
      Onward(job, s, schedule[i]);
      assert schedule[i..][1..] == schedule[i + 1..];
      s := After(job, s, schedule[i]);
      i := i + 1;
    }
    r := Result(s);
    assert schedule[i..] == [];
    OutcomeIff(job, schedule);
    ghost var states, events :| RunTo(job, states, events, s);
    RunDigestsPrefix(job, states, events, |events|);
  }

  // ----- rounds -----

  const READER_ROUND: seq<Event> := [LoadHead, LoadError, TestSpace] + [ReadOk, Publish]
  const HASHER_ROUND: seq<Event> := [LoadTail, TestTail] + [Update([]), PublishHead]

  ghost predicate Goes(job: Job, s: State, e: Event, s': State) { After(job, s, e) == s' }

  lemma ExecNone(job: Job, s: State)
    ensures Exec(job, s, []) == s
  {
  }

  lemma ExecFirst(job: Job, s: State, schedule: seq<Event>, rest: seq<Event>, s': State)
    requires schedule != [] && schedule[1..] == rest && Goes(job, s, schedule[0], s')
    ensures Exec(job, s, schedule) == Exec(job, s', rest)
  {
    hide After;
  }

  lemma Three(job: Job, s: State, d: Event, e: Event, f: Event, s1: State, s2: State, s3: State)
    requires Goes(job, s, d, s1) && Goes(job, s1, e, s2) && Goes(job, s2, f, s3)
    ensures Exec(job, s, [d, e, f]) == s3
  {
    hide Goes, Exec;
    ExecFirst(job, s, [d, e, f], [e, f], s1);
    ExecFirst(job, s1, [e, f], [f], s2);
    ExecFirst(job, s2, [f], [], s3);
    ExecNone(job, s3);
  }

  lemma Two(job: Job, s: State, e: Event, f: Event, s1: State, s2: State)
    requires Goes(job, s, e, s1) && Goes(job, s1, f, s2)
    ensures Exec(job, s, [e, f]) == s2
  {
    hide Goes, Exec;
    ExecFirst(job, s, [e, f], [f], s1);
    ExecFirst(job, s1, [f], [], s2);
    ExecNone(job, s2);
  }

  /** The reader finds a free slot. */
  lemma ReaderFinds(job: Job, s: State) returns (s': State)
    requires Inv(job, s)
    requires s.producer.AtTop? && s.tail < s.head + SLOTS && s.offset < |job.file| && !s.error
    ensures Exec(job, s, [LoadHead, LoadError, TestSpace]) == s'
    ensures s' == s.(producer := Filling, slots := s'.slots) && |s'.slots| == SLOTS
  {
    WindowBounds(job, s);
    hide Inv, Cell, Exec;
    var s1 := s.(producer := GotHead(s.head));
    var s2 := s1.(producer := Checked(s.head));
    s' := s2.(producer := Filling, slots := s.slots[Cell(s.tail) := Garbage]);
    Three(job, s, LoadHead, LoadError, TestSpace, s1, s2, s');
  }

  /** The reader publishes a chunk while the hasher does nothing. */
  lemma ReaderRound(job: Job, s: State) returns (s': State)
    requires Inv(job, s)
    requires s.producer.AtTop? && s.tail < s.head + SLOTS && s.offset < |job.file| && !s.error
    ensures Exec(job, s, READER_ROUND) == s' && Inv(job, s')
    ensures s' == s.(slots := s'.slots, tail := s.tail + 1, offset := job.Off(s.tail + 1))
  {
    ExecKeepsInv(job, s, READER_ROUND);
    assert s.offset == job.Off(s.tail);
    job.NextOff(s.tail);
    hide Job.Off, Inv, Cell, Exec;
    var s1 := ReaderFinds(job, s);
    var data := job.file[s.offset..s.offset + job.Want(s.offset)];
    var s2 := s1.(producer := Filled, slots := s1.slots[Cell(s.tail) := Full(data)]);
    s' := s2.(producer := AtTop, tail := s.tail + 1, offset := s.offset + job.Want(s.offset));
    Two(job, s1, ReadOk, Publish, s2, s');
    ExecConcat(job, s, [LoadHead, LoadError, TestSpace], [ReadOk, Publish]);
  }

  /** The hasher takes the one chunk that was published. */
  lemma HasherRound(job: Job, s: State) returns (s': State)
    requires Inv(job, s) && s.consumer.AtLoad? && s.tail == s.head + 1
    ensures Exec(job, s, HASHER_ROUND) == s' && Inv(job, s')
    ensures s' == s.(head := s.tail, digested := s'.digested)
  {
    ExecKeepsInv(job, s, HASHER_ROUND);
    WindowBounds(job, s);
    InvShape(job, s);
    hide Inv, Cell, Exec;
    var s1 := s.(consumer := GotTail(s.tail, s.offset == |job.file|));
    var s2 := s1.(consumer := Digesting);
    Two(job, s, LoadTail, TestTail, s1, s2);
    s' := HasherTakes(job, s2);
    ExecConcat(job, s, [LoadTail, TestTail], [Update([]), PublishHead]);
  }

  lemma HasherTakes(job: Job, s: State) returns (s': State)
    requires |s.slots| == SLOTS && s.offset <= |job.file| && s.consumer.Digesting? && s.head + 1 < WORD
    ensures Exec(job, s, [Update([]), PublishHead]) == s'
    ensures s' == s.(consumer := AtLoad, head := s.head + 1, digested := s'.digested)
  {
    hide Cell, Exec;
    var slot := s.slots[Cell(s.head)];
    var s1 := s.(consumer := Digested, digested := s.digested + if slot.Full? then slot.data else []);
    s' := s1.(consumer := AtLoad, head := s.head + 1);
    Two(job, s, Update([]), PublishHead, s1, s');
  }

  /** Both threads between rounds, with no chunk in flight. */
  ghost predicate Level(job: Job, s: State) {
    && Inv(job, s) && s.producer.AtTop? && s.consumer.AtLoad? && s.head == s.tail && !s.error && !s.done
  }

  lemma LevelOff(job: Job, s: State)
    requires Level(job, s) && s.offset < |job.file|
    ensures s.offset == job.Off(s.tail) && s.offset < job.Off(s.tail + 1) == s.offset + job.Want(s.offset)
  {
    hide Window;
    job.NextOff(s.tail);
  }

  /** A round of both threads. */
  lemma FullRound(job: Job, s: State) returns (s': State)
    requires Level(job, s) && s.offset < |job.file|
    ensures Exec(job, s, READER_ROUND + HASHER_ROUND) == s' && Level(job, s')
    ensures s'.offset == s.offset + job.Want(s.offset) > s.offset
  {
    hide Job.Off, Inv, Exec;
    LevelOff(job, s);
    var s1 := ReaderRound(job, s);
    s' := HasherRound(job, s1);
    ExecConcat(job, s, READER_ROUND, HASHER_ROUND);
  }

  lemma Begins(job: Job)
    requires job.Valid()
    ensures Level(job, Exec(job, Start(), [Create, Init])) && Exec(job, Start(), [Create, Init]).offset == 0
  {
    var s0 := Start();
    var s1 := s0.(producer := AtTop);
    var s2 := s1.(consumer := AtLoad);
    Two(job, s0, Create, Init, s1, s2);
    StartIsReachable(job);
    ReachableInv(job, s0);
    ExecKeepsInv(job, s0, [Create, Init]);
  }

  // ----- a schedule that digests everything -----

  /** Rounds from an offset to the end of a file of this length. */
  function RoundsFrom(length: nat, chunk: nat, offset: nat): seq<Event>
    requires chunk > 0
    decreases length - offset
  {
    if offset >= length then []
    else READER_ROUND + HASHER_ROUND
         + RoundsFrom(length, chunk, offset + if length - offset < chunk then length - offset else chunk)
  }

  lemma {:induction false} RoundsToEnd(job: Job, s: State)
    requires Level(job, s)
    ensures var s' := Exec(job, s, RoundsFrom(|job.file|, job.chunk, s.offset));
            Level(job, s') && s'.offset == |job.file|
    decreases |job.file| - s.offset
  {
    hide Job.Off, Inv, Exec;
    assert s.offset <= |job.file| by { InvShape(job, s); }
    if s.offset < |job.file| {
      var s1 := FullRound(job, s);
      var rest := RoundsFrom(|job.file|, job.chunk, s1.offset);
      ExecConcat(job, s, READER_ROUND + HASHER_ROUND, rest);
      RoundsToEnd(job, s1);
    } else {
      ExecNone(job, s);
    }
  }

  const LATE_END: seq<Event> := [Complete, LoadTail] + [LoadDone, Finish(true)]

  lemma EndsLate(job: Job, s: State)
    requires Level(job, s) && s.offset == |job.file|
    ensures Result(Exec(job, s, LATE_END)) == Some(job.file)
  {
    InvShape(job, s);
    var s1 := s.(producer := Exited, done := true);
    var s2 := s1.(consumer := GotTail(s.tail, true));
    var s3 := s2.(consumer := Finishing(true));
    var s4 := s3.(consumer := Finished(true, true));
    assert s.digested == job.file by { assert job.file[..|job.file|] == job.file; }
    hide Job.Off, Inv, Cell, Exec;
    Two(job, s, Complete, LoadTail, s1, s2);
    Two(job, s2, LoadDone, Finish(true), s3, s4);
    ExecConcat(job, s, [Complete, LoadTail], [LoadDone, Finish(true)]);
  }

  function WholeSchedule(length: nat, chunk: nat): seq<Event>
    requires chunk > 0
  {
    [Create, Init] + RoundsFrom(length, chunk, 0) + LATE_END
  }

  /** One schedule digests every file of a length as a whole. */
  lemma WholeIsThorough(length: nat, chunk: nat)
    requires chunk > 0 && length <= chunk * (WORD - 1)
    ensures Thorough(WholeSchedule(length, chunk), length, chunk)
  {
    hide Level, Exec, Result;
    forall file | |file| == length ensures Outcome(Job(file, chunk), WholeSchedule(length, chunk)) == Some(file) {
      var job := Job(file, chunk);
      var rounds := RoundsFrom(length, chunk, 0);
      Begins(job);
      var s := Exec(job, Start(), [Create, Init]);
      RoundsToEnd(job, s);
      var s' := Exec(job, s, rounds);
      EndsLate(job, s');
      ExecConcat(job, Start(), [Create, Init], rounds);
      ExecConcat(job, Start(), [Create, Init] + rounds, LATE_END);
    }
  }

  // ----- the early finish -----

  const EARLY_END: seq<Event> := [LoadTail] + READER_ROUND + [Complete, LoadDone, Finish(true)]

  /** The tail is loaded before the last publish, the done flag after it. */
  lemma FinishEarly(job: Job, s: State)
    requires Level(job, s) && s.offset < |job.file| == job.Off(s.tail + 1)
    ensures var s' := Exec(job, s, EARLY_END); Result(s').Some? && !s'.consumer.late
  {
    var s1 := TailTooSoon(job, s);
    hide Job.Off, Inv, Cell, Exec;
    var s2 := ReaderRound(job, s1);
    InvShape(job, s2);
    var s3 := s2.(producer := Exited, done := true);
    var s4 := s3.(consumer := Finishing(false));
    var s5 := s4.(consumer := Finished(false, true));
    Three(job, s2, Complete, LoadDone, Finish(true), s3, s4, s5);
    ExecConcat(job, s, [LoadTail], READER_ROUND);
    ExecConcat(job, s, [LoadTail] + READER_ROUND, [Complete, LoadDone, Finish(true)]);
  }

  lemma TailTooSoon(job: Job, s: State) returns (s': State)
    requires Level(job, s) && s.offset < |job.file|
    ensures Exec(job, s, [LoadTail]) == s' && Inv(job, s') && s' == s.(consumer := GotTail(s.tail, false))
  {
    InvShape(job, s);
    AfterKeepsInv(job, s, LoadTail);
    s' := s.(consumer := GotTail(s.tail, false));
    hide Inv, Exec;
    ExecFirst(job, s, [LoadTail], [], s');
    ExecNone(job, s');
  }

  lemma {:induction false} EarlyFrom(job: Job, s: State) returns (schedule: seq<Event>)
    requires Level(job, s) && s.offset < |job.file|
    ensures var s' := Exec(job, s, schedule); Result(s').Some? && !s'.consumer.late
    decreases |job.file| - s.offset
  {
    hide Job.Off, Inv, Exec;
    LevelOff(job, s);
    if job.Off(s.tail + 1) == |job.file| {
      schedule := EARLY_END;
      FinishEarly(job, s);
    } else {
      var s1 := FullRound(job, s);
      InvShape(job, s1);
      var rest := EarlyFrom(job, s1);
      schedule := READER_ROUND + HASHER_ROUND + rest;
      ExecConcat(job, s, READER_ROUND + HASHER_ROUND, rest);
    }
  }

  /** For every file there is a schedule without any error whose digest leaves
      out the end of the file. */
  lemma EveryFileCanFinishEarly(job: Job) returns (schedule: seq<Event>)
    requires job.Valid() && job.file != []
    ensures Outcome(job, schedule).Some? && Outcome(job, schedule).value <= job.file
    ensures Outcome(job, schedule).value != job.file
  {
    hide Level, Exec;
    Begins(job);
    var s := Exec(job, Start(), [Create, Init]);
    var rest := EarlyFrom(job, s);
    schedule := [Create, Init] + rest;
    ExecConcat(job, Start(), [Create, Init], rest);
    StartIsReachable(job);
    ExecIsReachable(job, Start(), schedule);
    var states, events :| RunTo(job, states, events, Exec(job, Start(), schedule));
    RunDigestsPrefix(job, states, events, |events|);
  }

  // ----- a hasher that failed to start -----

  lemma {:induction false} DeadStaysDead(job: Job, s: State, schedule: seq<Event>)
    requires s.consumer.Dead?
    ensures Exec(job, s, schedule).consumer.Dead?
    decreases |schedule|
  {
    if schedule != [] { DeadStaysDead(job, After(job, s, schedule[0]), schedule[1..]); }
  }

  /** With more than eight chunks the reader never ends unless a read fails:
      nobody raises the error flag. */
  lemma ReaderWaitsForDeadHasher(job: Job, s: State)
    requires Inv(job, s) && s.consumer.Dead? && !s.error && SLOTS * job.chunk < |job.file|
    ensures !s.producer.Exited?
  {
    hide Holds;
    job.OffMonotone(s.tail, SLOTS);
  }

  function Rank(p: Producer): nat {
    match p
    case NotStarted => 6
    case AtTop => 5
    case GotHead(_) => 4
    case Checked(_) => 3
    case Filling => 2
    case Filled => 1
    case _ => 0
  }

  /** What the reader does next when nothing fails. */
  function Willing(job: Job, s: State): Event {
    match s.producer
    case NotStarted => Create
    case AtTop => if s.offset < |job.file| then LoadHead else Complete
    case GotHead(_) => LoadError
    case Checked(_) => TestSpace
    case Filling => ReadOk
    case _ => Publish
  }

  lemma SpaceForAll(job: Job, s: State)
    requires Inv(job, s) && s.consumer.Dead? && s.offset < |job.file| <= SLOTS * job.chunk
    ensures s.head == 0 && s.tail < SLOTS
  {
    hide Holds;
    if s.tail >= SLOTS { job.OffMonotone(SLOTS, s.tail); }
  }

  /** With at most eight chunks the reader can end from wherever it is. */
  lemma {:induction false} ReaderEndsAlone(job: Job, s: State) returns (schedule: seq<Event>)
    requires Inv(job, s) && s.consumer.Dead? && !s.error && |job.file| <= SLOTS * job.chunk
    ensures var s' := Exec(job, s, schedule); s'.producer.Exited? && s'.done && !s'.error
    decreases if s.producer.Exited? then 0 else 1, |job.file| - s.offset, Rank(s.producer)
  {
    if s.producer.Exited? {
      return [];
    }
    InvShape(job, s);
    if s.offset < |job.file| {
      SpaceForAll(job, s);
      LevelWant(job, s);
    }
    var e := Willing(job, s);
    AfterKeepsInv(job, s, e);
    var s1 := After(job, s, e);
    InvShape(job, s1);
    hide Inv, Exec, Job.Off, Cell;
    var rest := ReaderEndsAlone(job, s1);
    schedule := [e] + rest;
    assert schedule[1..] == rest;
    ExecFirst(job, s, schedule, rest, s1);
  }

  lemma LevelWant(job: Job, s: State)
    requires Inv(job, s) && s.offset < |job.file|
    ensures job.Want(s.offset) > 0
  {
  }

  /** After the hasher failed to start, the reader can end without an error if
      and only if the file has at most eight chunks. */
  lemma ReaderEndsIffEightChunks(job: Job, s: State)
    requires job.Valid() && Reachable(job, s) && s.consumer.Dead? && !s.error
    ensures (exists schedule :: Exec(job, s, schedule).producer.Exited? && !Exec(job, s, schedule).error)
            <==> |job.file| <= 8 * job.chunk
  {
    hide Inv, Exec;
    ReachableInv(job, s);
    if |job.file| <= SLOTS * job.chunk {
      var schedule := ReaderEndsAlone(job, s);
    } else {
      forall schedule ensures Exec(job, s, schedule).producer.Exited? ==> Exec(job, s, schedule).error {
        ExecKeepsInv(job, s, schedule);
        DeadStaysDead(job, s, schedule);
        if !Exec(job, s, schedule).error { ReaderWaitsForDeadHasher(job, Exec(job, s, schedule)); }
      }
    }
  }

  // ----- no run is stuck -----

  /** An error will be seen: its thread has yet to set the flag, or has set it, or
      the hasher has ended over it. */
  ghost predicate ErrorSeen(s: State) {
    && (s.error ==> s.producer.Failing? || s.done || s.consumer.Breaking? || s.consumer.Broken?)
    && BreaksMarked(s)
  }

  lemma StepKeepsSeen(job: Job, s: State, e: Event, s': State)
    requires Step(job, s, e, s') && ErrorSeen(s)
    ensures ErrorSeen(s')
  {
  }

  lemma {:induction false} RunKeepsSeen(job: Job, states: seq<State>, events: seq<Event>, k: nat)
    requires IsRun(job, states, events) && k < |states|
    ensures ErrorSeen(states[k])
    decreases k
  {
    if k > 0 {
      RunKeepsSeen(job, states, events, k - 1);
      hide Step, ErrorSeen;
      assert Step(job, states[k - 1], events[k - 1], states[k]);
      StepKeepsSeen(job, states[k - 1], events[k - 1], states[k]);
    }
  }

  /** Does this head leave room in the ring? */
  predicate Room(s: State, head: nat) { (s.tail - head) % WORD < SLOTS }

  /** The reader waits for a slot. */
  predicate Waits(job: Job, s: State) {
    && (s.producer.AtTop? || s.producer.GotHead? || s.producer.Checked?) && s.offset < |job.file|
    && !s.error && s.tail == s.head + SLOTS
  }

  /** A step that brings the run nearer to its end: of the reader, but of the hasher
      where the reader has returned or waits. */
  function Onwards(job: Job, s: State): Event {
    if s.producer.Exited? || Waits(job, s) then
      match s.consumer
      case Starting => Init
      case AtLoad => LoadTail
      case GotTail(t, _) => if s.head < t then TestTail else LoadDone
      case Digesting => Update([])
      case Digested => PublishHead
      case Breaking => StoreBreak
      case _ => Finish(true)
    else
      match s.producer
      case NotStarted => Create
      case AtTop => if s.offset < |job.file| then LoadHead else Complete
      case GotHead(_) => LoadError
      case Checked(_) => TestSpace
      case Filling => ReadOk
      case Filled => Publish
      case _ => StoreDone
  }

  function ReaderRank(s: State): nat {
    match s.producer
    case NotStarted => 9
    case GotHead(h) => if s.error || Room(s, h) then 5 else 8
    case Checked(h) => if Room(s, h) then 4 else 7
    case AtTop => 6
    case Filling => 3
    case Filled => 2
    case Failing => 1
    case Exited => 0
  }

  function HasherRank(s: State): nat {
    match s.consumer
    case Starting => 9
    case GotTail(t, _) => if s.head < t then 5 else if s.done then 3 else 8
    case AtLoad => 6
    case Digesting => 4
    case Digested => 3
    case Finishing(_) => 2
    case Breaking => 1
    case _ => 0
  }

  /** What is left to read and to digest, and how far both threads are with it. */
  ghost predicate Nearer(job: Job, s: State, s': State)
    requires s.offset <= |job.file| && s'.offset <= |job.file| && s.head <= s.tail && s'.head <= s'.tail
  {
    || s'.offset > s.offset
    || (s'.offset == s.offset && s'.tail - s'.head < s.tail - s.head)
    || (s'.offset == s.offset && s'.tail - s'.head == s.tail - s.head
        && ReaderRank(s') + HasherRank(s') < ReaderRank(s) + HasherRank(s))
  }

  /** What the proof needs of the invariant. */
  ghost predicate Shaped(job: Job, s: State) {
    && |s.slots| == SLOTS && s.offset <= |job.file| && s.head <= s.tail <= s.head + SLOTS && s.tail < WORD
    && (s.done ==> s.producer.Exited? || s.consumer.Broken?)
    && (s.producer.Exited? ==> s.error || s.done)
    && (s.consumer.Finishing? || s.consumer.Finished? ==> s.producer.Exited?)
    && (s.consumer.GotTail? ==> s.head <= s.consumer.tail <= s.tail)
    && (s.consumer.Digesting? || s.consumer.Digested? ==> s.head < s.tail)
    && (s.producer.GotHead? || s.producer.Checked? ==> s.producer.head <= s.head && s.offset < |job.file|)
    && (s.producer.Filling? || s.producer.Filled? ==> s.offset < |job.file|)
  }

  lemma InvIsShaped(job: Job, s: State)
    requires Inv(job, s)
    ensures Shaped(job, s)
  {
  }

  lemma RoomIs(s: State, h: nat)
    requires h <= s.tail < WORD
    ensures Room(s, h) <==> s.tail - h < SLOTS
  {
  }

  lemma ReaderNearer(job: Job, s: State)
    requires Shaped(job, s) && !s.producer.Exited? && !Waits(job, s)
    requires s.offset < |job.file| ==> job.Want(s.offset) > 0
    requires Shaped(job, After(job, s, Onwards(job, s)))
    ensures Possible(job, s, Onwards(job, s)) && Nearer(job, s, After(job, s, Onwards(job, s)))
    ensures After(job, s, Onwards(job, s)).consumer == s.consumer
  {
    var e := Onwards(job, s);
    var s' := After(job, s, e);
    RoomIs(s, s.head);
    RoomIs(s', s'.head);
    if s.producer.GotHead? || s.producer.Checked? { RoomIs(s, s.producer.head); }
    hide Room, HasherNext, Job.Want, Cell;
    assert Step(job, s, e, s');
  }

  lemma HasherNearer(job: Job, s: State)
    requires Shaped(job, s) && ErrorSeen(s) && (s.producer.Exited? || Waits(job, s)) && !s.consumer.Dead? && !Ended(s)
    requires Shaped(job, After(job, s, Onwards(job, s)))
    ensures Possible(job, s, Onwards(job, s)) && Nearer(job, s, After(job, s, Onwards(job, s)))
    ensures !After(job, s, Onwards(job, s)).consumer.Dead?
  {
    var e := Onwards(job, s);
    var s' := After(job, s, e);
    hide Room, Job.Want, Cell;
    if s.producer.GotHead? || s.producer.Checked? { SameRoom(s, s', s.producer.head); }
    assert Step(job, s, e, s');
  }

  lemma SameRoom(s: State, s': State, h: nat)
    ensures s'.tail == s.tail ==> (Room(s', h) <==> Room(s, h))
  {
  }

  lemma OnwardsIsNearer(job: Job, s: State)
    requires Inv(job, s) && ErrorSeen(s) && !s.consumer.Dead? && !Ended(s)
    ensures var e := Onwards(job, s);
            var s' := After(job, s, e);
            && Possible(job, s, e) && !s'.consumer.Dead? && Inv(job, s') && Shaped(job, s) && Shaped(job, s')
            && Nearer(job, s, s')
  {
    hide Inv, Step, After, Onwards, Ended, Nearer, Possible, ErrorSeen;
    AfterKeepsInv(job, s, Onwards(job, s));
    InvIsShaped(job, s);
    InvIsShaped(job, After(job, s, Onwards(job, s)));
    if s.offset < |job.file| { LevelWant(job, s); }
    if s.producer.Exited? || Waits(job, s) { HasherNearer(job, s); } else { ReaderNearer(job, s); }
  }

  /** From every state of every interleaving, with a hasher that has started, both
      threads can still return. */
  lemma {:induction false} CanEnd(job: Job, s: State) returns (schedule: seq<Event>)
    requires Inv(job, s) && ErrorSeen(s) && !s.consumer.Dead?
    ensures Ended(Exec(job, s, schedule))
    decreases |job.file| - s.offset, s.tail - s.head, ReaderRank(s) + HasherRank(s)
  {
    if Ended(s) {
      ExecNone(job, s);
      return [];
    }
    OnwardsIsNearer(job, s);
    var e := Onwards(job, s);
    var s1 := After(job, s, e);
    AfterIsStep(job, s, e);
    StepKeepsSeen(job, s, e, s1);
    hide Inv, Exec, After, Onwards, ErrorSeen, ReaderRank, HasherRank, Ended, Possible, Step;
    var rest := CanEnd(job, s1);
    schedule := [e] + rest;
    assert schedule[1..] == rest;
    ExecFirst(job, s, schedule, rest, s1);
  }

  lemma EveryRunCanEnd(job: Job, s: State) returns (schedule: seq<Event>)
    requires job.Valid() && Reachable(job, s) && !s.consumer.Dead?
    ensures Ended(Exec(job, s, schedule))
  {
    hide Inv, ErrorSeen, Step, Exec, Ended;
    ReachableInv(job, s);
    var states, events :| RunTo(job, states, events, s);
    RunKeepsSeen(job, states, events, |events|);
    schedule := CanEnd(job, s);
  }
}
