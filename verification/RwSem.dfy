/** The writer-preferring reader/writer semaphore as atomic steps.  Every step runs under the
    semaphore's spinlock: a call either acquires at once or puts the task to sleep on a queue, and
    a task that was woken re-checks its condition in a later step of its own. */
module RwSem {

  type Task = int

  datatype Option<+T> = None | Some(value: T)

  /** Where a task is inside the semaphore code.  `Asleep` tasks are on a wait queue, `Awake` ones
      are about to test their condition again. */
  datatype Phase = Out | ReaderAsleep | ReaderAwake | WriterAsleep | WriterAwake

  /** The fields of rwsem_t, the phase of every task, and who actually holds the semaphore: reads
      taken as a reader, reads taken by the active writer, and writes. */
  datatype State = State(
    readers: int, waiting: int, depth: int, writer: Option<Task>,
    readerQueue: seq<Task>, writerQueue: seq<Task>, phase: map<Task, Phase>,
    readHolds: multiset<Task>, nestedHolds: multiset<Task>, writeHolds: multiset<Task>)

  function Init(tasks: set<Task>): State {
    State(0, 0, 0, None, [], [], map t | t in tasks :: Out, multiset{}, multiset{}, multiset{})
  }

  predicate MayRead(s: State) { s.waiting == 0 && s.writer == None }

  predicate MayWrite(s: State) { s.readers == 0 && s.writer == None }

  /** wakeup_queue: the first `count` waiters, or all of them when `count` is 0. */
  function Woken(queue: seq<Task>, count: nat): nat {
    if count == 0 || |queue| < count then |queue| else count
  }

  /** unblock_task: a task that sleeps wakes up, any other stays as it is. */
  function Roused(p: Phase): Phase {
    match p case ReaderAsleep => ReaderAwake case WriterAsleep => WriterAwake case _ => p
  }

  function Rouse(phase: map<Task, Phase>, ts: seq<Task>): map<Task, Phase> {
    map t | t in phase :: if t in ts then Roused(phase[t]) else phase[t]
  }

  function WakeWriter(s: State): State {
    var n := Woken(s.writerQueue, 1);
    s.(writerQueue := s.writerQueue[n..], phase := Rouse(s.phase, s.writerQueue[..n]))
  }

  function WakeReaders(s: State): State {
    var n := Woken(s.readerQueue, 0);
    s.(readerQueue := s.readerQueue[n..], phase := Rouse(s.phase, s.readerQueue[..n]))
  }

  /** One turn of the wait loop of rwsem_acquire_read. */
  function TryRead(s: State, t: Task): State {
    if MayRead(s) then s.(readers := s.readers + 1, readHolds := s.readHolds + multiset{t}, phase := s.phase[t := Out])
    else s.(readerQueue := s.readerQueue + [t], phase := s.phase[t := ReaderAsleep])
  }

  function AcquireRead(s: State, t: Task): State {
    if s.writer == Some(t) then s.(depth := s.depth + 1, nestedHolds := s.nestedHolds + multiset{t}) else TryRead(s, t)
  }

  predicate CanReleaseRead(s: State, t: Task) {
    if s.writer == Some(t) then s.depth > 0 && t in s.nestedHolds else s.readers > 0 && t in s.readHolds
  }

  function ReleaseRead(s: State, t: Task): State
    requires CanReleaseRead(s, t)
  {
    if s.writer == Some(t) then s.(depth := s.depth - 1, nestedHolds := s.nestedHolds - multiset{t})
    else
      var s' := s.(readers := s.readers - 1, readHolds := s.readHolds - multiset{t});
      if s'.readers == 0 then WakeWriter(s') else s'
  }

  /** One turn of the wait loop of rwsem_acquire_write; the task is counted in `waiting`. */
  function TryWrite(s: State, t: Task): State {
    if MayWrite(s) then
      s.(waiting := s.waiting - 1, writer := Some(t), depth := 1,
         writeHolds := s.writeHolds + multiset{t}, phase := s.phase[t := Out])
    else s.(writerQueue := s.writerQueue + [t], phase := s.phase[t := WriterAsleep])
  }

  function AcquireWrite(s: State, t: Task): State {
    if s.writer == Some(t) then s.(depth := s.depth + 1, writeHolds := s.writeHolds + multiset{t})
    else TryWrite(s.(waiting := s.waiting + 1), t)
  }

  predicate CanReleaseWrite(s: State, t: Task) { s.writer == Some(t) && s.depth > 0 && t in s.writeHolds }

  function ReleaseWrite(s: State, t: Task): State
    requires CanReleaseWrite(s, t)
  {
    var s' := s.(depth := s.depth - 1, writeHolds := s.writeHolds - multiset{t});
    if s'.depth > 0 then s'
    else
      var f := s'.(writer := None);
      if f.waiting > 0 then WakeWriter(f) else WakeReaders(f)
  }

  // ---- the invariant ----

  ghost predicate NoDup(q: seq<Task>) { forall i, j :: 0 <= i < j < |q| ==> q[i] != q[j] }

  /** Each queue lists exactly the tasks asleep on it, once. */
  ghost predicate QueuesOk(rq: seq<Task>, wq: seq<Task>, phase: map<Task, Phase>) {
    && NoDup(rq) && NoDup(wq)
    && (forall t :: t in rq <==> t in phase && phase[t] == ReaderAsleep)
    && (forall t :: t in wq <==> t in phase && phase[t] == WriterAsleep)
  }

  ghost function WaitingWriters(phase: map<Task, Phase>): set<Task> {
    set t | t in phase && (phase[t] == WriterAsleep || phase[t] == WriterAwake)
  }

  /** The counters match the holders, and an active writer excludes everybody else. */
  ghost predicate HoldersOk(s: State) {
    && s.readers == |s.readHolds| && s.waiting == |WaitingWriters(s.phase)|
    && s.depth == |s.writeHolds| + |s.nestedHolds|
    && (s.writer == None ==> s.depth == 0)
    && (s.writer.Some? ==> var t := s.writer.value;
          s.readers == 0 && t in s.phase && s.phase[t] == Out && t in s.writeHolds &&
          (forall u :: u in s.writeHolds || u in s.nestedHolds ==> u == t))
  }

  ghost predicate WriterIsAwake(phase: map<Task, Phase>) {
    exists t :: t in phase && phase[t] == WriterAwake
  }

  /** A free semaphore with a waiting writer has a writer awake; without a writer active or
      waiting no reader sleeps. */
  ghost predicate NoLostWakeup(s: State) {
    && (s.readers == 0 && s.writer == None && s.waiting > 0 ==> WriterIsAwake(s.phase))
    && (s.writer == None && s.waiting == 0 ==> s.readerQueue == [])
  }

  ghost predicate Inv(s: State) {
    QueuesOk(s.readerQueue, s.writerQueue, s.phase) && HoldersOk(s) && NoLostWakeup(s)
  }

  // ---- every step keeps it ----

  lemma InitInv(tasks: set<Task>)
    ensures Inv(Init(tasks))
  {
    assert WaitingWriters(Init(tasks).phase) == {};
  }

  lemma WaitingAfter(phase: map<Task, Phase>, t: Task, p: Phase)
    requires t in phase
    ensures WaitingWriters(phase[t := p]) ==
            if p == WriterAsleep || p == WriterAwake then WaitingWriters(phase) + {t} else WaitingWriters(phase) - {t}
  {
  }

  lemma SleepQueues(rq: seq<Task>, wq: seq<Task>, phase: map<Task, Phase>, t: Task)
    requires QueuesOk(rq, wq, phase) && t in phase && phase[t] != ReaderAsleep && phase[t] != WriterAsleep
    ensures QueuesOk(rq + [t], wq, phase[t := ReaderAsleep])
    ensures QueuesOk(rq, wq + [t], phase[t := WriterAsleep])
    ensures QueuesOk(rq, wq, phase[t := Out])
  {
  }

  lemma NotWaiting(phase: map<Task, Phase>, t: Task, p: Phase)
    requires t in phase && phase[t] != WriterAsleep && phase[t] != WriterAwake
    ensures t !in WaitingWriters(phase) && WaitingWriters(phase) - {t} == WaitingWriters(phase)
    ensures WriterIsAwake(phase) ==> WriterIsAwake(phase[t := p])
  {
    if WriterIsAwake(phase) {
      var u :| u in phase && phase[u] == WriterAwake;
      assert phase[t := p][u] == WriterAwake;
    }
  }

  /** A task that goes to sleep, or goes out, without holding or releasing anything. */
  lemma PhaseChange(s: State, t: Task, rq: seq<Task>, wq: seq<Task>, p: Phase)
    requires Inv(s) && t in s.phase && s.phase[t] != WriterAsleep && s.phase[t] != WriterAwake && s.writer != Some(t)
    requires p != WriterAsleep && p != WriterAwake && QueuesOk(rq, wq, s.phase[t := p])
    requires rq == s.readerQueue || !MayRead(s)
    ensures Inv(s.(readerQueue := rq, writerQueue := wq, phase := s.phase[t := p]))
  {
    hide QueuesOk, WaitingWriters, WriterIsAwake;
    WaitingAfter(s.phase, t, p);
    NotWaiting(s.phase, t, p);
  }

  lemma TryReadInv(s: State, t: Task)
    requires Inv(s) && t in s.phase && (s.phase[t] == Out || s.phase[t] == ReaderAwake) && s.writer != Some(t)
    ensures Inv(TryRead(s, t))
  {
    hide QueuesOk, WaitingWriters, WriterIsAwake;
    SleepQueues(s.readerQueue, s.writerQueue, s.phase, t);
    if MayRead(s) {
      PhaseChange(s, t, s.readerQueue, s.writerQueue, Out);
    } else {
      PhaseChange(s, t, s.readerQueue + [t], s.writerQueue, ReaderAsleep);
    }
  }

  /** The waiting writers are the sleeping ones and the woken ones. */
  lemma AwakeWriterExists(rq: seq<Task>, wq: seq<Task>, phase: map<Task, Phase>)
    requires QueuesOk(rq, wq, phase) && wq == []
    ensures |WaitingWriters(phase)| > 0 ==> WriterIsAwake(phase)
  {
    if !WriterIsAwake(phase) {
      forall t ensures t !in WaitingWriters(phase) { assert t !in wq; }
      assert WaitingWriters(phase) == {};
    }
  }

  lemma WakeWriterKeeps(s: State)
    requires QueuesOk(s.readerQueue, s.writerQueue, s.phase)
    ensures var s' := WakeWriter(s);
      && QueuesOk(s'.readerQueue, s'.writerQueue, s'.phase)
      && WaitingWriters(s'.phase) == WaitingWriters(s.phase) && s'.phase.Keys == s.phase.Keys
      && (|WaitingWriters(s.phase)| > 0 ==> WriterIsAwake(s'.phase))
      && (forall t :: t in s.phase && s.phase[t] == Out ==> s'.phase[t] == Out)
  {
    var s' := WakeWriter(s);
    if s.writerQueue == [] {
      assert s'.phase == s.phase;
      AwakeWriterExists(s.readerQueue, s.writerQueue, s.phase);
    } else {
      var w := s.writerQueue[0];
      assert s.writerQueue[..1] == [w] && w in s.writerQueue;
      assert s'.phase == s.phase[w := WriterAwake];
      assert s.writerQueue == [w] + s'.writerQueue;
    }
  }

  /** Waking the first writer keeps the invariant, whatever made the caller wake it. */
  lemma WakeWriterInv(s: State)
    requires QueuesOk(s.readerQueue, s.writerQueue, s.phase) && HoldersOk(s)
    requires s.writer == None && s.waiting == 0 ==> s.readerQueue == []
    ensures Inv(WakeWriter(s))
  {
    hide QueuesOk, WaitingWriters, WriterIsAwake, Rouse, Woken;
    WakeWriterKeeps(s);
  }

  lemma SameWakeups(s: State, s': State)
    requires NoLostWakeup(s) && s'.writer == s.writer && s'.waiting == s.waiting && s'.phase == s.phase
    requires s'.readerQueue == s.readerQueue && (s'.readers == 0 ==> s.readers == 0 || s.writer.Some?)
    ensures NoLostWakeup(s')
  {
  }

  lemma QuietWakeups(s: State)
    requires NoLostWakeup(s)
    ensures s.writer == None && s.waiting == 0 ==> s.readerQueue == []
  {
  }

  lemma ReleaseReadInv(s: State, t: Task)
    requires Inv(s) && t in s.phase && s.phase[t] == Out && CanReleaseRead(s, t)
    ensures Inv(ReleaseRead(s, t))
  {
    hide QueuesOk, WaitingWriters, NoLostWakeup, WakeWriter;
    QuietWakeups(s);
    if s.writer != Some(t) && s.readers == 1 {
      WakeWriterInv(s.(readers := s.readers - 1, readHolds := s.readHolds - multiset{t}));
    } else {
      SameWakeups(s, ReleaseRead(s, t));
    }
  }

  lemma TryWriteInv(s: State, t: Task)
    requires Inv(s) && t in s.phase && s.phase[t] == WriterAwake
    ensures Inv(TryWrite(s, t))
  {
    hide QueuesOk;
    SleepQueues(s.readerQueue, s.writerQueue, s.phase, t);
    var s' := TryWrite(s, t);
    WaitingAfter(s.phase, t, s'.phase[t]);
    assert t in WaitingWriters(s.phase) && WaitingWriters(s.phase) + {t} == WaitingWriters(s.phase);
    if MayWrite(s) {
      assert s'.writeHolds == multiset{t} && s'.nestedHolds == multiset{};
    }
  }

  /** Counting a new writer is like finding it awake, about to test its condition. */
  lemma EnterWriteInv(s: State, t: Task)
    requires Inv(s) && t in s.phase && s.phase[t] == Out && s.writer != Some(t)
    ensures Inv(s.(waiting := s.waiting + 1, phase := s.phase[t := WriterAwake]))
  {
    var phase := s.phase[t := WriterAwake];
    WaitingAfter(s.phase, t, WriterAwake);
    assert t in phase && phase[t] == WriterAwake;
    assert t !in s.readerQueue && t !in s.writerQueue;
  }

  lemma AcquireWriteInv(s: State, t: Task)
    requires Inv(s) && t in s.phase && s.phase[t] == Out
    ensures Inv(AcquireWrite(s, t))
  {
    hide QueuesOk, WaitingWriters, WriterIsAwake;
    if s.writer != Some(t) {
      EnterWriteInv(s, t);
      var entered := s.(waiting := s.waiting + 1, phase := s.phase[t := WriterAwake]);
      TryWriteInv(entered, t);
      assert entered.phase[t := Out] == s.phase[t := Out];
      assert entered.phase[t := WriterAsleep] == s.phase[t := WriterAsleep];
    }
  }

  lemma WakeReadersKeeps(s: State)
    requires QueuesOk(s.readerQueue, s.writerQueue, s.phase)
    ensures var s' := WakeReaders(s);
      && QueuesOk(s'.readerQueue, s'.writerQueue, s'.phase) && s'.readerQueue == []
      && WaitingWriters(s'.phase) == WaitingWriters(s.phase) && s'.phase.Keys == s.phase.Keys
  {
    var s' := WakeReaders(s);
    assert s.readerQueue[..|s.readerQueue|] == s.readerQueue;
    forall t ensures t in WaitingWriters(s'.phase) <==> t in WaitingWriters(s.phase) { }
  }

  /** Releasing the last write while nested reads are still held leaves a writer active that holds
      no write; every other release keeps the invariant. */
  lemma ReleaseWriteInv(s: State, t: Task)
    requires Inv(s) && CanReleaseWrite(s, t)
    ensures Inv(ReleaseWrite(s, t)) <==> |s.writeHolds| > 1 || |s.nestedHolds| == 0
  {
    hide QueuesOk, WaitingWriters, WriterIsAwake;
    var s' := s.(depth := s.depth - 1, writeHolds := s.writeHolds - multiset{t});
    AllSame(s.writeHolds, t);
    if s'.depth == 0 {
      var f := s'.(writer := None);
      WakeWriterKeeps(f);
      WakeReadersKeeps(f);
    }
  }

  lemma AllSame(m: multiset<Task>, t: Task)
    requires forall u :: u in m ==> u == t
    ensures m[t] == |m| && m[t := 0] == multiset{}
  {
    var rest := m[t := 0];
    forall u ensures u !in rest { }
    assert rest == multiset{};
    assert m == rest[t := m[t]];
  }

  // ---- whole runs ----

  datatype Event =
    | CallAcquireRead(t: Task) | RetryRead(t: Task) | CallReleaseRead(t: Task)
    | CallAcquireWrite(t: Task) | RetryWrite(t: Task) | CallReleaseWrite(t: Task) | StrayWake(t: Task)

  /** A task calls while outside, retries once it was woken, and releases what it holds; the last
      write is released after the reads nested in it (LIFO). Anything in the kernel may also wake a
      sleeping task, which leaves its node on the queue. */
  ghost predicate Enabled(s: State, e: Event) {
    && e.t in s.phase
    && match e
       case CallAcquireRead(t) => s.phase[t] == Out
       case RetryRead(t) => s.phase[t] == ReaderAwake
       case CallReleaseRead(t) => s.phase[t] == Out && CanReleaseRead(s, t)
       case CallAcquireWrite(t) => s.phase[t] == Out
       case RetryWrite(t) => s.phase[t] == WriterAwake
       case CallReleaseWrite(t) => CanReleaseWrite(s, t) && (|s.writeHolds| > 1 || |s.nestedHolds| == 0)
       case StrayWake(t) => s.phase[t] == ReaderAsleep || s.phase[t] == WriterAsleep
  }

  ghost function Apply(s: State, e: Event): State
    requires Enabled(s, e)
  {
    match e
    case CallAcquireRead(t) => AcquireRead(s, t)
    case RetryRead(t) => TryRead(s, t)
    case CallReleaseRead(t) => ReleaseRead(s, t)
    case CallAcquireWrite(t) => AcquireWrite(s, t)
    case RetryWrite(t) => TryWrite(s, t)
    case CallReleaseWrite(t) => ReleaseWrite(s, t)
    case StrayWake(t) => s.(phase := s.phase[t := Roused(s.phase[t])])
  }

  /** `trace` lists the states of one interleaving of the tasks, from the initial one on. */
  ghost predicate IsRun(tasks: set<Task>, trace: seq<State>, events: seq<Event>) {
    && |trace| == |events| + 1 && trace[0] == Init(tasks)
    && forall i :: 0 <= i < |events| ==> Enabled(trace[i], events[i]) && trace[i + 1] == Apply(trace[i], events[i])
  }

  /** Every step of the semaphore's own keeps the invariant. */
  lemma StepInv(s: State, e: Event)
    requires Inv(s) && Enabled(s, e) && !e.StrayWake?
    ensures Inv(Apply(s, e))
  {
    hide QueuesOk, WaitingWriters, WriterIsAwake, NoLostWakeup, WakeWriter, WakeReaders;
    match e
    case CallAcquireRead(t) => if s.writer != Some(t) { TryReadInv(s, t); } else { NestedReadInv(s, t); }
    case RetryRead(t) => TryReadInv(s, t);
    case CallReleaseRead(t) => ReleaseReadInv(s, t);
    case CallAcquireWrite(t) => AcquireWriteInv(s, t);
    case RetryWrite(t) => TryWriteInv(s, t);
    case CallReleaseWrite(t) => ReleaseWriteInv(s, t);
  }

  lemma NestedReadInv(s: State, t: Task)
    requires Inv(s) && s.writer == Some(t)
    ensures Inv(s.(depth := s.depth + 1, nestedHolds := s.nestedHolds + multiset{t}))
  {
    hide QueuesOk, WaitingWriters, WriterIsAwake;
  }

  /** Only wakeup_queue wakes. */
  ghost predicate Calm(events: seq<Event>) { forall e :: e in events ==> !e.StrayWake? }

  lemma {:induction false} RunInv(tasks: set<Task>, trace: seq<State>, events: seq<Event>, i: nat)
    requires IsRun(tasks, trace, events) && i < |trace| && Calm(events)
    ensures Inv(trace[i])
  {
    if i == 0 {
      InitInv(tasks);
    } else {
      RunInv(tasks, trace, events, i - 1);
      StepInv(trace[i - 1], events[i - 1]);
    }
  }

  lemma EmptyBySize(m: multiset<Task>)
    ensures |m| == 0 ==> m == multiset{}
  {
  }

  // ---- what holds whoever wakes the sleepers ----

  ghost predicate SleepersQueued(rq: seq<Task>, wq: seq<Task>, phase: map<Task, Phase>) {
    forall t :: t in phase ==> (phase[t] == ReaderAsleep ==> t in rq) && (phase[t] == WriterAsleep ==> t in wq)
  }

  ghost predicate NoReaderSleeps(phase: map<Task, Phase>) { forall t :: t in phase ==> phase[t] != ReaderAsleep }

  /** The counters match the holders, sleepers are on their queues, which may also have nodes of tasks that
      do not sleep, and without a writer active or waiting no reader sleeps. */
  ghost predicate Base(s: State) {
    && HoldersOk(s) && SleepersQueued(s.readerQueue, s.writerQueue, s.phase)
    && (s.writer == None && s.waiting == 0 ==> NoReaderSleeps(s.phase))
  }

  /** A free semaphore with waiting writers has one of them awake. */
  ghost predicate WritersAwake(s: State) {
    s.readers == 0 && s.writer == None && s.waiting > 0 ==> WriterIsAwake(s.phase)
  }

  lemma RouseKeeps(phase: map<Task, Phase>, ts: seq<Task>)
    ensures var phase' := Rouse(phase, ts);
      && phase'.Keys == phase.Keys && WaitingWriters(phase') == WaitingWriters(phase)
      && (forall t :: t in phase ==> phase'[t] == if t in ts then Roused(phase[t]) else phase[t])
      && (NoReaderSleeps(phase) ==> NoReaderSleeps(phase'))
  {
    var phase' := Rouse(phase, ts);
    assert phase'.Keys == phase.Keys;
    forall t ensures t in WaitingWriters(phase') <==> t in WaitingWriters(phase) {
      assert t in phase' <==> t in phase;
    }
  }

  lemma QueueAfter(rq: seq<Task>, wq: seq<Task>, phase: map<Task, Phase>, t: Task)
    requires SleepersQueued(rq, wq, phase) && t in phase
    ensures SleepersQueued(rq + [t], wq, phase[t := ReaderAsleep]) && SleepersQueued(rq, wq + [t], phase[t := WriterAsleep])
    ensures SleepersQueued(rq, wq, phase[t := Out]) && SleepersQueued(rq, wq, phase[t := Roused(phase[t])])
    ensures SleepersQueued(rq, wq, phase[t := WriterAwake])
  {
  }

  /** The first node of the writer queue belongs to a writer that sleeps. */
  ghost predicate HeadSleeps(s: State) {
    s.writerQueue != [] && s.writerQueue[0] in s.phase && s.phase[s.writerQueue[0]] == WriterAsleep
  }

  /** A release that frees the semaphore for waiting writers, none of which is awake, and takes its one
      wakeup to a node whose task is not a sleeping writer. */
  ghost predicate Misdirected(s: State, e: Event) {
    && s.waiting > 0 && !WriterIsAwake(s.phase) && !HeadSleeps(s)
    && ((e.CallReleaseRead? && s.writer != Some(e.t) && s.readers == 1) || (e.CallReleaseWrite? && s.depth == 1))
  }

  lemma WakeWriterBase(s: State)
    requires Base(s)
    ensures Base(WakeWriter(s))
    ensures WriterIsAwake(WakeWriter(s).phase) <==> WriterIsAwake(s.phase) || HeadSleeps(s)
  {
    hide WaitingWriters, Rouse, WriterIsAwake, HeadSleeps;
    var n := Woken(s.writerQueue, 1);
    RouseKeeps(s.phase, s.writerQueue[..n]);
    assert s.writerQueue == s.writerQueue[..n] + s.writerQueue[n..];
    RouseHead(s);
  }

  lemma RouseHead(s: State)
    ensures var n := Woken(s.writerQueue, 1);
      WriterIsAwake(Rouse(s.phase, s.writerQueue[..n])) <==> WriterIsAwake(s.phase) || HeadSleeps(s)
  {
    var n := Woken(s.writerQueue, 1);
    var first := s.writerQueue[..n];
    var phase' := Rouse(s.phase, first);
    if WriterIsAwake(s.phase) {
      var t :| t in s.phase && s.phase[t] == WriterAwake;
      assert phase'[t] == WriterAwake;
    }
    if HeadSleeps(s) {
      var t := s.writerQueue[0];
      assert t == first[0] && phase'[t] == Roused(s.phase[t]) == WriterAwake;
    } else {
      forall t | t in phase' && phase'[t] == WriterAwake ensures s.phase[t] == WriterAwake {
        assert t in first ==> t == s.writerQueue[0];
      }
    }
  }

  lemma WakeReadersBase(s: State)
    requires HoldersOk(s) && SleepersQueued(s.readerQueue, s.writerQueue, s.phase)
    ensures Base(WakeReaders(s))
  {
    hide WaitingWriters, Rouse;
    RouseKeeps(s.phase, s.readerQueue[..|s.readerQueue|]);
    assert s.readerQueue[..|s.readerQueue|] == s.readerQueue;
  }

  lemma TryReadBase(s: State, t: Task)
    requires Base(s) && t in s.phase && (s.phase[t] == Out || s.phase[t] == ReaderAwake) && s.writer != Some(t)
    ensures Base(TryRead(s, t)) && (WritersAwake(s) ==> WritersAwake(TryRead(s, t)))
  {
    hide WaitingWriters, WriterIsAwake;
    QueueAfter(s.readerQueue, s.writerQueue, s.phase, t);
    WaitingAfter(s.phase, t, Out);
    WaitingAfter(s.phase, t, ReaderAsleep);
    NotWaiting(s.phase, t, Out);
    NotWaiting(s.phase, t, ReaderAsleep);
  }

  lemma ReleaseReadBase(s: State, t: Task)
    requires Base(s) && t in s.phase && s.phase[t] == Out && CanReleaseRead(s, t)
    ensures Base(ReleaseRead(s, t))
    ensures WritersAwake(s) ==> (WritersAwake(ReleaseRead(s, t)) <==> !Misdirected(s, CallReleaseRead(t)))
  {
    hide WaitingWriters, WriterIsAwake, WakeWriter, SleepersQueued, NoReaderSleeps;
    if s.writer != Some(t) && s.readers == 1 {
      var f := s.(readers := s.readers - 1, readHolds := s.readHolds - multiset{t});
      WakeWriterBase(f);
      SameCounts(f);
    }
  }

  lemma SameCounts(s: State)
    ensures WakeWriter(s).readers == s.readers && WakeWriter(s).writer == s.writer && WakeWriter(s).waiting == s.waiting
  {
  }

  lemma TryWriteBase(s: State, t: Task)
    requires Base(s) && t in s.phase && s.phase[t] == WriterAwake
    ensures Base(TryWrite(s, t)) && WritersAwake(TryWrite(s, t))
  {
    hide WriterIsAwake, NoReaderSleeps, SleepersQueued;
    QueueAfter(s.readerQueue, s.writerQueue, s.phase, t);
    WaitingAfter(s.phase, t, Out);
    WaitingAfter(s.phase, t, WriterAsleep);
    assert t in WaitingWriters(s.phase) && WaitingWriters(s.phase) + {t} == WaitingWriters(s.phase);
    if MayWrite(s) { assert TryWrite(s, t).writeHolds == multiset{t} && TryWrite(s, t).nestedHolds == multiset{}; }
  }

  lemma EnterWriteBase(s: State, t: Task)
    requires Base(s) && t in s.phase && s.phase[t] == Out && s.writer != Some(t)
    ensures Base(s.(waiting := s.waiting + 1, phase := s.phase[t := WriterAwake]))
  {
    hide WriterIsAwake, NoReaderSleeps, SleepersQueued;
    QueueAfter(s.readerQueue, s.writerQueue, s.phase, t);
    WaitingAfter(s.phase, t, WriterAwake);
    assert t !in WaitingWriters(s.phase);
  }

  lemma AcquireWriteBase(s: State, t: Task)
    requires Base(s) && t in s.phase && s.phase[t] == Out
    ensures Base(AcquireWrite(s, t)) && WritersAwake(AcquireWrite(s, t))
  {
    hide Base, WaitingWriters, WriterIsAwake;
    if s.writer != Some(t) {
      EnterWriteBase(s, t);
      var entered := s.(waiting := s.waiting + 1, phase := s.phase[t := WriterAwake]);
      TryWriteBase(entered, t);
      assert entered.phase[t := Out] == s.phase[t := Out];
      assert entered.phase[t := WriterAsleep] == s.phase[t := WriterAsleep];
    } else {
      NestedWriteBase(s, t);
    }
  }

  lemma NestedWriteBase(s: State, t: Task)
    requires Base(s) && s.writer == Some(t)
    ensures Base(s.(depth := s.depth + 1, writeHolds := s.writeHolds + multiset{t}))
    ensures Base(s.(depth := s.depth + 1, nestedHolds := s.nestedHolds + multiset{t}))
  {
    hide WaitingWriters, SleepersQueued, NoReaderSleeps;
  }

  lemma ReleaseWriteBase(s: State, t: Task)
    requires Base(s) && CanReleaseWrite(s, t) && (|s.writeHolds| > 1 || |s.nestedHolds| == 0)
    ensures Base(ReleaseWrite(s, t))
    ensures WritersAwake(s) ==> (WritersAwake(ReleaseWrite(s, t)) <==> !Misdirected(s, CallReleaseWrite(t)))
  {
    hide WaitingWriters, WriterIsAwake, WakeWriter, WakeReaders, SleepersQueued, NoReaderSleeps;
    var s' := s.(depth := s.depth - 1, writeHolds := s.writeHolds - multiset{t});
    AllSame(s.writeHolds, t);
    if s'.depth == 0 {
      var f := s'.(writer := None);
      WakeReadersBase(f);
      SameCounts(f);
      SameReaderCounts(f);
      if f.waiting > 0 { WakeWriterBase(f); }
    }
  }

  lemma SameReaderCounts(s: State)
    ensures WakeReaders(s).waiting == s.waiting
  {
  }

  lemma StrayBase(s: State, t: Task)
    requires Base(s) && t in s.phase && (s.phase[t] == ReaderAsleep || s.phase[t] == WriterAsleep)
    ensures var s' := s.(phase := s.phase[t := Roused(s.phase[t])]);
      Base(s') && (WritersAwake(s) ==> WritersAwake(s'))
  {
    hide WaitingWriters;
    var s' := s.(phase := s.phase[t := Roused(s.phase[t])]);
    QueueAfter(s.readerQueue, s.writerQueue, s.phase, t);
    RouseKeeps(s.phase, [t]);
    assert s'.phase == Rouse(s.phase, [t]);
    if WriterIsAwake(s.phase) {
      var u :| u in s.phase && s.phase[u] == WriterAwake;
      assert s'.phase[u] == WriterAwake;
    }
  }

  /** Every step, also a wakeup from elsewhere, keeps Base; exactly a misdirected release loses a wakeup. */
  lemma AwakeStepIff(s: State, e: Event)
    requires Base(s) && Enabled(s, e)
    ensures Base(Apply(s, e))
    ensures WritersAwake(s) ==> (WritersAwake(Apply(s, e)) <==> !Misdirected(s, e))
  {
    hide Base, WaitingWriters, WriterIsAwake, WakeWriter, WakeReaders, WritersAwake, HeadSleeps;
    WriterBlocks(s);
    match e
    case CallAcquireRead(t) =>
      if s.writer != Some(t) { TryReadBase(s, t); } else { NestedWriteBase(s, t); WriterBlocks(Apply(s, e)); }
    case RetryRead(t) => TryReadBase(s, t);
    case CallReleaseRead(t) => ReleaseReadBase(s, t);
    case CallAcquireWrite(t) => AcquireWriteBase(s, t);
    case RetryWrite(t) => TryWriteBase(s, t);
    case CallReleaseWrite(t) => ReleaseWriteBase(s, t);
    case StrayWake(t) => StrayBase(s, t);
  }

  lemma WriterBlocks(s: State)
    ensures Base(s) && s.writer.Some? ==>
      WritersAwake(s) && s.writer.value in s.phase && s.phase[s.writer.value] == Out
  {
  }

  lemma {:induction false} RunBase(tasks: set<Task>, trace: seq<State>, events: seq<Event>, i: nat)
    requires IsRun(tasks, trace, events) && i < |trace|
    ensures Base(trace[i])
  {
    if i == 0 {
      assert WaitingWriters(Init(tasks).phase) == {};
    } else {
      RunBase(tasks, trace, events, i - 1);
      AwakeStepIff(trace[i - 1], events[i - 1]);
    }
  }

  /** Mutual exclusion in every state of every interleaving, whoever wakes the sleepers: while a task
      writes, nobody else writes or reads, and the counters say who holds the semaphore and who waits. */
  lemma Exclusion(tasks: set<Task>, trace: seq<State>, events: seq<Event>, i: nat)
    requires IsRun(tasks, trace, events) && i < |trace|
    ensures var s := trace[i];
      && s.readers == |s.readHolds| && s.waiting == |WaitingWriters(s.phase)| && s.depth == |s.writeHolds| + |s.nestedHolds|
      && (forall t, u :: t in s.writeHolds && (u in s.writeHolds || u in s.nestedHolds) ==> t == u)
      && (s.writeHolds != multiset{} ==> s.readHolds == multiset{})
      && (s.writer == None <==> s.writeHolds == multiset{} && s.nestedHolds == multiset{})
  {
    RunBase(tasks, trace, events, i);
    var s := trace[i];
    EmptyBySize(s.readHolds);
    EmptyBySize(s.writeHolds);
    EmptyBySize(s.nestedHolds);
  }

  /** Some task waits to write. */
  ghost predicate WriterWaits(s: State) {
    exists t :: t in s.phase && (s.phase[t] == WriterAsleep || s.phase[t] == WriterAwake)
  }

  lemma WaitingIff(s: State)
    requires HoldersOk(s)
    ensures WriterWaits(s) <==> s.waiting > 0
  {
    if WriterWaits(s) {
      var t :| t in s.phase && (s.phase[t] == WriterAsleep || s.phase[t] == WriterAwake);
      assert t in WaitingWriters(s.phase);
    } else {
      forall t ensures t !in WaitingWriters(s.phase) { }
      assert WaitingWriters(s.phase) == {};
    }
  }

  /** Writers go first, in every run: the holders that a waiting writer waits for never become more. */
  lemma WritersFirst(tasks: set<Task>, trace: seq<State>, events: seq<Event>, i: nat)
    requires IsRun(tasks, trace, events) && i < |events| && WriterWaits(trace[i])
    ensures trace[i + 1].readHolds <= trace[i].readHolds
  {
    hide WaitingWriters, Base, WriterWaits;
    RunBase(tasks, trace, events, i);
    BaseHolders(trace[i]);
    WaitingIff(trace[i]);
  }

  lemma BaseHolders(s: State)
    requires Base(s)
    ensures HoldersOk(s)
  {
  }

  /** Nobody holds the semaphore for writing or as a writer that reads. */
  ghost predicate NobodyWrites(s: State) { s.writeHolds == multiset{} && s.nestedHolds == multiset{} }

  /** In every run a step that asks for a read gets it exactly if the task writes itself, or nobody writes and
      nobody waits to write; otherwise the task sleeps. */
  lemma ReadTakenIff(tasks: set<Task>, trace: seq<State>, events: seq<Event>, i: nat)
    requires IsRun(tasks, trace, events) && i < |events| && (events[i].CallAcquireRead? || events[i].RetryRead?)
    ensures var s, s', t := trace[i], trace[i + 1], events[i].t;
      if t in s.writeHolds then s'.nestedHolds == s.nestedHolds + multiset{t}
      else if NobodyWrites(s) && !WriterWaits(s) then s'.readHolds == s.readHolds + multiset{t} && s'.phase[t] == Out
      else s'.readHolds == s.readHolds && s'.phase[t] == ReaderAsleep && t in s'.readerQueue
  {
    hide WaitingWriters, WriterWaits;
    RunBase(tasks, trace, events, i);
    WaitingIff(trace[i]);
    EmptyBySize(trace[i].writeHolds);
    EmptyBySize(trace[i].nestedHolds);
  }

  /** And a write exactly if the task writes already, or nobody holds the semaphore. */
  lemma WriteTakenIff(tasks: set<Task>, trace: seq<State>, events: seq<Event>, i: nat)
    requires IsRun(tasks, trace, events) && i < |events| && (events[i].CallAcquireWrite? || events[i].RetryWrite?)
    ensures var s, s', t := trace[i], trace[i + 1], events[i].t;
      if t in s.writeHolds || (NobodyWrites(s) && s.readHolds == multiset{})
      then s'.writeHolds == s.writeHolds + multiset{t} && s'.phase[t] == Out
      else s'.writeHolds == s.writeHolds && s'.phase[t] == WriterAsleep && t in s'.writerQueue
  {
    hide WaitingWriters;
    RunBase(tasks, trace, events, i);
    EmptyBySize(trace[i].writeHolds);
    EmptyBySize(trace[i].nestedHolds);
    EmptyBySize(trace[i].readHolds);
  }

  /** The queue of writers is as before, or has the task at its end, which sleeps, or has lost its first node,
      whose task wakes. */
  ghost predicate WritersInOrder(s: State, s': State, t: Task) {
    || s'.writerQueue == s.writerQueue
    || (s'.writerQueue == s.writerQueue + [t] && t in s'.phase && s'.phase[t] == WriterAsleep)
    || (s.writerQueue != [] && s'.writerQueue == s.writerQueue[1..] && s'.phase == Rouse(s.phase, [s.writerQueue[0]]))
  }

  /** The queue of readers is as before, or has the task at its end, which sleeps, or all readers wake, which
      happens only if no writer waits. */
  ghost predicate ReadersInOrder(s: State, s': State, t: Task) {
    || s'.readerQueue == s.readerQueue
    || (s'.readerQueue == s.readerQueue + [t] && t in s'.phase && s'.phase[t] == ReaderAsleep)
    || (s'.readerQueue == [] && NoReaderSleeps(s'.phase) && s.waiting == 0)
  }

  /** Both queues are first in, first out, in every run. */
  lemma QueuesInOrder(tasks: set<Task>, trace: seq<State>, events: seq<Event>, i: nat)
    requires IsRun(tasks, trace, events) && i < |events|
    ensures WritersInOrder(trace[i], trace[i + 1], events[i].t) && ReadersInOrder(trace[i], trace[i + 1], events[i].t)
  {
    hide Base, Apply, WritersInOrder, ReadersInOrder;
    RunBase(tasks, trace, events, i);
    StepInOrder(trace[i], events[i]);
  }

  lemma StepInOrder(s: State, e: Event)
    requires Base(s) && Enabled(s, e)
    ensures WritersInOrder(s, Apply(s, e), e.t) && ReadersInOrder(s, Apply(s, e), e.t)
  {
    hide HoldersOk, Rouse, WakeWriter, WakeReaders, NoReaderSleeps, ReleaseRead, ReleaseWrite;
    if e.CallReleaseRead? {
      ReleaseReadOrder(s, e.t);
    } else if e.CallReleaseWrite? {
      ReleaseWriteOrder(s, e.t);
    }
  }

  lemma ReleaseReadOrder(s: State, t: Task)
    requires Base(s) && CanReleaseRead(s, t)
    ensures WritersInOrder(s, ReleaseRead(s, t), t) && ReadersInOrder(s, ReleaseRead(s, t), t)
  {
    hide HoldersOk, Rouse, WakeWriter, WakeReaders, NoReaderSleeps, SleepersQueued;
    WakeOrder(s.(readers := s.readers - 1, readHolds := s.readHolds - multiset{t}));
  }

  lemma ReleaseWriteOrder(s: State, t: Task)
    requires Base(s) && CanReleaseWrite(s, t)
    ensures WritersInOrder(s, ReleaseWrite(s, t), t) && ReadersInOrder(s, ReleaseWrite(s, t), t)
  {
    hide HoldersOk, Rouse, WakeWriter, WakeReaders, NoReaderSleeps, SleepersQueued;
    var s' := s.(depth := s.depth - 1, writeHolds := s.writeHolds - multiset{t});
    WakeOrder(s'.(writer := None));
    WaitingNat(s);
  }

  lemma WaitingNat(s: State)
    requires HoldersOk(s)
    ensures s.waiting >= 0 && s.depth >= 0
  {
  }

  lemma WakeOrder(s: State)
    requires SleepersQueued(s.readerQueue, s.writerQueue, s.phase)
    ensures var s' := WakeWriter(s);
      && s'.readerQueue == s.readerQueue
      && (if s.writerQueue == [] then s' == s
          else s'.writerQueue == s.writerQueue[1..] && s'.phase == Rouse(s.phase, [s.writerQueue[0]]))
    ensures var s' := WakeReaders(s); s'.writerQueue == s.writerQueue && s'.readerQueue == [] && NoReaderSleeps(s'.phase)
  {
    var q := s.writerQueue;
    if q == [] {
      RouseNone(s.phase, q[..0]);
      assert q[0..] == q;
    } else {
      assert q[..1] == [q[0]];
    }
    assert s.readerQueue[..|s.readerQueue|] == s.readerQueue;
  }

  /** Whenever the semaphore is free and some task is inside an acquire call, a woken task exists whose
      next step takes it. */
  ghost predicate NobodyStranded(s: State) {
    s.writer == None && s.readers == 0 && (exists t :: t in s.phase && s.phase[t] != Out) ==>
      exists e :: Enabled(s, e) && Takes(s, e)
  }

  ghost predicate Takes(s: State, e: Event)
    requires Enabled(s, e)
  {
    (e.RetryWrite? && Apply(s, e).writer == Some(e.t)) || (e.RetryRead? && e.t in Apply(s, e).readHolds)
  }

  lemma SomebodyWaits(phase: map<Task, Phase>)
    ensures |WaitingWriters(phase)| > 0 ==> exists t :: t in phase && phase[t] != Out
  {
    if forall t :: t in phase ==> phase[t] == Out { assert WaitingWriters(phase) == {}; }
  }

  lemma StrandedIff(s: State)
    requires Base(s)
    ensures NobodyStranded(s) <==> WritersAwake(s)
  {
    EmptyBySize(s.readHolds);
    if s.writer == None && s.readers == 0 && s.waiting > 0 {
      if WriterIsAwake(s.phase) {
        var t :| t in s.phase && s.phase[t] == WriterAwake;
        assert Enabled(s, RetryWrite(t)) && Takes(s, RetryWrite(t));
      } else {
        assert s.waiting == |WaitingWriters(s.phase)|;
        SomebodyWaits(s.phase);
        forall e | Enabled(s, e) ensures !Takes(s, e) { }
      }
    } else if s.writer == None && s.readers == 0 && exists t :: t in s.phase && s.phase[t] != Out {
      var t :| t in s.phase && s.phase[t] != Out;
      assert WaitingWriters(s.phase) == {};
      assert t !in WaitingWriters(s.phase);
      assert Enabled(s, RetryRead(t)) && Takes(s, RetryRead(t));
    }
  }

  ghost predicate NeverMisdirected(trace: seq<State>, events: seq<Event>)
    requires |trace| == |events| + 1
  {
    forall i :: 0 <= i < |events| ==> !Misdirected(trace[i], events[i])
  }

  lemma {:induction false} AwakeSoFar(tasks: set<Task>, trace: seq<State>, events: seq<Event>, i: nat)
    requires IsRun(tasks, trace, events) && i < |trace| && NeverMisdirected(trace, events)
    ensures WritersAwake(trace[i])
  {
    if i > 0 {
      AwakeSoFar(tasks, trace, events, i - 1);
      RunBase(tasks, trace, events, i - 1);
      AwakeStepIff(trace[i - 1], events[i - 1]);
    }
  }

  /** In every run: without a writer active or waiting no reader sleeps; and nobody is ever stranded exactly
      if no release is misdirected. */
  lemma Progress(tasks: set<Task>, trace: seq<State>, events: seq<Event>)
    requires IsRun(tasks, trace, events)
    ensures forall i :: 0 <= i < |trace| && trace[i].writer == None && trace[i].waiting == 0 ==>
      NoReaderSleeps(trace[i].phase)
    ensures (forall i :: 0 <= i < |trace| ==> NobodyStranded(trace[i])) <==> NeverMisdirected(trace, events)
  {
    hide Base, NobodyStranded, WritersAwake, Misdirected, NoReaderSleeps;
    forall i | 0 <= i < |trace|
      ensures Base(trace[i]) && (NobodyStranded(trace[i]) <==> WritersAwake(trace[i]))
      ensures trace[i].writer == None && trace[i].waiting == 0 ==> NoReaderSleeps(trace[i].phase)
    {
      RunBase(tasks, trace, events, i);
      StrandedIff(trace[i]);
      BaseReaders(trace[i]);
    }
    if NeverMisdirected(trace, events) {
      forall i | 0 <= i < |trace| ensures NobodyStranded(trace[i]) { AwakeSoFar(tasks, trace, events, i); }
    } else {
      var i :| 0 <= i < |events| && Misdirected(trace[i], events[i]);
      MisdirectedLoses(tasks, trace, events, i);
    }
  }

  lemma BaseReaders(s: State)
    requires Base(s)
    ensures s.writer == None && s.waiting == 0 ==> NoReaderSleeps(s.phase)
  {
  }

  lemma MisdirectedLoses(tasks: set<Task>, trace: seq<State>, events: seq<Event>, i: nat)
    requires IsRun(tasks, trace, events) && i < |events| && Misdirected(trace[i], events[i]) && Base(trace[i])
    ensures !WritersAwake(trace[i]) || !WritersAwake(trace[i + 1])
  {
    hide Base, WritersAwake, Misdirected;
    AwakeStepIff(trace[i], events[i]);
  }

  /** As long as only wakeup_queue wakes, no release is misdirected and so nobody is ever stranded. */
  lemma CalmProgress(tasks: set<Task>, trace: seq<State>, events: seq<Event>)
    requires IsRun(tasks, trace, events) && Calm(events)
    ensures NeverMisdirected(trace, events) && forall i :: 0 <= i < |trace| ==> NobodyStranded(trace[i])
  {
    hide NobodyStranded, Misdirected;
    forall i | 0 <= i < |events| ensures !Misdirected(trace[i], events[i]) {
      RunInv(tasks, trace, events, i);
      InvDirects(trace[i], events[i]);
    }
    Progress(tasks, trace, events);
  }

  lemma InvDirects(s: State, e: Event)
    requires Inv(s)
    ensures !Misdirected(s, e)
  {
    hide WaitingWriters, WriterIsAwake, NoLostWakeup, QueuesOk;
    if s.writerQueue == [] {
      AwakeWriterExists(s.readerQueue, s.writerQueue, s.phase);
    } else {
      QueuedSleeps(s.readerQueue, s.writerQueue, s.phase);
    }
  }

  lemma QueuedSleeps(rq: seq<Task>, wq: seq<Task>, phase: map<Task, Phase>)
    requires QueuesOk(rq, wq, phase) && wq != []
    ensures wq[0] in phase && phase[wq[0]] == WriterAsleep
  {
    assert wq[0] in wq;
  }

  // ---- the run that strands a writer ----

  /** A reader r, a writer t that something else wakes while it waits, and a second writer w. */
  function Scene(readers: int, waiting: int, writer: Option<Task>, queue: seq<Task>,
                 phase: map<Task, Phase>, readHolds: multiset<Task>, writeHolds: multiset<Task>): State
  {
    State(readers, waiting, if writer == None then 0 else 1, writer, [], queue, phase, readHolds, multiset{}, writeHolds)
  }

  function Phases(r: Task, t: Task, w: Task, pt: Phase, pw: Phase): map<Task, Phase> {
    var tasks := {r, t, w};
    map u | u in tasks :: if u == t then pt else if u == w then pw else Out
  }

  function StrandState(k: nat, r: Task, t: Task, w: Task): State {
    match k
    case 0 => Scene(0, 0, None, [], Phases(r, t, w, Out, Out), multiset{}, multiset{})
    case 1 => Scene(1, 0, None, [], Phases(r, t, w, Out, Out), multiset{r}, multiset{})
    case 2 => Scene(1, 1, None, [t], Phases(r, t, w, WriterAsleep, Out), multiset{r}, multiset{})
    case 3 => Scene(1, 1, None, [t], Phases(r, t, w, WriterAwake, Out), multiset{r}, multiset{})
    case 4 => Scene(1, 1, None, [t, t], Phases(r, t, w, WriterAsleep, Out), multiset{r}, multiset{})
    case 5 => Scene(0, 1, None, [t], Phases(r, t, w, WriterAwake, Out), multiset{}, multiset{})
    case 6 => Scene(0, 0, Some(t), [t], Phases(r, t, w, Out, Out), multiset{}, multiset{t})
    case 7 => Scene(0, 1, Some(t), [t, w], Phases(r, t, w, Out, WriterAsleep), multiset{}, multiset{t})
    case _ => Scene(0, 1, None, [w], Phases(r, t, w, Out, WriterAsleep), multiset{}, multiset{})
  }

  function StrandEvents(r: Task, t: Task, w: Task): seq<Event> {
    [ CallAcquireRead(r), CallAcquireWrite(t), StrayWake(t), RetryWrite(t), CallReleaseRead(r), RetryWrite(t),
      CallAcquireWrite(w), CallReleaseWrite(t) ]
  }

  ghost predicate Step(k: nat, e: Event, r: Task, t: Task, w: Task) {
    Enabled(StrandState(k, r, t, w), e) && StrandState(k + 1, r, t, w) == Apply(StrandState(k, r, t, w), e)
  }

  lemma PhasesAt(r: Task, t: Task, w: Task, pt: Phase, pw: Phase, p: Phase)
    requires r != t && r != w && t != w
    ensures var phase := Phases(r, t, w, pt, pw);
      && r in phase && t in phase && w in phase && phase[r] == Out && phase[t] == pt && phase[w] == pw
      && phase[t := p] == Phases(r, t, w, p, pw) && phase[w := p] == Phases(r, t, w, pt, p) && phase[r := Out] == phase
  {
  }

  lemma StrandWaits(r: Task, t: Task, w: Task)
    requires r != t && r != w && t != w
    ensures Step(0, CallAcquireRead(r), r, t, w) && Step(1, CallAcquireWrite(t), r, t, w)
  {
    hide Phases;
    PhasesAt(r, t, w, Out, Out, WriterAsleep);
  }

  lemma StrandRequeues(r: Task, t: Task, w: Task)
    requires r != t && r != w && t != w
    ensures Step(2, StrayWake(t), r, t, w) && Step(3, RetryWrite(t), r, t, w)
  {
    hide Phases;
    PhasesAt(r, t, w, WriterAsleep, Out, WriterAwake);
    PhasesAt(r, t, w, WriterAwake, Out, WriterAsleep);
  }

  lemma StrandReleases(r: Task, t: Task, w: Task)
    requires r != t && r != w && t != w
    ensures Step(4, CallReleaseRead(r), r, t, w)
  {
    assert [t, t][..1] == [t] && [t, t][1..] == [t];
    assert Rouse(Phases(r, t, w, WriterAsleep, Out), [t]) == Phases(r, t, w, WriterAwake, Out);
  }

  lemma StrandTakes(r: Task, t: Task, w: Task)
    requires r != t && r != w && t != w
    ensures Step(5, RetryWrite(t), r, t, w) && Step(6, CallAcquireWrite(w), r, t, w)
  {
    hide Phases;
    PhasesAt(r, t, w, WriterAwake, Out, Out);
    PhasesAt(r, t, w, Out, Out, WriterAsleep);
  }

  lemma StrandPopsStale(r: Task, t: Task, w: Task)
    requires r != t && r != w && t != w
    ensures Step(7, CallReleaseWrite(t), r, t, w)
  {
    hide Phases, Rouse;
    assert [t, w][..1] == [t] && [t, w][1..] == [w];
    PhasesAt(r, t, w, Out, WriterAsleep, Out);
    RouseOut(Phases(r, t, w, Out, WriterAsleep), t);
  }

  lemma RouseOut(phase: map<Task, Phase>, t: Task)
    requires t in phase && phase[t] == Out
    ensures Rouse(phase, [t]) == phase
  {
  }

  lemma StrandSleeps(r: Task, t: Task, w: Task)
    requires r != t && r != w && t != w
    ensures Misdirected(StrandState(7, r, t, w), CallReleaseWrite(t)) && !NobodyStranded(StrandState(8, r, t, w))
  {
    var s := StrandState(8, r, t, w);
    assert w in s.phase && s.phase[w] == WriterAsleep;
    forall e | Enabled(s, e) ensures !Takes(s, e) { assert e.t == r || e.t == t || e.t == w; }
  }

  /** A wakeup from elsewhere can lose the one that a release owes: t, woken while it waits behind r, queues
      again; the node it left takes the wakeup of its own release, and w sleeps on a free semaphore. */
  lemma StrayWakeStrands(r: Task, t: Task, w: Task, trace: seq<State>)
    requires r != t && r != w && t != w
    requires trace == seq(9, k requires 0 <= k => StrandState(k, r, t, w))
    ensures IsRun({r, t, w}, trace, StrandEvents(r, t, w)) && Misdirected(trace[7], CallReleaseWrite(t))
    ensures !NobodyStranded(trace[8])
    ensures trace[8].writer == None && trace[8].readers == 0 && trace[8].phase == Phases(r, t, w, Out, WriterAsleep)
  {
    hide Apply, Enabled, Misdirected, NobodyStranded;
    assert Phases(r, t, w, Out, Out) == Init({r, t, w}).phase;
    StrandWaits(r, t, w);
    StrandRequeues(r, t, w);
    StrandReleases(r, t, w);
    StrandTakes(r, t, w);
    StrandPopsStale(r, t, w);
    StrandSleeps(r, t, w);
  }

  // ---- what the LIFO rule prevents ----

  /** The semaphore belongs to a task that holds nothing. */
  ghost predicate Stuck(s: State, t: Task) {
    s.writer == Some(t) && s.depth == 0 && s.readers == 0 && s.readHolds == s.nestedHolds == s.writeHolds == multiset{}
  }

  /** The writer releases n nested reads. */
  ghost function ReleaseNested(s: State, t: Task, n: nat): State
    requires s.writer == Some(t) && s.depth >= n && s.nestedHolds[t] >= n
    decreases n
  {
    if n == 0 then s else ReleaseNested(ReleaseRead(s, t), t, n - 1)
  }

  lemma {:induction false} NestedReleased(s: State, t: Task, n: nat)
    requires s.writer == Some(t) && s.depth >= n && s.nestedHolds[t] >= n
    ensures ReleaseNested(s, t, n) == s.(depth := s.depth - n, nestedHolds := s.nestedHolds[t := s.nestedHolds[t] - n])
    decreases n
  {
    if n > 0 {
      NestedReleased(ReleaseRead(s, t), t, n - 1);
      assert (s.nestedHolds - multiset{t})[t := s.nestedHolds[t] - n] == s.nestedHolds[t := s.nestedHolds[t] - n];
    } else {
      assert s.nestedHolds[t := s.nestedHolds[t]] == s.nestedHolds;
    }
  }

  /** A writer with nested reads, any number, that releases its last write first and then all the reads
      leaves the semaphore stuck. */
  lemma NonLifoReleaseSticks(s: State, t: Task)
    requires Inv(s) && s.writer == Some(t) && s.writeHolds == multiset{t} && s.nestedHolds != multiset{}
    ensures CanReleaseWrite(s, t)
    ensures var s' := ReleaseWrite(s, t); var n := |s.nestedHolds|;
      && s'.writer == Some(t) && s'.depth == n && s'.nestedHolds[t] == n
      && Stuck(ReleaseNested(s', t, n), t) && !Inv(ReleaseNested(s', t, n))
  {
    hide QueuesOk, WaitingWriters, WriterIsAwake, NoLostWakeup;
    var n := |s.nestedHolds|;
    AllSame(s.nestedHolds, t);
    EmptyBySize(s.readHolds);
    NestedReleased(ReleaseWrite(s, t), t, n);
  }

  lemma StuckStep(s: State, t: Task, e: Event)
    requires Stuck(s, t) && Enabled(s, e) && e.t != t
    ensures Stuck(Apply(s, e), t)
  {
  }

  /** As long as that task does nothing, nobody gets the semaphore, whatever the others do. */
  lemma {:induction false} StuckInEveryRun(trace: seq<State>, events: seq<Event>, t: Task, i: nat)
    requires |trace| == |events| + 1 && Stuck(trace[0], t) && i < |trace|
    requires forall j :: 0 <= j < |events| ==>
      events[j].t != t && Enabled(trace[j], events[j]) && trace[j + 1] == Apply(trace[j], events[j])
    ensures Stuck(trace[i], t)
  {
    if i > 0 {
      StuckInEveryRun(trace, events, t, i - 1);
      StuckStep(trace[i - 1], t, events[i - 1]);
    }
  }

  /** Only that task can free it, by taking and releasing a write once more. */
  lemma WriteAgainFrees(s: State, t: Task)
    requires Stuck(s, t)
    ensures CanReleaseWrite(AcquireWrite(s, t), t)
    ensures var s' := ReleaseWrite(AcquireWrite(s, t), t); s'.writer == None && s'.depth == 0 && s'.writeHolds == multiset{}
  {
  }

  // ---- the semaphore as an object ----

  lemma RouseNone(phase: map<Task, Phase>, ts: seq<Task>)
    requires ts == []
    ensures Rouse(phase, ts) == phase
  {
  }

  lemma RousePush(phase: map<Task, Phase>, ts: seq<Task>, t: Task)
    ensures Rouse(phase, ts + [t]) ==
            if t in Rouse(phase, ts) then Rouse(phase, ts)[t := Roused(Rouse(phase, ts)[t])] else Rouse(phase, ts)
  {
  }

  /** wakeup_queue: waiters leave the queue from the front and become runnable, `count` of them or,
      for 0, all. */
  method WakeupQueue(queue: seq<Task>, phase: map<Task, Phase>, count: nat)
      returns (queue': seq<Task>, phase': map<Task, Phase>)
    ensures queue' == queue[Woken(queue, count)..]
    ensures phase' == Rouse(phase, queue[..Woken(queue, count)])
  {
    hide Rouse;
    queue', phase' := queue, phase;
    var left, n := count, 0;
    RouseNone(phase, queue[..0]);
    while queue' != []
      invariant 0 <= n <= Woken(queue, count) && queue' == queue[n..]
      invariant phase' == Rouse(phase, queue[..n])
      invariant count > 0 ==> left == count - n > 0
      invariant count == 0 ==> left == 0
      decreases |queue'|
    {
      var t := queue'[0];
      assert queue[..n + 1] == queue[..n] + [t];
      RousePush(phase, queue[..n], t);
      queue' := queue'[1..];
      if t in phase' { phase' := phase'[t := Roused(phase'[t])]; }
      n := n + 1;
      if left > 0 {
        left := left - 1;
        if left == 0 { break; }
      }
    }
  }

  class Semaphore {
    var readers: int
    var waiting: int
    var depth: int
    var writer: Option<Task>
    var readerQueue: seq<Task>
    var writerQueue: seq<Task>
    var phase: map<Task, Phase>
    ghost var readHolds: multiset<Task>
    ghost var nestedHolds: multiset<Task>
    ghost var writeHolds: multiset<Task>

    ghost function View(): State
      reads this
    {
      State(readers, waiting, depth, writer, readerQueue, writerQueue, phase, readHolds, nestedHolds, writeHolds)
    }

    /** rwsem_init */
    constructor (tasks: set<Task>)
      ensures View() == Init(tasks)
    {
      readers, waiting, depth, writer, readerQueue, writerQueue := 0, 0, 0, None, [], [];
      phase := map t | t in tasks :: Out;
      readHolds, nestedHolds, writeHolds := multiset{}, multiset{}, multiset{};
    }

    /** One turn of the wait loop of rwsem_acquire_read; `done` tells whether the semaphore was
        taken, else the task sleeps on the reader queue. */
    method WaitRead(t: Task) returns (done: bool)
      modifies this
      ensures View() == TryRead(old(View()), t) && (done <==> MayRead(old(View())))
    {
      done := waiting == 0 && writer == None;
      if done {
        readers := readers + 1;
        readHolds := readHolds + multiset{t};
        phase := phase[t := Out];
      } else {
        readerQueue := readerQueue + [t];
        phase := phase[t := ReaderAsleep];
      }
    }

    /** rwsem_acquire_read up to the first sleep. */
    method DownRead(t: Task) returns (done: bool)
      modifies this
      ensures View() == AcquireRead(old(View()), t)
      ensures done <==> old(writer) == Some(t) || MayRead(old(View()))
    {
      if writer == Some(t) {
        depth := depth + 1;
        nestedHolds := nestedHolds + multiset{t};
        return true;
      }
      done := WaitRead(t);
    }

    method WakeOneWriter()
      modifies this`writerQueue, this`phase
      ensures View() == WakeWriter(old(View()))
    {
      hide Rouse, Woken;
      writerQueue, phase := WakeupQueue(writerQueue, phase, 1);
    }

    method WakeAllReaders()
      modifies this`readerQueue, this`phase
      ensures View() == WakeReaders(old(View()))
    {
      hide Rouse, Woken;
      readerQueue, phase := WakeupQueue(readerQueue, phase, 0);
    }

    /** rwsem_release_read */
    method UpRead(t: Task)
      requires CanReleaseRead(View(), t)
      modifies this
      ensures View() == ReleaseRead(old(View()), t)
    {
      hide WakeWriter;
      if writer == Some(t) {
        depth := depth - 1;
        nestedHolds := nestedHolds - multiset{t};
      } else {
        readers := readers - 1;
        readHolds := readHolds - multiset{t};
        assert View() == old(View()).(readers := readers, readHolds := readHolds);
        if readers == 0 { WakeOneWriter(); }
      }
    }

    /** One turn of the wait loop of rwsem_acquire_write. */
    method WaitWrite(t: Task) returns (done: bool)
      modifies this
      ensures View() == TryWrite(old(View()), t) && (done <==> MayWrite(old(View())))
    {
      done := readers == 0 && writer == None;
      if done {
        waiting := waiting - 1;
        writer := Some(t);
        depth := 1;
        writeHolds := writeHolds + multiset{t};
        phase := phase[t := Out];
      } else {
        writerQueue := writerQueue + [t];
        phase := phase[t := WriterAsleep];
      }
    }

    /** rwsem_acquire_write up to the first sleep. */
    method DownWrite(t: Task) returns (done: bool)
      modifies this
      ensures View() == AcquireWrite(old(View()), t)
      ensures done <==> old(writer) == Some(t) || MayWrite(old(View()))
    {
      if writer == Some(t) {
        depth := depth + 1;
        writeHolds := writeHolds + multiset{t};
        return true;
      }
      waiting := waiting + 1;
      assert View() == old(View()).(waiting := waiting);
      done := WaitWrite(t);
    }

    /** rwsem_release_write */
    method UpWrite(t: Task)
      requires CanReleaseWrite(View(), t)
      modifies this
      ensures View() == ReleaseWrite(old(View()), t)
    {
      hide WakeWriter, WakeReaders;
      depth := depth - 1;
      writeHolds := writeHolds - multiset{t};
      assert View() == old(View()).(depth := depth, writeHolds := writeHolds);
      if depth == 0 {
        writer := None;
        assert View() == old(View()).(depth := depth, writeHolds := writeHolds, writer := None);
        if waiting > 0 { WakeOneWriter(); } else { WakeAllReaders(); }
      }
    }
  }
}
