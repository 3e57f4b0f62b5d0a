/** The scheduler of one processor as atomic steps: the run queue, the current task, which tasks
    are attached to the queue, their status, and the list of sleepers. */
module Scheduler {

  type Task = int

  datatype Status = Running | Dead | Blocked | Interruptible | Stopped

  datatype Sleeper = Sleeper(task: Task, wakeup: int)

  /** `attached` are the tasks whose run_queue field is set. */
  datatype State = State(
    queue: seq<Task>, current: Task, idle: Task, attached: set<Task>, status: map<Task, Status>, sleepers: seq<Sleeper>)

  // ---- the steps ----

  predicate Wakeable(s: State, t: Task, signal: bool) {
    t in s.status && (s.status[t] == Interruptible || (s.status[t] == Blocked && !signal))
  }

  function Push(s: State, t: Task): State { s.(queue := s.queue + [t], attached := s.attached + {t}) }

  /** unblock_task_reason */
  function Unblock(s: State, t: Task, signal: bool): State {
    if !Wakeable(s, t, signal) then s
    else
      var s' := s.(status := s.status[t := Running]);
      if t in s.attached then s' else Push(s', t)
  }

  function SetStatus(s: State, st: Status): State { s.(status := s.status[s.current := st]) }

  function Pop(s: State): State {
    if s.queue == [] then s.(current := s.idle) else s.(queue := s.queue[1..], current := s.queue[0])
  }

  predicate Stays(s: State, preempt: bool) { preempt || (s.current in s.status && s.status[s.current] == Running) }

  /** The part of yield under the queue's lock, finish_yield included. */
  function Switch(s: State, preempt: bool): State {
    if Stays(s, preempt) then Pop(Push(s, s.current)) else Pop(s).(attached := s.attached - {s.current})
  }

  /** wakeup_sleepers at a time. */
  function WakeSleepers(s: State, now: int): State
    decreases |s.sleepers|
  {
    if s.sleepers == [] || s.sleepers[0].wakeup > now then s
    else WakeSleepers(Unblock(s.(sleepers := s.sleepers[1..]), s.sleepers[0].task, false), now)
  }

  function Yield(s: State, preempt: bool, now: int): State { Switch(WakeSleepers(s, now), preempt) }

  /** Where a sleeper with this time goes: after all that wake no later. */
  function Place(sleepers: seq<Sleeper>, time: int): (k: nat)
    ensures k <= |sleepers|
  {
    if sleepers == [] || time < sleepers[0].wakeup then 0 else 1 + Place(sleepers[1..], time)
  }

  predicate Listed(sleepers: seq<Sleeper>, t: Task) { exists z :: z in sleepers && z.task == t }

  /** The wake-up time is a field of the task: setting it also changes an entry already on the list. */
  function Retimed(sleepers: seq<Sleeper>, t: Task, time: int): seq<Sleeper> {
    if sleepers == [] then []
    else [if sleepers[0].task == t then Sleeper(t, time) else sleepers[0]] + Retimed(sleepers[1..], t, time)
  }

  function Inserted(sleepers: seq<Sleeper>, z: Sleeper): seq<Sleeper> {
    var k := Place(sleepers, z.wakeup);
    sleepers[..k] + [z] + sleepers[k..]
  }

  /** sleep_add_timeout; nothing in it tests whether the task is on the list already. */
  function AddSleeper(s: State, time: int): State {
    s.(sleepers := Inserted(Retimed(s.sleepers, s.current, time), Sleeper(s.current, time)))
  }

  function Without(sleepers: seq<Sleeper>, t: Task): seq<Sleeper> {
    if sleepers == [] then [] else if sleepers[0].task == t then sleepers[1..] else [sleepers[0]] + Without(sleepers[1..], t)
  }

  function RemoveSleeper(s: State): State { s.(sleepers := Without(s.sleepers, s.current)) }

  function AddTask(s: State, t: Task): State { s.(status := s.status[t := Blocked]) }

  datatype Step =
    | DoSetStatus(st: Status) | DoUnblock(t: Task, signal: bool) | DoYield(preempt: bool, now: int)
    | DoSleep(time: int) | DoWake | DoNew(t: Task)

  /** What the code never does: the idle task only blocks, it does not sleep, and nobody wakes it. */
  predicate Enabled(s: State, step: Step) {
    match step
    case DoSetStatus(st) => s.current == s.idle ==> st == Blocked
    case DoUnblock(t, signal) => t != s.idle || signal
    case DoYield(_, _) => true
    case DoSleep(_) => s.current != s.idle
    case DoWake => true
    case DoNew(t) => t !in s.status && t != s.current
  }

  function Apply(s: State, step: Step): State {
    match step
    case DoSetStatus(st) => SetStatus(s, st)
    case DoUnblock(t, signal) => Unblock(s, t, signal)
    case DoYield(preempt, now) => Yield(s, preempt, now)
    case DoSleep(time) => AddSleeper(s, time)
    case DoWake => RemoveSleeper(s)
    case DoNew(t) => AddTask(s, t)
  }

  function Run(s: State, steps: seq<Step>): State
    decreases steps
  {
    if steps == [] then s else Run(Apply(s, steps[0]), steps[1..])
  }

  ghost predicate CanRun(s: State, steps: seq<Step>)
    decreases steps
  {
    steps != [] ==> Enabled(s, steps[0]) && CanRun(Apply(s, steps[0]), steps[1..])
  }

  // ---- the invariant ----

  ghost predicate NoDup<T(!new)>(q: seq<T>) { forall i, j :: 0 <= i < j < |q| ==> q[i] != q[j] }

  /** No task is queued twice, the current one is not queued, the attached tasks are the queued ones
      and the current one, and every task that is to run is one of them. */
  ghost predicate QueueOk(s: State) {
    && NoDup(s.queue) && s.current !in s.queue && s.current in s.status && s.idle in s.status
    && (forall t :: t in s.queue ==> t in s.attached)
    && (s.current != s.idle ==> s.current in s.attached)
    && (forall t :: t in s.attached ==> (t in s.queue || t == s.current) && t in s.status)
    && (forall t :: t in s.status && s.status[t] == Running ==> t == s.current || t in s.queue)
    && s.status[s.idle] == Blocked
  }

  ghost predicate Sorted(sleepers: seq<Sleeper>) {
    forall i, j :: 0 <= i < j < |sleepers| ==> sleepers[i].wakeup <= sleepers[j].wakeup
  }

  ghost predicate Apart(sleepers: seq<Sleeper>) {
    forall i, j :: 0 <= i < j < |sleepers| ==> sleepers[i].task != sleepers[j].task
  }

  ghost predicate SleepersKnown(s: State) { forall z :: z in s.sleepers ==> z.task != s.idle && z.task in s.status }

  ghost predicate Inv(s: State) { QueueOk(s) && SleepersKnown(s) }

  /** The sleepers are in waking order and no task is among them twice. */
  ghost predicate Orderly(sleepers: seq<Sleeper>) { Sorted(sleepers) && Apart(sleepers) }

  // ---- every step keeps it ----

  lemma UnblockQueue(s: State, t: Task, signal: bool)
    requires QueueOk(s) && (t != s.idle || signal)
    ensures QueueOk(Unblock(s, t, signal)) && Unblock(s, t, signal).sleepers == s.sleepers
    ensures Unblock(s, t, signal).idle == s.idle && Unblock(s, t, signal).current == s.current
    ensures s.queue <= Unblock(s, t, signal).queue
  {
  }

  /** Waking the first sleeper is one turn of the loop. */
  lemma WakeHead(s: State, now: int)
    requires Inv(s) && s.sleepers != [] && s.sleepers[0].wakeup <= now
    ensures var z := s.sleepers[0]; var s0 := s.(sleepers := s.sleepers[1..]); var s1 := Unblock(s0, z.task, false);
      && Inv(s0) && z.task != s.idle && z.task in s.status && Inv(s1) && s1.sleepers == s.sleepers[1..]
      && s1.current == s.current && s1.idle == s.idle && s.queue <= s1.queue
      && WakeSleepers(s, now) == WakeSleepers(s1, now)
  {
    hide QueueOk;
    var z := s.sleepers[0];
    var s0 := s.(sleepers := s.sleepers[1..]);
    assert z in s.sleepers;
    DropSleepers(s, s.sleepers[1..]);
    UnblockQueue(s0, z.task, false);
  }

  lemma {:induction false} WakeQueue(s: State, now: int)
    requires Inv(s)
    ensures Inv(WakeSleepers(s, now)) && WakeSleepers(s, now).current == s.current && WakeSleepers(s, now).idle == s.idle
    ensures s.queue <= WakeSleepers(s, now).queue
    decreases |s.sleepers|
  {
    hide Inv, Unblock;
    if s.sleepers != [] && s.sleepers[0].wakeup <= now {
      WakeHead(s, now);
      WakeQueue(Unblock(s.(sleepers := s.sleepers[1..]), s.sleepers[0].task, false), now);
    }
  }

  lemma DropSleepers(s: State, z: seq<Sleeper>)
    requires QueueOk(s)
    ensures QueueOk(s.(sleepers := z))
  {
  }

  lemma SwitchQueue(s: State, preempt: bool)
    requires QueueOk(s)
    ensures QueueOk(Switch(s, preempt)) && Switch(s, preempt).sleepers == s.sleepers && Switch(s, preempt).idle == s.idle
  {
    var q := s.queue + [s.current];
    if Stays(s, preempt) {
      assert q[0] !in q[1..];
      assert forall t :: t in q <==> t == q[0] || t in q[1..];
    } else if s.queue != [] {
      assert forall t :: t in s.queue <==> t == s.queue[0] || t in s.queue[1..];
    }
  }

  lemma {:induction false} PlaceSplits(sleepers: seq<Sleeper>, time: int)
    requires Sorted(sleepers)
    ensures var k := Place(sleepers, time);
      && (forall i :: 0 <= i < k ==> sleepers[i].wakeup <= time)
      && (forall i :: k <= i < |sleepers| ==> time < sleepers[i].wakeup)
  {
    if sleepers != [] && time >= sleepers[0].wakeup { PlaceSplits(sleepers[1..], time); }
  }

  lemma {:induction false} RetimedFacts(z: seq<Sleeper>, t: Task, time: int)
    ensures |Retimed(z, t, time)| == |z|
    ensures forall i :: 0 <= i < |z| ==> Retimed(z, t, time)[i] == if z[i].task == t then Sleeper(t, time) else z[i]
  {
    if z != [] { RetimedFacts(z[1..], t, time); }
  }

  lemma AddSleeperKnown(s: State, time: int)
    requires Inv(s) && s.current != s.idle
    ensures Inv(AddSleeper(s, time))
  {
    hide QueueOk;
    CurrentKnown(s);
    RetimedFacts(s.sleepers, s.current, time);
    var z := Retimed(s.sleepers, s.current, time);
    forall x | x in z ensures x.task != s.idle && x.task in s.status {
      var i :| 0 <= i < |z| && z[i] == x;
      assert s.sleepers[i] in s.sleepers;
    }
    DropSleepers(s, AddSleeper(s, time).sleepers);
  }

  lemma CurrentKnown(s: State)
    requires QueueOk(s)
    ensures s.current in s.status
  {
  }

  lemma {:induction false} WithoutSub(z: seq<Sleeper>, t: Task)
    ensures forall x :: x in Without(z, t) ==> x in z
  {
    if z != [] && z[0].task != t { WithoutSub(z[1..], t); }
  }

  lemma StepInv(s: State, step: Step)
    requires Inv(s) && Enabled(s, step)
    ensures Inv(Apply(s, step))
  {
    match step
    case DoSetStatus(st) =>
    case DoUnblock(t, signal) => UnblockQueue(s, t, signal);
    case DoYield(preempt, now) =>
      WakeQueue(s, now);
      SwitchQueue(WakeSleepers(s, now), preempt);
    case DoSleep(time) => AddSleeperKnown(s, time);
    case DoWake =>
      WithoutSub(s.sleepers, s.current);
      DropSleepers(s, Without(s.sleepers, s.current));
    case DoNew(t) =>
  }

  /** In every reachable state the run queue is sound. */
  lemma {:induction false} RunInv(s: State, steps: seq<Step>)
    requires Inv(s) && CanRun(s, steps)
    ensures Inv(Run(s, steps))
    decreases steps
  {
    if steps != [] {
      StepInv(s, steps[0]);
      RunInv(Apply(s, steps[0]), steps[1..]);
    }
  }

  // ---- the list of sleepers ----

  lemma InsertSorted(z: seq<Sleeper>, k: nat, x: Sleeper)
    requires Sorted(z) && k <= |z|
    requires (forall i :: 0 <= i < k ==> z[i].wakeup <= x.wakeup) && (forall i :: k <= i < |z| ==> x.wakeup < z[i].wakeup)
    ensures Sorted(z[..k] + [x] + z[k..])
  {
  }

  /** Inserting keeps the tasks apart exactly if the new one is not among them. */
  lemma InsertApartIff(z: seq<Sleeper>, k: nat, x: Sleeper)
    requires Apart(z) && k <= |z|
    ensures Apart(z[..k] + [x] + z[k..]) <==> !Listed(z, x.task)
  {
    var y := z[..k] + [x] + z[k..];
    assert y[k] == x;
    if Listed(z, x.task) {
      var w :| w in z && w.task == x.task;
      var i :| 0 <= i < |z| && z[i] == w;
      assert if i < k then y[i] == w else y[i + 1] == w;
    }
  }

  lemma {:induction false} RetimedSame(z: seq<Sleeper>, t: Task, time: int)
    ensures !Listed(z, t) ==> Retimed(z, t, time) == z
    ensures Listed(Retimed(z, t, time), t) <==> Listed(z, t)
  {
    if z != [] {
      RetimedSame(z[1..], t, time);
      ListedCons(z, t);
      ListedCons(Retimed(z, t, time), t);
    }
  }

  lemma ListedCons(z: seq<Sleeper>, t: Task)
    requires z != []
    ensures Listed(z, t) <==> z[0].task == t || Listed(z[1..], t)
  {
    assert z[0] in z;
    assert forall x :: x in z <==> x == z[0] || x in z[1..];
  }

  lemma RetimedApart(z: seq<Sleeper>, t: Task, time: int)
    requires Apart(z)
    ensures Apart(Retimed(z, t, time))
  {
    hide Retimed;
    RetimedFacts(z, t, time);
  }

  /** Adding the current task keeps the list orderly exactly if it is not on it already. */
  lemma AddSleeperIff(s: State, time: int)
    requires Orderly(s.sleepers)
    ensures Orderly(AddSleeper(s, time).sleepers) <==> !Listed(s.sleepers, s.current)
    ensures Listed(AddSleeper(s, time).sleepers, s.current)
  {
    hide Sorted, Apart, Retimed;
    var z := Retimed(s.sleepers, s.current, time);
    var x := Sleeper(s.current, time);
    RetimedSame(s.sleepers, s.current, time);
    RetimedApart(s.sleepers, s.current, time);
    InsertApartIff(z, Place(z, time), x);
    if !Listed(s.sleepers, s.current) {
      PlaceSplits(z, time);
      InsertSorted(z, Place(z, time), x);
    }
    assert x in Inserted(z, x);
  }

  lemma {:induction false} WithoutOrderly(z: seq<Sleeper>, t: Task)
    requires Orderly(z)
    ensures Orderly(Without(z, t))
  {
    if z != [] {
      OrderlyTail(z);
      if z[0].task != t {
        WithoutOrderly(z[1..], t);
        WithoutSub(z[1..], t);
        PrependOrderly(z[0], Without(z[1..], t));
      }
    }
  }

  lemma OrderlyTail(z: seq<Sleeper>)
    requires Orderly(z) && z != []
    ensures Orderly(z[1..]) && forall x :: x in z[1..] ==> x.task != z[0].task && z[0].wakeup <= x.wakeup
  {
  }

  lemma PrependOrderly(h: Sleeper, w: seq<Sleeper>)
    requires Orderly(w) && forall x :: x in w ==> x.task != h.task && h.wakeup <= x.wakeup
    ensures Orderly([h] + w)
  {
  }

  /** Leaving the list takes out the current task and nobody else. */
  lemma {:induction false} WithoutExact(z: seq<Sleeper>, t: Task, x: Sleeper)
    requires Orderly(z)
    ensures x in Without(z, t) <==> x in z && x.task != t
  {
    hide Orderly;
    if z != [] {
      OrderlyTail(z);
      WithoutExact(z[1..], t, x);
      assert z == [z[0]] + z[1..];
    }
  }

  lemma {:induction false} WakeOrderly(s: State, now: int)
    requires Orderly(s.sleepers)
    ensures Orderly(WakeSleepers(s, now).sleepers)
    decreases |s.sleepers|
  {
    if s.sleepers != [] && s.sleepers[0].wakeup <= now {
      OrderlyTail(s.sleepers);
      WakeOrderly(Unblock(s.(sleepers := s.sleepers[1..]), s.sleepers[0].task, false), now);
    }
  }

  /** The one step that spoils the list: a task that is still on it sleeps again. */
  predicate SleepsAgain(s: State, step: Step) { step.DoSleep? && Listed(s.sleepers, s.current) }

  lemma OrderStepIff(s: State, step: Step)
    requires Orderly(s.sleepers)
    ensures Orderly(Apply(s, step).sleepers) <==> !SleepsAgain(s, step)
  {
    hide Orderly, Listed;
    match step
    case DoYield(preempt, now) => WakeOrderly(s, now);
    case DoSleep(time) => AddSleeperIff(s, time);
    case DoWake => WithoutOrderly(s.sleepers, s.current);
    case _ =>
  }

  ghost predicate NeverAgain(s: State, steps: seq<Step>)
    decreases steps
  {
    steps != [] ==> !SleepsAgain(s, steps[0]) && NeverAgain(Apply(s, steps[0]), steps[1..])
  }

  ghost predicate AlwaysOrderly(s: State, steps: seq<Step>)
    decreases steps
  {
    Orderly(s.sleepers) && (steps != [] ==> AlwaysOrderly(Apply(s, steps[0]), steps[1..]))
  }

  /** The sleepers stay in waking order throughout a run exactly if no task that is still on the list
      sleeps again. */
  lemma {:induction false} OrderInRunIff(s: State, steps: seq<Step>)
    requires Orderly(s.sleepers)
    ensures AlwaysOrderly(s, steps) <==> NeverAgain(s, steps)
    decreases steps
  {
    if steps != [] {
      OrderStepIff(s, steps[0]);
      if !SleepsAgain(s, steps[0]) { OrderInRunIff(Apply(s, steps[0]), steps[1..]); }
    }
  }

  /** Such runs exist: block_task_timeout that finds its time passed after it has put the task on the
      list returns without taking it off, and the next one lists it twice. */
  lemma EarlyReturnListsTwice(s: State, first: int, second: int)
    requires Inv(s) && s.current != s.idle && Orderly(s.sleepers)
    ensures var steps := [DoSleep(first), DoSetStatus(Running), DoSleep(second)];
      && CanRun(s, steps) && !NeverAgain(s, steps) && !Apart(Run(s, steps).sleepers)
  {
    hide Inv, Orderly, Listed, AddSleeper, Apart;
    var s1 := AddSleeper(s, first);
    SameCurrent(s, first);
    AddSleeperIff(s, first);
    var s2 := SetStatus(s1, Running);
    SameCurrent(s2, second);
    TwiceNotApart(s2, second);
    var s3 := AddSleeper(s2, second);
    var steps := [DoSleep(first), DoSetStatus(Running), DoSleep(second)];
    assert steps[1..] == [DoSetStatus(Running), DoSleep(second)];
    assert steps[1..][1..] == [DoSleep(second)];
    assert steps[1..][1..][1..] == [];
    assert Run(s2, [DoSleep(second)]) == Run(s3, []) == s3;
    assert Run(s1, steps[1..]) == Run(s2, [DoSleep(second)]);
    assert CanRun(s3, []) && CanRun(s2, [DoSleep(second)]) && CanRun(s1, steps[1..]);
    assert !NeverAgain(s2, [DoSleep(second)]) && !NeverAgain(s1, steps[1..]);
  }

  lemma SameCurrent(s: State, time: int)
    ensures AddSleeper(s, time).current == s.current && AddSleeper(s, time).idle == s.idle
  {
  }

  lemma TwiceNotApart(s: State, time: int)
    requires Listed(s.sleepers, s.current)
    ensures !Apart(AddSleeper(s, time).sleepers)
  {
    var z := Retimed(s.sleepers, s.current, time);
    RetimedSame(s.sleepers, s.current, time);
    var w :| w in z && w.task == s.current;
    var i :| 0 <= i < |z| && z[i] == w;
    var k := Place(z, time);
    var y := Inserted(z, Sleeper(s.current, time));
    assert y[k].task == s.current && y[if i < k then i else i + 1] == w;
  }

  // ---- progress ----

  function Yields(steps: seq<Step>): nat {
    if steps == [] then 0 else (if steps[0].DoYield? then 1 else 0) + Yields(steps[1..])
  }

  /** Yielding moves the queue up by one; every other step leaves positions alone. */
  lemma StepMoves(s: State, step: Step, k: nat)
    requires Inv(s) && Enabled(s, step) && k < |s.queue|
    ensures var s' := Apply(s, step); var t := s.queue[k];
      if !step.DoYield? then k < |s'.queue| && s'.queue[k] == t
      else if k == 0 then s'.current == t else k - 1 < |s'.queue| && s'.queue[k - 1] == t
  {
    match step
    case DoYield(preempt, now) => WakeQueue(s, now);
    case DoUnblock(t, signal) => UnblockQueue(s, t, signal);
    case _ =>
  }

  /** A task at position k of the queue runs within k + 1 yields of any run. */
  lemma {:induction false} RunsWithin(s: State, steps: seq<Step>, k: nat) returns (n: nat)
    requires Inv(s) && CanRun(s, steps) && k < |s.queue| && Yields(steps) > k
    ensures n <= |steps| && Run(s, steps[..n]).current == s.queue[k] && Yields(steps[..n]) == k + 1
    decreases steps
  {
    hide Inv, Enabled, Apply;
    StepMoves(s, steps[0], k);
    StepInv(s, steps[0]);
    var s' := Apply(s, steps[0]);
    if steps[0].DoYield? && k == 0 {
      n := 1;
      assert steps[..1] == [steps[0]] && steps[..1][1..] == [];
      assert Run(s', []) == s' && Yields([]) == 0;
    } else {
      var m := RunsWithin(s', steps[1..], if steps[0].DoYield? then k - 1 else k);
      n := m + 1;
      assert steps[..n][0] == steps[0] && steps[..n][1..] == steps[1..][..m];
    }
  }

  /** The state at the end of init_task, before the first task is created. */
  lemma BootInv(boot: Task, idle: Task)
    requires boot != idle
    ensures Inv(State([], boot, idle, {boot}, map[boot := Running, idle := Blocked], []))
  {
  }

  /** Waking the idle task while it runs would queue the current task: it is current but not attached. */
  lemma IdleMustSleep(s: State)
    requires Inv(s) && s.current == s.idle && s.idle !in s.attached
    ensures s.current in Unblock(s, s.idle, false).queue
  {
    var s' := Unblock(s, s.idle, false);
    assert s'.queue[|s'.queue| - 1] == s.idle;
  }

  // ---- the code ----

  predicate Sleepy(st: Status) { st == Blocked || st == Interruptible }

  /** If the task slept before, it is to run now and gets its turn. */
  ghost predicate Woken(t: Task, before: map<Task, Status>, s: State) {
    t in before && Sleepy(before[t]) ==> t in s.status && s.status[t] == Running && (t == s.current || t in s.queue)
  }

  ghost predicate NotDue(sleepers: seq<Sleeper>, t: Task, now: int) {
    forall z :: z in sleepers && z.task == t ==> z.wakeup > now
  }

  /** What the loop of wakeup_sleepers has done: nobody is off the list too early, whoever left it is awake,
      and nobody else's status has changed. */
  ghost predicate WokeSome(first: State, s: State, now: int) {
    && s.current == first.current && s.status.Keys == first.status.Keys
    && (forall z :: z in first.sleepers && z.wakeup > now ==> z in s.sleepers)
    && (forall z :: z in first.sleepers && z !in s.sleepers ==> Woken(z.task, first.status, s))
    && (forall z :: z in s.sleepers ==> z in first.sleepers)
    && (forall t :: t in first.status ==>
          s.status[t] == first.status[t] || (s.status[t] == Running && !NotDue(first.sleepers, t, now)))
  }

  /** One more task is woken; those woken before stay so. */
  lemma WakeOneMore(first: State, s: State, now: int)
    requires Inv(s) && WokeSome(first, s, now) && s.sleepers != [] && s.sleepers[0].wakeup <= now
    ensures WokeSome(first, Unblock(s.(sleepers := s.sleepers[1..]), s.sleepers[0].task, false), now)
  {
    hide NotDue;
    var z := s.sleepers[0];
    var s' := Unblock(s.(sleepers := s.sleepers[1..]), z.task, false);
    assert s.sleepers == [z] + s.sleepers[1..] && z in s.sleepers;
    RunningGetsTurn(s, z.task);
    DueNow(first.sleepers, z, now);
    assert Woken(z.task, first.status, s') by { hide QueueOk; }
    assert forall t :: Woken(t, first.status, s) ==> Woken(t, first.status, s');
  }

  lemma DueNow(sleepers: seq<Sleeper>, z: Sleeper, now: int)
    requires z in sleepers && z.wakeup <= now
    ensures !NotDue(sleepers, z.task, now)
  {
  }

  lemma RunningGetsTurn(s: State, t: Task)
    requires QueueOk(s)
    ensures t in s.status && s.status[t] == Running ==> t == s.current || t in s.queue
  {
  }

  lemma WokeNone(s: State, now: int)
    ensures WokeSome(s, s, now)
  {
  }

  /** Whoever gives up the processor stays queued exactly if preempted or still to run. */
  lemma SwitchLeaves(s: State, preempt: bool)
    requires QueueOk(s)
    ensures var s' := Switch(s, preempt);
      && s'.status == s.status && s.current in s.status
      && (s'.current != s.current ==> (s.current in s'.queue <==> preempt || s.status[s.current] == Running))
  {
    var q := s.queue + [s.current];
    assert q[1..] == if s.queue == [] then [] else s.queue[1..] + [s.current];
  }

  method FindSleeper(z: seq<Sleeper>, t: Task) returns (k: nat)
    ensures k <= |z| && Without(z, t) == if k < |z| then z[..k] + z[k + 1..] else z
  {
    k := 0;
    while k < |z| && z[k].task != t
      invariant k <= |z| && Without(z, t) == z[..k] + Without(z[k..], t)
    {
      assert z[k..][1..] == z[k + 1..];
      k := k + 1;
    }
    assert k < |z| ==> z[k..][1..] == z[k + 1..];
  }

  class Cpu {
    var queue: seq<Task>
    var current: Task
    const idle: Task
    var attached: set<Task>
    var status: map<Task, Status>
    var sleepers: seq<Sleeper>

    ghost function St(): State
      reads this
    {
      State(queue, current, idle, attached, status, sleepers)
    }

    constructor (boot: Task, idleTask: Task)
      requires boot != idleTask
      ensures Inv(St()) && current == boot && idle == idleTask
    {
      queue, current, idle, attached, sleepers := [], boot, idleTask, {boot}, [];
      status := map[boot := Running, idleTask := Blocked];
      new;
      BootInv(boot, idleTask);
    }

    method PushTask(t: Task)
      modifies this
      ensures St() == Push(old(St()), t)
    {
      queue := queue + [t];
      attached := attached + {t};
    }

    /** run_queue_pop_task, and the idle task when there is nothing: schedule */
    method Schedule() returns (picked: Task)
      modifies this
      ensures picked == Pop(old(St())).current && St() == Pop(old(St())).(current := old(current))
    {
      if queue == [] { return idle; }
      picked := queue[0];
      queue := queue[1..];
    }

    /** unblock_task_reason: a task that is to run ends up attached, and queued at most once. */
    method UnblockReason(t: Task, signal: bool) returns (woken: bool)
      requires Inv(St()) && (t != idle || signal) && t in status
      modifies this
      ensures St() == Unblock(old(St()), t, signal) && Inv(St())
      ensures woken <==> old(status[t]) == Interruptible || (old(status[t]) == Blocked && !signal)
      ensures woken ==> status == old(status)[t := Running] && (t == current || t in queue)
      ensures woken ==> queue == old(queue) || (queue == old(queue) + [t] && t !in old(queue))
      ensures !woken ==> St() == old(St())
    {
      UnblockQueue(St(), t, signal);
      if status[t] != Blocked && status[t] != Interruptible { return false; }
      if signal && status[t] != Interruptible { return false; }
      status := status[t := Running];
      woken := true;
      if t in attached { return; }
      PushTask(t);
    }

    /** wakeup_sleepers: exactly the sleepers whose time has come are woken and leave the list. */
    method WakeupSleepers(now: int)
      requires Inv(St())
      modifies this
      ensures St() == WakeSleepers(old(St()), now) && Inv(St()) && WokeSome(old(St()), St(), now)
      ensures Orderly(old(sleepers)) ==> Orderly(sleepers) && forall z :: z in sleepers ==> z.wakeup > now
    {
      hide QueueOk, Unblock, Orderly, WokeSome;
      if Orderly(sleepers) { WakeOrderly(St(), now); }
      WokeNone(St(), now);
      while sleepers != [] && sleepers[0].wakeup <= now
        invariant Inv(St()) && WakeSleepers(St(), now) == WakeSleepers(old(St()), now) && WokeSome(old(St()), St(), now)
        decreases |sleepers|
      {
        WakeHead(St(), now);
        WakeOneMore(old(St()), St(), now);
        var z := sleepers[0];
        sleepers := sleepers[1..];
        var woken := UnblockReason(z.task, false);
      }
      if Orderly(sleepers) { SortedAbove(sleepers, now); }
    }

    /** yield: nothing happens if the preemption is not allowed; otherwise the queue moves up. Whoever gives up
        the processor stays queued exactly if preempted or still to run. */
    method YieldTo(preempt: bool, canSwitch: bool, preemptDisabled: bool, now: int)
      requires Inv(St())
      modifies this
      ensures Inv(St())
      ensures St() == if preempt && (!canSwitch || preemptDisabled) then old(St()) else Yield(old(St()), preempt, now)
      ensures !(preempt && (!canSwitch || preemptDisabled)) && current != old(current) ==>
        old(current) in status && (old(current) in queue <==> preempt || status[old(current)] == Running)
    {
      hide QueueOk, Switch;
      if !canSwitch && preempt { return; }
      if preemptDisabled && preempt { return; }
      WakeQueue(St(), now);
      WakeupSleepers(now);
      SwitchQueue(St(), preempt);
      SwitchTask(preempt);
    }

    /** The part of yield under the lock of the queue. */
    method SwitchTask(preempt: bool)
      requires Inv(St())
      modifies this
      ensures St() == Switch(old(St()), preempt) && status == old(status) && old(current) in status
      ensures current != old(current) ==> (old(current) in queue <==> preempt || status[old(current)] == Running)
    {
      SwitchLeaves(St(), preempt);
      hide Inv;
      var prevOnQueue := preempt || status[current] == Running;
      if prevOnQueue { PushTask(current); }
      var prev := current;
      var picked := Schedule();
      current := picked;
      FinishYield(prev, prevOnQueue);
    }

    method FinishYield(prev: Task, prevOnQueue: bool)
      modifies this`attached
      ensures attached == if prevOnQueue then old(attached) else old(attached) - {prev}
    {
      if !prevOnQueue { attached := attached - {prev}; }
    }

    method SetTaskStatus(st: Status)
      requires Inv(St()) && (current == idle ==> st == Blocked)
      modifies this
      ensures St() == SetStatus(old(St()), st) && Inv(St())
      ensures status == old(status)[current := st] && current == old(current)
      ensures queue == old(queue) && attached == old(attached) && sleepers == old(sleepers)
    {
      StepInv(St(), DoSetStatus(st));
      status := status[current := st];
    }

    /** sleep_remove_timeout: the current task, and only it, leaves the list. */
    method SleepRemoveTimeout()
      requires Inv(St())
      modifies this
      ensures St() == RemoveSleeper(old(St())) && Inv(St())
      ensures Orderly(old(sleepers)) ==>
        Orderly(sleepers) && forall z :: z in sleepers <==> z in old(sleepers) && z.task != current
    {
      hide QueueOk, Orderly, Without;
      StepInv(St(), DoWake);
      if Orderly(sleepers) {
        WithoutOrderly(sleepers, current);
        forall z ensures z in Without(sleepers, current) <==> z in sleepers && z.task != current {
          WithoutExact(sleepers, current, z);
        }
      }
      var k := FindSleeper(sleepers, current);
      if k < |sleepers| { sleepers := sleepers[..k] + sleepers[k + 1..]; }
    }

    /** sleep_add_timeout: an orderly list stays in waking order, equal times in order of arrival, exactly
        if the task is not on it already. */
    method SleepAddTimeout(time: int)
      requires Inv(St()) && current != idle
      modifies this
      ensures St() == AddSleeper(old(St()), time) && Inv(St()) && Listed(sleepers, current)
      ensures Orderly(old(sleepers)) ==> (Orderly(sleepers) <==> !Listed(old(sleepers), current))
    {
      hide QueueOk, Orderly, Listed;
      AddSleeperKnown(St(), time);
      if Orderly(sleepers) { AddSleeperIff(St(), time); }
      AddedIsListed(St(), time);
      ghost var before := sleepers;
      sleepers := Retimed(sleepers, current, time);
      ghost var z := sleepers;
      var k := 0;
      while k < |sleepers| && sleepers[k].wakeup <= time
        invariant 0 <= k <= |sleepers| && sleepers == z && Place(z, time) == k + Place(z[k..], time)
      {
        assert z[k..][1..] == z[k + 1..];
        k := k + 1;
      }
      sleepers := sleepers[..k] + [Sleeper(current, time)] + sleepers[k..];
    }

    /** block_task_timeout up to its yield, with the two readings of the clock. If the time passes between
        them, the task returns while it is still on the list. */
    method BlockTaskTimeout(timeout: int, now: int, later: int, next: int) returns (timedOut: bool)
      requires Inv(St()) && current != idle
      modifies this
      ensures Inv(St()) && (timedOut <==> timeout <= now || timeout <= later)
      ensures timedOut ==> current == old(current) && current in status && status[current] == Running
      ensures timedOut && !Listed(old(sleepers), current) ==> (Listed(sleepers, current) <==> now < timeout)
      ensures Orderly(old(sleepers)) && (timeout <= now || !Listed(old(sleepers), old(current))) ==> Orderly(sleepers)
      ensures timedOut && Orderly(old(sleepers)) && Orderly(sleepers) ==> timeout <= now || !Listed(old(sleepers), current)
    {
      hide QueueOk, Orderly, Listed, AddSleeper, Switch;
      SameCurrent(St(), timeout);
      if timeout <= now {
        SetTaskStatus(Running);
        return true;
      }
      SleepAddTimeout(timeout);
      if timeout <= later {
        SetTaskStatus(Running);
        return true;
      }
      ghost var s := St();
      YieldTo(false, true, false, next);
      SwitchKeepsList(s, next);
      timedOut := false;
    }

    /** The rest of block_task_timeout: off the list unless the wakeup reason is the timeout. Nothing wakes
        with that reason, as wakeup_sleepers gives the default one: after a wakeup `byTimeout` is never true in
        the code, and a task that the timer woke gets 0 instead of -ETIMEDOUT. */
    method ResumeFromTimeout(byTimeout: bool)
      requires Inv(St())
      modifies this
      ensures Inv(St()) && current == old(current)
      ensures Orderly(old(sleepers)) ==> Orderly(sleepers) && (!byTimeout ==> !Listed(sleepers, current))
      ensures byTimeout ==> St() == old(St())
    {
      hide QueueOk, Orderly;
      if !byTimeout { SleepRemoveTimeout(); }
    }
  }

  lemma AddedIsListed(s: State, time: int)
    ensures Listed(AddSleeper(s, time).sleepers, s.current)
  {
    var z := Retimed(s.sleepers, s.current, time);
    assert Sleeper(s.current, time) in Inserted(z, Sleeper(s.current, time));
  }

  lemma SwitchKeepsList(s: State, now: int)
    ensures Orderly(s.sleepers) ==> Orderly(Yield(s, false, now).sleepers)
  {
    if Orderly(s.sleepers) { WakeOrderly(s, now); }
  }

  lemma SortedAbove(z: seq<Sleeper>, now: int)
    requires Orderly(z) && (z != [] ==> z[0].wakeup > now)
    ensures forall x :: x in z ==> x.wakeup > now
  {
  }
}
