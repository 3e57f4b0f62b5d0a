/** The work queue on top of the scheduler: a worker task that sleeps while there is no work, and
    callers that append work and then wake it, in any interleaving. */
module WorkQueue {
  import S = Scheduler

  type Work = int

  /** Where the worker is: in a callback, or in the wait loop of get_work. */
  datatype Place = Busy | Waiting

  /** `pending` are the calls of work_queue, by their work, that have appended and not yet woken the
      worker; `returned` is the queued work for which a call has done both. */
  datatype State = State(
    cpu: S.State, worker: S.Task, works: seq<Work>, place: Place, pending: multiset<Work>, returned: set<Work>)

  // ---- the steps ----

  /** One turn of get_work under the lock: prepare to block, look, and take the first work if any. */
  function Look(s: State): State {
    if s.works == [] then s.(cpu := S.SetStatus(s.cpu, S.Blocked), place := Waiting)
    else s.(cpu := S.SetStatus(s.cpu, S.Running), works := s.works[1..], place := Busy, returned := s.returned - {s.works[0]})
  }

  /** The first half of work_queue, under the lock; work that is already queued is not queued again. */
  function Append(s: State, w: Work): State {
    s.(works := if w in s.works then s.works else s.works + [w], pending := s.pending + multiset{w})
  }

  /** The second half of work_queue; the work may have been taken meanwhile. */
  function Wake(s: State, w: Work): State {
    s.(cpu := S.Unblock(s.cpu, s.worker, false), pending := s.pending - multiset{w},
       returned := if w in s.works then s.returned + {w} else s.returned)
  }

  datatype Step = Cpu(step: S.Step) | DoLook | DoAppend(w: Work) | DoWake(w: Work)

  /** In the wait loop the worker does nothing to its own status but what Look does. */
  predicate Enabled(s: State, step: Step) {
    match step
    case Cpu(c) =>
      S.Enabled(s.cpu, c) && (s.cpu.current == s.worker && s.place == Waiting ==> !c.DoSetStatus? && !c.DoSleep?)
    case DoLook => s.cpu.current == s.worker
    case DoAppend(_) => true
    case DoWake(w) => w in s.pending
  }

  function Apply(s: State, step: Step): State
    requires Enabled(s, step)
  {
    match step
    case Cpu(c) => s.(cpu := S.Apply(s.cpu, c))
    case DoLook => Look(s)
    case DoAppend(w) => Append(s, w)
    case DoWake(w) => Wake(s, w)
  }

  ghost predicate CanRun(s: State, steps: seq<Step>)
    decreases steps
  {
    steps != [] ==> Enabled(s, steps[0]) && CanRun(Apply(s, steps[0]), steps[1..])
  }

  ghost function Run(s: State, steps: seq<Step>): State
    requires CanRun(s, steps)
    decreases steps
  {
    if steps == [] then s else Run(Apply(s, steps[0]), steps[1..])
  }

  // ---- no work is forgotten ----

  /** Queued work has a call that returned or one that is about to wake the worker, and the worker never
      waits blocked when there is work of the first kind. */
  ghost predicate Inv(s: State) {
    && S.Inv(s.cpu) && s.worker != s.cpu.idle && s.worker in s.cpu.status && S.NoDup(s.works)
    && (s.place == Waiting ==> s.cpu.status[s.worker] == S.Running || s.cpu.status[s.worker] == S.Blocked)
    && (forall w :: w in s.works ==> w in s.returned || w in s.pending) && (forall w :: w in s.returned ==> w in s.works)
    && (s.place == Waiting && s.returned != {} ==> s.cpu.status[s.worker] == S.Running)
  }

  /** A step of the scheduler does not put a task to sleep that is not the current one. */
  lemma OthersStayAwake(c: S.State, step: S.Step, t: S.Task)
    requires S.Inv(c) && S.Enabled(c, step) && t in c.status
    requires step.DoSetStatus? ==> t != c.current
    ensures var c' := S.Apply(c, step);
      && t in c'.status && (c'.status[t] == c.status[t] || c'.status[t] == S.Running) && c'.idle == c.idle
  {
    match step
    case DoYield(preempt, now) => WakeKeeps(c, now, t);
    case _ =>
  }

  lemma {:induction false} WakeKeeps(c: S.State, now: int, t: S.Task)
    requires t in c.status
    ensures var c' := S.WakeSleepers(c, now);
      && t in c'.status && (c'.status[t] == c.status[t] || c'.status[t] == S.Running) && c'.idle == c.idle
    decreases |c.sleepers|
  {
    if c.sleepers != [] && c.sleepers[0].wakeup <= now {
      WakeKeeps(S.Unblock(c.(sleepers := c.sleepers[1..]), c.sleepers[0].task, false), now, t);
    }
  }

  lemma StepInv(s: State, step: Step)
    requires Inv(s) && Enabled(s, step)
    ensures Inv(Apply(s, step))
  {
    hide S.Inv, S.Unblock;
    match step
    case Cpu(c) =>
      S.StepInv(s.cpu, c);
      CpuStep(s, c);
    case DoLook =>
      LookInv(s);
    case DoAppend(w) =>
    case DoWake(w) =>
      S.StepInv(s.cpu, S.DoUnblock(s.worker, false));
      WakeRuns(s.cpu, s.worker);
  }

  lemma LookInv(s: State)
    requires Inv(s) && s.cpu.current == s.worker
    ensures Inv(Look(s))
  {
    hide S.Inv;
    CurrentIsKnown(s.cpu);
    S.StepInv(s.cpu, S.DoSetStatus(if s.works == [] then S.Blocked else S.Running));
    if s.works == [] {
      assert forall w :: w !in s.returned;
    } else {
      assert forall w :: w in s.works <==> w == s.works[0] || w in s.works[1..];
      assert s.works[0] !in s.works[1..];
    }
  }

  lemma CpuStep(s: State, c: S.Step)
    requires Inv(s) && Enabled(s, Cpu(c)) && S.Inv(S.Apply(s.cpu, c))
    ensures Inv(s.(cpu := S.Apply(s.cpu, c)))
  {
    hide S.Inv, S.Apply, S.Enabled;
    var c' := S.Apply(s.cpu, c);
    if c.DoSetStatus? && s.worker == s.cpu.current {
      OwnStatus(s.cpu, c);
    } else {
      OthersStayAwake(s.cpu, c, s.worker);
    }
  }

  lemma OwnStatus(c: S.State, step: S.Step)
    requires step.DoSetStatus? && c.current in c.status
    ensures c.current in S.Apply(c, step).status && S.Apply(c, step).idle == c.idle
  {
  }

  lemma CurrentIsKnown(c: S.State)
    requires S.Inv(c)
    ensures c.current in c.status
  {
  }

  lemma WakeRuns(c: S.State, t: S.Task)
    requires t in c.status
    ensures var c' := S.Unblock(c, t, false);
      && t in c'.status && c'.idle == c.idle && (c'.status[t] == c.status[t] || c'.status[t] == S.Running)
      && (c.status[t] == S.Running || c.status[t] == S.Blocked ==> c'.status[t] == S.Running)
  {
  }

  lemma {:induction false} RunInv(s: State, steps: seq<Step>)
    requires Inv(s) && CanRun(s, steps)
    ensures Inv(Run(s, steps))
    decreases steps
  {
    if steps != [] {
      StepInv(s, steps[0]);
      RunInv(Apply(s, steps[0]), steps[1..]);
    }
  }

  /** In every reachable state: queued work for which a call of work_queue has returned, or no call is
      under way, finds the waiting worker running or in the run queue, never blocked off it. */
  lemma NoLostWork(s: State, steps: seq<Step>, w: Work)
    requires Inv(s) && CanRun(s, steps)
    ensures var s' := Run(s, steps);
      s'.place == Waiting && w in s'.works && (w in s'.returned || w !in s'.pending) ==>
        s'.worker == s'.cpu.current || s'.worker in s'.cpu.queue
  {
    RunInv(s, steps);
  }

  /** The work that a step appends, and the work that it takes. */
  function Appends(s: State, step: Step): seq<Work> {
    if step.DoAppend? && step.w !in s.works then [step.w] else []
  }

  function Takes(s: State, step: Step): seq<Work> { if step.DoLook? && s.works != [] then [s.works[0]] else [] }

  ghost function Appended(s: State, steps: seq<Step>): seq<Work>
    requires CanRun(s, steps)
    decreases steps
  {
    if steps == [] then [] else Appends(s, steps[0]) + Appended(Apply(s, steps[0]), steps[1..])
  }

  ghost function Taken(s: State, steps: seq<Step>): seq<Work>
    requires CanRun(s, steps)
    decreases steps
  {
    if steps == [] then [] else Takes(s, steps[0]) + Taken(Apply(s, steps[0]), steps[1..])
  }

  /** In every run work is taken in the order in which it was queued, none is left out and none comes twice. */
  lemma {:induction false} TakenInOrder(s: State, steps: seq<Step>)
    requires CanRun(s, steps)
    ensures s.works + Appended(s, steps) == Taken(s, steps) + Run(s, steps).works
    decreases steps
  {
    hide Enabled, Apply, Appends, Takes;
    if steps != [] {
      var s', rest := Apply(s, steps[0]), steps[1..];
      TakenInOrder(s', rest);
      StepInOrder(s, steps[0]);
      Regroup(s.works, Appends(s, steps[0]), Takes(s, steps[0]), s'.works,
              Appended(s', rest), Taken(s', rest), Run(s', rest).works);
    }
  }

  lemma StepInOrder(s: State, step: Step)
    requires Enabled(s, step)
    ensures s.works + Appends(s, step) == Takes(s, step) + Apply(s, step).works
  {
  }

  lemma Regroup(a: seq<Work>, b: seq<Work>, c: seq<Work>, d: seq<Work>, e: seq<Work>, f: seq<Work>, g: seq<Work>)
    requires a + b == c + d && d + e == f + g
    ensures a + (b + e) == c + f + g
  {
    assert a + (b + e) == a + b + e;
    assert c + d + e == c + (d + e);
    assert c + (f + g) == c + f + g;
  }

  // ---- and the worker gets to it ----

  function Yields(steps: seq<Step>): nat {
    if steps == [] then 0 else (if steps[0].Cpu? && steps[0].step.DoYield? then 1 else 0) + Yields(steps[1..])
  }

  /** The position in the run queue under any step. */
  lemma StepMoves(s: State, step: Step, k: nat)
    requires Inv(s) && Enabled(s, step) && k < |s.cpu.queue|
    ensures var q := Apply(s, step).cpu; var t := s.cpu.queue[k];
      if !(step.Cpu? && step.step.DoYield?) then k < |q.queue| && q.queue[k] == t
      else if k == 0 then q.current == t else k - 1 < |q.queue| && q.queue[k - 1] == t
  {
    hide S.Inv;
    match step
    case Cpu(c) => S.StepMoves(s.cpu, c, k);
    case DoLook =>
    case DoAppend(w) =>
    case DoWake(w) => S.StepMoves(s.cpu, S.DoUnblock(s.worker, false), k);
  }

  lemma {:induction false} WorkerRuns(s: State, steps: seq<Step>, k: nat) returns (n: nat)
    requires Inv(s) && CanRun(s, steps) && k < |s.cpu.queue| && s.cpu.queue[k] == s.worker && Yields(steps) > k
    ensures n <= |steps| && CanRun(s, steps[..n]) && Run(s, steps[..n]).cpu.current == s.worker
    ensures Yields(steps[..n]) == k + 1
    decreases steps
  {
    hide Inv, Enabled, Apply;
    var step := steps[0];
    StepMoves(s, step, k);
    StepInv(s, step);
    SameWorker(s, step);
    var s' := Apply(s, step);
    if step.Cpu? && step.step.DoYield? && k == 0 {
      n := 1;
      assert steps[..1] == [step] && steps[..1][1..] == [];
      assert CanRun(s', []) && Run(s', []) == s' && Yields([]) == 0;
    } else {
      var m := WorkerRuns(s', steps[1..], if step.Cpu? && step.step.DoYield? then k - 1 else k);
      n := m + 1;
      assert steps[..n][0] == step && steps[..n][1..] == steps[1..][..m];
    }
  }

  lemma SameWorker(s: State, step: Step)
    requires Enabled(s, step)
    ensures Apply(s, step).worker == s.worker
  {
  }

  // ---- the code ----

  class Pool {
    const cpu: S.Cpu
    const worker: S.Task
    var works: seq<Work>
    var place: Place
    ghost var pending: multiset<Work>
    ghost var returned: set<Work>

    ghost function St(): State
      reads this, cpu
    {
      State(cpu.St(), worker, works, place, pending, returned)
    }

    constructor (c: S.Cpu, w: S.Task)
      requires S.Inv(c.St()) && w != c.idle && w in c.status
      ensures cpu == c && worker == w && Inv(St()) && works == []
    {
      cpu, worker, works, place, pending, returned := c, w, [], Busy, multiset{}, {};
    }

    /** get_work until it either takes the first work or has to yield. */
    method GetWorkTurn() returns (taken: bool, work: Work)
      requires Inv(St()) && cpu.current == worker
      modifies this, cpu
      ensures St() == Look(old(St())) && Inv(St())
      ensures taken <==> old(works) != []
      ensures cpu.status == old(cpu.status)[worker := if taken then S.Running else S.Blocked]
      ensures place == (if taken then Busy else Waiting) && cpu.queue == old(cpu.queue) && cpu.current == worker
      ensures taken ==> work == old(works)[0] && works == old(works)[1..] && work !in works
    {
      StepInv(St(), DoLook);
      cpu.SetTaskStatus(S.Blocked);
      work := 0;
      if works == [] {
        place := Waiting;
        return false, 0;
      }
      cpu.SetTaskStatus(S.Running);
      work := works[0];
      returned := returned - {work};
      works := works[1..];
      place := Busy;
      taken := true;
    }

    /** work_raw_queue: work that is not queued yet goes to the end. */
    method AppendWork(w: Work)
      requires Inv(St())
      modifies this
      ensures St() == Append(old(St()), w) && Inv(St()) && place == old(place)
      ensures works == (if w in old(works) then old(works) else old(works) + [w])
      ensures pending == old(pending) + multiset{w} && returned == old(returned) && w in works
    {
      hide S.Inv;
      StepInv(St(), DoAppend(w));
      if w !in works { works := works + [w]; }
      pending := pending + multiset{w};
    }

    /** work_queue: the work is queued once, and a waiting worker is then running or in the run queue. */
    method QueueWork(w: Work)
      requires Inv(St())
      modifies this, cpu
      ensures St() == Wake(Append(old(St()), w), w) && Inv(St())
      ensures works == (if w in old(works) then old(works) else old(works) + [w])
      ensures pending == old(pending) && returned == old(returned) + {w}
      ensures w in works && (place == Waiting ==> worker == cpu.current || worker in cpu.queue)
    {
      hide S.Inv, S.Unblock, Append;
      AppendWork(w);
      StepInv(St(), DoWake(w));
      WorkerKnown(St());
      var woken := cpu.UnblockReason(worker, false);
      pending := pending - multiset{w};
      returned := returned + {w};
      NoLostWork(St(), [], w);
    }
  }

  lemma WorkerKnown(s: State)
    requires Inv(s)
    ensures S.Inv(s.cpu) && s.worker != s.cpu.idle && s.worker in s.cpu.status
  {
  }
}
