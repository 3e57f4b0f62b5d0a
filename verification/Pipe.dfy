/** The pipe: any number of writers and readers around one ring buffer.  A turn of the write loop and
    a read run under the pipe's lock, which is given up only to sleep. */
module Pipe {
  import opened RingBuffer

  const PIPE_SIZE := 4096

  /** A call of write: its buffer, how much of it is in the pipe, and whether it has returned. */
  datatype Call = Call(buffer: seq<Byte>, total: nat, returned: bool)

  /** A stretch of bytes that one turn of a write put into the pipe. */
  datatype Chunk = Chunk(call: nat, bytes: seq<Byte>)

  /** The pipe, all calls of write so far, what went in and out, and who sleeps on the two queues:
      calls of write, and tasks that read. */
  datatype State = State(contents: seq<Byte>, broken: bool, calls: seq<Call>, log: seq<Chunk>, taken: seq<Byte>,
                         writersAsleep: set<nat>, readersAsleep: set<nat>)

  function Init(): State { State([], false, [], [], [], {}, {}) }

  // ---- the steps ----

  function MinimumWrite(rest: int): int { if rest < 4096 then rest else 4096 }

  function Room(s: State): int { PIPE_SIZE - |s.contents| }

  predicate Waits(s: State, c: nat) {
    c < |s.calls| && !s.calls[c].returned && s.calls[c].total < |s.calls[c].buffer|
  }

  function Start(s: State, buffer: seq<Byte>): State {
    s.(calls := s.calls + [Call(buffer, 0, s.broken || buffer == [])])
  }

  /** There is room for the part that must go in at once. */
  predicate Fits(s: State, c: nat)
    requires c < |s.calls|
  {
    Room(s) >= MinimumWrite(|s.calls[c].buffer| - s.calls[c].total)
  }

  predicate CanTurn(s: State, c: nat) { Waits(s, c) && !s.broken && Fits(s, c) }

  function TurnSize(s: State, c: nat): nat
    requires CanTurn(s, c)
  {
    Least(|s.calls[c].buffer| - s.calls[c].total, Room(s))
  }

  function Turned(s: State, c: nat): Call
    requires CanTurn(s, c)
  {
    var k, n := s.calls[c], TurnSize(s, c);
    Call(k.buffer, k.total + n, k.total + n == |k.buffer|)
  }

  /** One turn of the loop in pipe_raw_write; it wakes all readers. */
  function Turn(s: State, c: nat): State
    requires CanTurn(s, c)
  {
    var k := s.calls[c];
    var bytes := k.buffer[k.total..k.total + TurnSize(s, c)];
    State(s.contents + bytes, s.broken, s.calls[c := Turned(s, c)], s.log + [Chunk(c, bytes)], s.taken, s.writersAsleep, {})
  }

  /** The write returns early: would block, interrupted or broken. */
  function GiveUp(s: State, c: nat): State
    requires Waits(s, c)
  {
    var k := s.calls[c];
    s.(calls := s.calls[c := Call(k.buffer, k.total, true)], writersAsleep := s.writersAsleep - {c})
  }

  /** A read takes the oldest bytes and wakes all writers; of a broken pipe there is nothing to read. */
  function Read(s: State, wanted: nat): State {
    var n := Least(wanted, |s.contents|);
    if s.contents == [] then s
    else s.(contents := s.contents[n..], taken := s.taken + s.contents[..n], writersAsleep := {})
  }

  datatype Step =
    | DoStart(buffer: seq<Byte>) | DoTurn(c: nat) | DoGiveUp(c: nat) | DoRead(reader: nat, wanted: nat) | DoClose
    | DoSleepWriter(c: nat) | DoSleepReader(reader: nat) | DoWakeWriter(c: nat) | DoWakeReader(reader: nat)

  /** Anything in the kernel may wake a sleeper at any time. */
  predicate Enabled(s: State, step: Step) {
    match step
    case DoTurn(c) => CanTurn(s, c) && c !in s.writersAsleep
    case DoGiveUp(c) => Waits(s, c)
    case DoRead(reader, _) => reader !in s.readersAsleep
    case DoSleepWriter(c) => Waits(s, c) && !s.broken && !Fits(s, c)
    case DoSleepReader(_) => s.contents == [] && !s.broken
    case _ => true
  }

  function Apply(s: State, step: Step): State
    requires Enabled(s, step)
  {
    match step
    case DoStart(buffer) => Start(s, buffer)
    case DoTurn(c) => Turn(s, c)
    case DoGiveUp(c) => GiveUp(s, c)
    case DoRead(_, wanted) => Read(s, wanted)
    case DoClose => s.(broken := true, writersAsleep := {}, readersAsleep := {})
    case DoSleepWriter(c) => s.(writersAsleep := s.writersAsleep + {c})
    case DoSleepReader(reader) => s.(readersAsleep := s.readersAsleep + {reader})
    case DoWakeWriter(c) => s.(writersAsleep := s.writersAsleep - {c})
    case DoWakeReader(reader) => s.(readersAsleep := s.readersAsleep - {reader})
  }

  ghost predicate CanRun(s: State, steps: seq<Step>)
    decreases steps
  {
    steps != [] ==> Enabled(s, steps[0]) && CanRun(Apply(s, steps[0]), steps[1..])
  }

  ghost function Run(s: State, steps: seq<Step>): State
    requires CanRun(s, steps)
    decreases steps
  {
    if steps == [] then s else Run(Apply(s, steps[0]), steps[1..])
  }

  // ---- what holds in every run ----

  /** The stream: all bytes that went in. */
  ghost function Stream(log: seq<Chunk>): seq<Byte> {
    if log == [] then [] else Stream(log[..|log| - 1]) + log[|log| - 1].bytes
  }

  /** What one call put in. */
  ghost function Of(log: seq<Chunk>, c: nat): seq<Byte> {
    if log == [] then []
    else
      var last := log[|log| - 1];
      Of(log[..|log| - 1], c) + if last.call == c then last.bytes else []
  }

  ghost predicate CallOk(s: State, c: nat)
    requires c < |s.calls|
  {
    var k := s.calls[c];
    && k.total <= |k.buffer| && Of(s.log, c) == k.buffer[..k.total]
    && (!k.returned ==> k.total < |k.buffer|)
    && (k.total == 0 ==> forall h :: h in s.log ==> h.call != c)
    && (|k.buffer| <= 4096 && k.total > 0 ==> k.total == |k.buffer| && exists i :: OnlyChunk(s.log, c, k.buffer, i))
  }

  /** The i-th chunk is the whole buffer of the call, and the call has no other. */
  ghost predicate OnlyChunk(log: seq<Chunk>, c: nat, buffer: seq<Byte>, i: int) {
    0 <= i < |log| && log[i] == Chunk(c, buffer) && forall j :: 0 <= j < |log| && log[j].call == c ==> j == i
  }

  /** Nobody sleeps who could go on. */
  ghost predicate SleepOk(s: State) {
    && (forall c :: c in s.writersAsleep ==> Waits(s, c) && !s.broken && !Fits(s, c))
    && (s.readersAsleep != {} ==> s.contents == [] && !s.broken)
  }

  ghost predicate Inv(s: State) {
    && SleepOk(s) && Stream(s.log) == s.taken + s.contents && |s.contents| <= PIPE_SIZE
    && (forall c: nat :: c < |s.calls| ==> CallOk(s, c))
    && (forall h :: h in s.log ==> h.call < |s.calls|)
  }

  lemma StreamPush(log: seq<Chunk>, h: Chunk)
    ensures Stream(log + [h]) == Stream(log) + h.bytes
    ensures forall c: nat :: Of(log + [h], c) == Of(log, c) + if h.call == c then h.bytes else []
  {
    assert (log + [h])[..|log|] == log;
  }

  /** Nobody has put anything in for a call that has not started. */
  lemma {:induction false} OfNone(log: seq<Chunk>, c: nat)
    requires forall h :: h in log ==> h.call != c
    ensures Of(log, c) == []
  {
    if log != [] {
      assert log[|log| - 1] in log;
      OfNone(log[..|log| - 1], c);
    }
  }

  lemma StartInv(s: State, buffer: seq<Byte>)
    requires Inv(s)
    ensures Inv(Start(s, buffer))
  {
    hide Stream, Of;
    var s', n := Start(s, buffer), |s.calls|;
    OfNone(s.log, n);
    forall c: nat | c < |s'.calls| ensures CallOk(s', c) {
      assert c < n ==> CallOk(s, c) && s'.calls[c] == s.calls[c];
    }
  }

  lemma TurnInv(s: State, c: nat)
    requires Inv(s) && CanTurn(s, c)
    ensures Inv(Turn(s, c))
  {
    hide Stream, Of;
    var s', k := Turn(s, c), s.calls[c];
    var h := s'.log[|s.log|];
    StreamPush(s.log, h);
    assert CallOk(s, c);
    forall b: nat | b < |s'.calls| ensures CallOk(s', b) {
      assert CallOk(s, b);
      if b == c {
        assert k.buffer[..k.total] + h.bytes == k.buffer[..s'.calls[c].total];
        if |k.buffer| <= 4096 {
          assert k.total == 0 && h == Chunk(c, k.buffer);
          assert forall j :: 0 <= j < |s.log| ==> s.log[j] in s.log;
          assert OnlyChunk(s'.log, c, k.buffer, |s.log|);
        }
      } else {
        OnlyPushed(s.log, h, b, s.calls[b].buffer);
      }
    }
  }

  lemma OnlyPushed(log: seq<Chunk>, h: Chunk, b: nat, buffer: seq<Byte>)
    requires h.call != b
    ensures forall i :: OnlyChunk(log, b, buffer, i) ==> OnlyChunk(log + [h], b, buffer, i)
  {
  }

  lemma GiveUpInv(s: State, c: nat)
    requires Inv(s) && Waits(s, c)
    ensures Inv(GiveUp(s, c))
  {
    var s' := GiveUp(s, c);
    forall b: nat | b < |s'.calls| ensures CallOk(s', b) { assert CallOk(s, b); }
  }

  lemma ReadInv(s: State, wanted: nat)
    requires Inv(s)
    ensures Inv(Read(s, wanted))
  {
    hide Stream, Of;
    var s' := Read(s, wanted);
    var n := Least(wanted, |s.contents|);
    assert s.contents == s.contents[..n] + s.contents[n..];
    forall b: nat | b < |s'.calls| ensures CallOk(s', b) { assert CallOk(s, b); }
  }

  lemma StepInv(s: State, step: Step)
    requires Inv(s) && Enabled(s, step)
    ensures Inv(Apply(s, step))
  {
    match step
    case DoStart(buffer) => StartInv(s, buffer);
    case DoTurn(c) => TurnInv(s, c);
    case DoGiveUp(c) => GiveUpInv(s, c);
    case DoRead(_, wanted) => ReadInv(s, wanted);
    case _ =>
      var s' := Apply(s, step);
      forall b: nat | b < |s'.calls| ensures CallOk(s', b) { assert CallOk(s, b); }
  }

  lemma {:induction false} RunInv(s: State, steps: seq<Step>)
    requires Inv(s) && CanRun(s, steps)
    ensures Inv(Run(s, steps))
    decreases steps
  {
    if steps != [] {
      StepInv(s, steps[0]);
      RunInv(Apply(s, steps[0]), steps[1..]);
    }
  }

  /** Where the i-th chunk stands in the stream. */
  ghost function ChunkAt(log: seq<Chunk>, i: nat): nat
    requires i <= |log|
  {
    |Stream(log[..i])|
  }

  /** A chunk of the log is one stretch of the stream. */
  lemma {:induction false} ChunkPlace(log: seq<Chunk>, i: nat)
    requires i < |log|
    ensures var p := ChunkAt(log, i); var b := log[i].bytes;
      p + |b| <= |Stream(log)| && Stream(log)[p..p + |b|] == b
    decreases |log|
  {
    var n := |log| - 1;
    if i == n {
      assert log[..n] == log[..i];
    } else {
      ChunkPlace(log[..n], i);
      assert log[..n][..i] == log[..i] && log[..n][i] == log[i];
    }
  }

  /** The call has put in exactly the first `total` bytes of its buffer, in order. */
  ghost predicate InOrder(s: State, c: nat)
    requires c < |s.calls|
  {
    s.calls[c].total <= |s.calls[c].buffer| && Of(s.log, c) == s.calls[c].buffer[..s.calls[c].total]
  }

  /** The call put in its whole buffer in one turn, and these bytes of its own are one stretch of the
      stream. */
  ghost predicate InOnePiece(s: State, c: nat)
    requires c < |s.calls|
  {
    s.calls[c].total == |s.calls[c].buffer| && exists i :: InPlace(s, c, i)
  }

  ghost predicate InPlace(s: State, c: nat, i: int)
    requires c < |s.calls|
  {
    var b := s.calls[c].buffer;
    && OnlyChunk(s.log, c, b, i)
    && ChunkAt(s.log, i) + |b| <= |Stream(s.log)| && Stream(s.log)[ChunkAt(s.log, i)..ChunkAt(s.log, i) + |b|] == b
  }

  /** In every run from an empty pipe, what was read is a prefix of what was written; every write
      has put in exactly the first bytes it reports, in order; and a write of at most 4096 bytes that
      put in anything is there completely, in one stretch. */
  lemma FifoInEveryRun(steps: seq<Step>)
    requires CanRun(Init(), steps)
    ensures Run(Init(), steps).taken <= Stream(Run(Init(), steps).log)
    ensures var s := Run(Init(), steps); forall c: nat :: c < |s.calls| ==> InOrder(s, c)
    ensures var s := Run(Init(), steps);
      forall c: nat :: c < |s.calls| && |s.calls[c].buffer| <= 4096 && s.calls[c].total > 0 ==> InOnePiece(s, c)
  {
    assert Inv(Init());
    RunInv(Init(), steps);
    var s := Run(Init(), steps);
    forall c: nat | c < |s.calls|
      ensures InOrder(s, c) && (|s.calls[c].buffer| <= 4096 && s.calls[c].total > 0 ==> InOnePiece(s, c))
    {
      assert CallOk(s, c);
      if |s.calls[c].buffer| <= 4096 && s.calls[c].total > 0 {
        var i :| OnlyChunk(s.log, c, s.calls[c].buffer, i);
        ChunkPlace(s.log, i);
        assert InPlace(s, c, i);
      }
    }
  }

  /** In every run from an empty pipe, no reader sleeps while there are bytes to read or the pipe is
      broken, and no writer sleeps that has room for its next part. */
  lemma NoLostWakeup(steps: seq<Step>, c: nat)
    requires CanRun(Init(), steps)
    ensures var s := Run(Init(), steps);
      && (s.contents != [] || s.broken ==> s.readersAsleep == {})
      && (c in s.writersAsleep ==> c < |s.calls| && !s.broken && !Fits(s, c))
  {
    assert Inv(Init());
    RunInv(Init(), steps);
  }

  /** A call that has returned puts nothing more in. */
  lemma {:induction false} ReturnedIsDone(s: State, steps: seq<Step>, c: nat)
    requires CanRun(s, steps) && c < |s.calls| && s.calls[c].returned
    ensures c < |Run(s, steps).calls| && Run(s, steps).calls[c] == s.calls[c] && Of(Run(s, steps).log, c) == Of(s.log, c)
    decreases steps
  {
    if steps != [] {
      var s' := Apply(s, steps[0]);
      if steps[0].DoTurn? { StreamPush(s.log, s'.log[|s.log|]); }
      ReturnedIsDone(s', steps[1..], c);
    }
  }

  /** A writer without room goes to sleep, and sleeps until it is interrupted or woken: by a read that takes
      something, by the close, or from elsewhere; a reader until a write, the close, or from elsewhere. */
  lemma SleepersSleep(s: State, step: Step, c: nat)
    requires Enabled(s, step)
    ensures var s' := Apply(s, step);
      && (step == DoSleepWriter(c) ==> c in s'.writersAsleep) && (step == DoSleepReader(c) ==> c in s'.readersAsleep)
      && (c in s.writersAsleep && c !in s'.writersAsleep ==>
            step == DoClose || step == DoGiveUp(c) || step == DoWakeWriter(c) || (step.DoRead? && s.contents != []))
      && (c in s.readersAsleep && c !in s'.readersAsleep ==> step == DoClose || step == DoWakeReader(c) || step.DoTurn?)
  {
  }

  // ---- a closed pipe ----

  /** Once closed the pipe stays broken: no further byte goes in, nobody sleeps, and a read of what is left
      ends with an empty pipe, on which no reader can go to sleep. */
  lemma {:induction false} ClosedForGood(s: State, steps: seq<Step>)
    requires Inv(s) && CanRun(s, steps) && s.broken
    ensures var s' := Run(s, steps);
      && s'.broken && s'.log == s.log && s'.readersAsleep == {} && s'.writersAsleep == {}
      && s'.taken + s'.contents == s.taken + s.contents
      && (forall reader :: !Enabled(s', DoSleepReader(reader))) && (forall c :: !Enabled(s', DoSleepWriter(c)))
    decreases steps
  {
    hide Stream, Of, CallOk;
    if steps != [] {
      ClosedStep(s, steps[0]);
      StepInv(s, steps[0]);
      ClosedForGood(Apply(s, steps[0]), steps[1..]);
    } else {
      assert forall c :: c !in s.writersAsleep;
    }
  }

  lemma ClosedStep(s: State, step: Step)
    requires s.broken && Enabled(s, step)
    ensures var s' := Apply(s, step);
      s'.broken && s'.log == s.log && s'.taken + s'.contents == s.taken + s.contents
  {
  }

  /** In every run from an empty pipe it is broken exactly if it was closed. */
  lemma {:induction false} BrokenIffClosed(s: State, steps: seq<Step>)
    requires CanRun(s, steps)
    ensures Run(s, steps).broken <==> s.broken || DoClose in steps
    decreases steps
  {
    if steps != [] {
      BrokenIffClosed(Apply(s, steps[0]), steps[1..]);
      assert steps == [steps[0]] + steps[1..];
    }
  }

  // ---- a call of write as a run ----

  lemma {:induction false} RunPush(s: State, steps: seq<Step>, step: Step)
    requires CanRun(s, steps) && Enabled(Run(s, steps), step)
    ensures CanRun(s, steps + [step]) && Run(s, steps + [step]) == Apply(Run(s, steps), step)
    decreases steps
  {
    hide Enabled, Apply;
    if steps == [] {
      assert steps + [step] == [step];
      assert CanRun(Apply(s, step), []);
    } else {
      RunPush(Apply(s, steps[0]), steps[1..], step);
      assert (steps + [step])[1..] == steps[1..] + [step];
    }
  }

  /** Since `first` only one write of this buffer was called, which has put in `total` bytes. */
  ghost predicate Mirrors(s: State, first: State, buffer: seq<Byte>, total: nat, returned: bool) {
    && s.broken == first.broken && s.calls == first.calls + [Call(buffer, total, returned)]
    && s.taken == first.taken && s.writersAsleep == first.writersAsleep
  }

  lemma StartRuns(first: State, buffer: seq<Byte>)
    ensures CanRun(first, [DoStart(buffer)])
    ensures var s := Run(first, [DoStart(buffer)]);
      Mirrors(s, first, buffer, 0, first.broken || buffer == []) && s.contents == first.contents
  {
    RunPush(first, [], DoStart(buffer));
    assert [] + [DoStart(buffer)] == [DoStart(buffer)];
  }

  lemma TurnRuns(first: State, steps: seq<Step>, buffer: seq<Byte>, total: nat)
    requires Inv(first) && CanRun(first, steps) && !first.broken && total < |buffer|
    requires var s := Run(first, steps);
      Mirrors(s, first, buffer, total, false) && Room(s) >= MinimumWrite(|buffer| - total)
    ensures var s := Run(first, steps); var turned := steps + [DoTurn(|first.calls|)];
      var n := Least(|buffer| - total, Room(s));
      && n > 0 && CanRun(first, turned) && Mirrors(Run(first, turned), first, buffer, total + n, total + n == |buffer|)
      && Run(first, turned).contents == s.contents + buffer[total..total + n]
  {
    hide Run, CanRun, Stream, Of, CallOk;
    RunPush(first, steps, DoTurn(|first.calls|));
  }

  lemma GiveUpRuns(first: State, steps: seq<Step>, buffer: seq<Byte>, total: nat)
    requires Inv(first) && CanRun(first, steps) && total < |buffer|
    requires Mirrors(Run(first, steps), first, buffer, total, false)
    ensures var given := steps + [DoGiveUp(|first.calls|)];
      && CanRun(first, given) && Mirrors(Run(first, given), first, buffer, total, true)
      && Run(first, given).contents == Run(first, steps).contents
  {
    hide Run, CanRun, Stream, Of, CallOk;
    RunPush(first, steps, DoGiveUp(|first.calls|));
  }

  // ---- the code, without sleeping ----

  datatype Result = Count(n: nat) | WouldBlock | BrokenPipe

  class End {
    const ring: Ring
    var broken: bool

    ghost predicate Valid()
      reads this, ring
    {
      ring.Valid() && ring.buffer.Length == PIPE_SIZE
    }

    constructor ()
      ensures Valid() && !broken && ring.Contents() == [] && fresh(ring) && fresh(ring.buffer)
    {
      ring := new Ring(PIPE_SIZE);
      broken := false;
    }

    /** The ring and the flag hold what the step machine's state says. */
    ghost predicate Shows(s: State)
      requires Valid()
      reads this, ring, ring.buffer
    {
      s.contents == ring.Contents() && s.broken == broken
    }

    /** One turn of the write loop over the ring is `Turn` of the step machine. */
    method WriteTurn(buffer: seq<Byte>, total: nat, ghost first: State, ghost steps: seq<Step>)
      returns (written: nat, ghost steps': seq<Step>)
      requires Valid() && Inv(first) && !first.broken && total < |buffer| && |ring.Contents()| == ring.readAvailable
      requires PIPE_SIZE - ring.readAvailable >= MinimumWrite(|buffer| - total)
      requires CanRun(first, steps) && Run(first, steps).contents == ring.Contents()
      requires Mirrors(Run(first, steps), first, buffer, total, false)
      modifies ring, ring.buffer
      ensures Valid() && written == Least(|buffer| - total, PIPE_SIZE - |old(ring.Contents())|)
      ensures ring.Contents() == old(ring.Contents()) + buffer[total..total + written]
      ensures |ring.Contents()| == ring.readAvailable && steps' == steps + [DoTurn(|first.calls|)]
      ensures CanRun(first, steps') && Run(first, steps').contents == ring.Contents()
      ensures Mirrors(Run(first, steps'), first, buffer, total + written, total + written == |buffer|)
    {
      hide Inv, CanRun, Run, Mirrors;
      TurnRuns(first, steps, buffer, total);
      steps' := steps + [DoTurn(|first.calls|)];
      written := ring.Write(buffer[total..]);
      assert buffer[total..][..written] == buffer[total..total + written];
      WrappedLength(ring.buffer[..], ring.readOffset, ring.readAvailable);
    }

    /** pipe_raw_write on a descriptor that does not block: the pipe gets the first bytes of the buffer,
        all or nothing if they are at most 4096.  From any state of the step machine that the pipe shows, the
        call is a run of that machine: a start, turns, and giving up if it would block. */
    method WriteNonblocking(buffer: seq<Byte>, ghost first: State) returns (r: Result, ghost steps: seq<Step>)
      requires Valid() && Inv(first) && Shows(first)
      modifies ring, ring.buffer
      ensures Valid() && (r.BrokenPipe? <==> broken)
      ensures ring.Contents() == old(ring.Contents()) + buffer[..if r.Count? && r.n <= |buffer| then r.n else 0]
      ensures r.Count? ==> r.n <= |buffer|
      ensures !broken && |buffer| <= 4096 ==>
        r == if |buffer| <= PIPE_SIZE - |old(ring.Contents())| then Count(|buffer|) else WouldBlock
      ensures !broken && |buffer| > 4096 ==> r == if old(ring.Contents()) == [] then Count(PIPE_SIZE) else WouldBlock
      ensures CanRun(first, steps) && Shows(Run(first, steps))
      ensures Mirrors(Run(first, steps), first, buffer, if r.Count? then r.n else 0, true)
    {
      hide Inv, CanRun, Run, Mirrors, Wrapped;
      StartRuns(first, buffer);
      steps := [DoStart(buffer)];
      MirrorsBroken(Run(first, steps), first, buffer, 0, broken || buffer == []);
      if broken { return BrokenPipe, steps; }
      ghost var before := ring.Contents();
      WrappedLength(ring.buffer[..], ring.readOffset, ring.readAvailable);
      var total, count := 0, |buffer|;
      while count > 0
        invariant 0 <= total <= |buffer| && count == |buffer| - total && Valid()
        invariant ring.Contents() == before + buffer[..total] && |ring.Contents()| == ring.readAvailable
        invariant total > 0 ==> total == |buffer| || (before == [] && total == PIPE_SIZE)
        invariant 0 < total == |buffer| <= 4096 ==> |buffer| <= PIPE_SIZE - |before|
        invariant CanRun(first, steps) && Run(first, steps).contents == ring.Contents()
        invariant Mirrors(Run(first, steps), first, buffer, total, total == |buffer|)
      {
        if PIPE_SIZE - ring.readAvailable < MinimumWrite(count) {
          GiveUpRuns(first, steps, buffer, total);
          steps := steps + [DoGiveUp(|first.calls|)];
          MirrorsBroken(Run(first, steps), first, buffer, total, true);
          return if total == 0 then WouldBlock else Count(total), steps;
        }
        var written;
        written, steps := WriteTurn(buffer, total, first, steps);
        assert buffer[..total] + buffer[total..total + written] == buffer[..total + written];
        count := count - written;
        total := total + written;
      }
      MirrorsBroken(Run(first, steps), first, buffer, total, true);
      r := Count(total);
    }

    /** pipe_raw_read on a descriptor that does not block: a read of the step machine. */
    method ReadNonblocking(wanted: nat, ghost first: State) returns (r: Result, out: seq<Byte>)
      requires Valid() && Shows(first)
      modifies ring
      ensures Valid()
      ensures r == if old(ring.Contents()) == [] && !broken then WouldBlock
                   else Count(if wanted < |old(ring.Contents())| then wanted else |old(ring.Contents())|)
      ensures out == old(ring.Contents())[..if r.Count? then r.n else 0]
      ensures ring.Contents() == old(ring.Contents())[|out|..]
      ensures Shows(Read(first, wanted)) && Read(first, wanted).taken == first.taken + out
    {
      WrappedLength(ring.buffer[..], ring.readOffset, ring.readAvailable);
      if ring.readAvailable == 0 {
        return if broken then Count(0) else WouldBlock, [];
      }
      out := ring.Read(wanted);
      r := Count(|out|);
    }
  }

  lemma MirrorsBroken(s: State, first: State, buffer: seq<Byte>, total: nat, returned: bool)
    requires Mirrors(s, first, buffer, total, returned)
    ensures s.broken == first.broken
  {
  }
}
