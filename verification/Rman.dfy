/** The resource manager: aligned first-fit allocation from a sorted list of segments. */
module Rman {
  import opened Arithmetic
  import opened RmanSegs

  const WORD := 0x1_0000_0000_0000_0000

  /** A request; size 0 and align 0 stand for any, which is 1. */
  datatype Request = Request(start: int, end: int, size: int, align: int)

  predicate IsRequest(q: Request) { 0 <= q.start < WORD && 0 <= q.end < WORD && 0 <= q.size < WORD && 0 <= q.align < WORD }

  function SizeOf(q: Request): int { if q.size == 0 then 1 else q.size }

  function AlignOf(q: Request): int { if q.align == 0 then 1 else q.align }

  datatype Result = Ok(start: int, size: int) | NoMemory | Invalid

  datatype Option<T> = None | Some(value: T)

  // ---- what one segment offers ----

  /** size_t subtraction. */
  function Minus(a: int, b: int): int { (a - b) % WORD }

  lemma MinusCases(a: int, b: int)
    requires 0 <= a < WORD && 0 <= b < WORD
    ensures Minus(a, b) == if b <= a then a - b else WORD + a - b
  {
  }

  predicate Multiple(a: int, align: int)
    requires align > 0
  {
    a % align == 0
  }

  /** What the search adds to reach an aligned address. */
  function Padding(a: int, align: int): int
    requires align > 0
  {
    if a % align != 0 then align - a % align else 0
  }

  /** Size 0 is 1, and alignment 0 is none. */
  lemma MultipleIs(a: int, q: Request)
    requires IsRequest(q)
    ensures Multiple(a, AlignOf(q)) <==> q.align == 0 || a % q.align == 0
    ensures SizeOf(q) == if q.size == 0 then 1 else q.size
  {
  }

  lemma PaddingLeast(start: int, align: int, a: int)
    requires align > 0
    ensures Padding(start, align) >= 0 && Multiple(start + Padding(start, align), align)
    ensures a >= start && Multiple(a, align) ==> a >= start + Padding(start, align)
    ensures Multiple(start, align) ==> Padding(start, align) == 0
  {
    if start % align != 0 {
      AlignUp(start, align);
      if a >= start && Multiple(a, align) { AlignUpLeast(start, align, a); }
    }
  }

  /** The address that the search takes in a free segment, if any. */
  function Candidate(s: Seg, q: Request): Option<int>
    requires IsRequest(q)
  {
    var start := if s.start < q.start then q.start else s.start;
    var count0 := End(s) - start;
    var count := if start + count0 > q.end then Minus(q.end, start) else count0;
    var add := Padding(start, AlignOf(q));
    if count < add || count - add < SizeOf(q) then None else Some(start + add)
  }

  /** The whole window lies in the segment and in the requested range. */
  predicate Fits(s: Seg, q: Request, a: int)
    requires IsRequest(q)
  {
    s.start <= a && a + SizeOf(q) <= End(s) && q.start <= a && a + SizeOf(q) <= q.end && Multiple(a, AlignOf(q))
  }

  /** In a proper range the candidate is the least fitting address, and there is none without it. */
  lemma CandidateLeast(s: Seg, q: Request, a: int)
    requires IsRequest(q) && q.start <= q.end && 0 <= s.start && End(s) > q.start && s.start < q.end && End(s) < WORD
    ensures Candidate(s, q).Some? ==> Fits(s, q, Candidate(s, q).value)
    ensures Fits(s, q, a) ==> Candidate(s, q).Some? && Candidate(s, q).value <= a
  {
    hide Padding, Multiple, Minus;
    var start := if s.start < q.start then q.start else s.start;
    MinusCases(q.end, start);
    PaddingLeast(start, AlignOf(q), a);
  }

  /** In a reversed range the subtraction wraps, and the segment around it offers the start itself. */
  lemma CandidateReversed(s: Seg, q: Request)
    requires IsRequest(q) && q.end < q.start && Multiple(q.start, AlignOf(q))
    requires 0 <= s.start < q.end && q.start < End(s) < WORD
    ensures Candidate(s, q) == if SizeOf(q) <= WORD - (q.start - q.end) then Some(q.start) else None
  {
    hide Padding, Multiple, Minus;
    MinusCases(q.end, q.start);
    PaddingLeast(q.start, AlignOf(q), 0);
  }

  // ---- the manager ----

  ghost predicate Bounded(segs: seq<Seg>) { forall s :: s in segs ==> 0 <= s.start && End(s) < WORD }

  /** An address that the request asks for: aligned, in range, its whole window free. */
  ghost predicate Serves(segs: seq<Seg>, q: Request, a: int)
    requires IsRequest(q)
  {
    q.start <= a && a + SizeOf(q) <= q.end && Multiple(a, AlignOf(q)) && Window(segs, a, SizeOf(q))
  }

  /** A free segment reaches around a reversed range. */
  ghost predicate Reversed(segs: seq<Seg>, q: Request)
    requires IsRequest(q)
  {
    q.end < q.start && SizeOf(q) <= WORD - (q.start - q.end) &&
    exists s :: s in segs && s.owner == 0 && s.start < q.end && q.start < End(s)
  }

  /** The size that a reversed range gets: what the segment has left, if that is less. */
  ghost predicate CutShort(segs: seq<Seg>, q: Request, n: int) {
    exists s :: s in segs && s.owner == 0 && Inside(s, q.start) &&
      n == if SizeOf(q) < End(s) - q.start then SizeOf(q) else End(s) - q.start
  }

  /** The segment with this start and size is new and owned; everything else is as before. */
  ghost predicate Taken(segs: seq<Seg>, segs': seq<Seg>, a: int, n: int, owner: int) {
    && n > 0 && Window(segs, a, n)
    && (forall b :: (Has(segs', b) <==> Has(segs, b)) && (FreeAt(segs', b) <==> FreeAt(segs, b) && !(a <= b < a + n)))
    && Owned(segs') == Owned(segs) + {Seg(a, n, owner)} && Seg(a, n, owner) !in Owned(segs)
  }

  datatype Op = Add(start: int, size: int) | Ask(q: Request, owner: int) | Give(seg: Seg)

  ghost predicate IsOp(op: Op) {
    match op
    case Add(start, size) => 0 <= start && 0 < size && start + size < WORD
    case Ask(q, owner) => IsRequest(q) && owner != 0
    case Give(_) => true
  }

  ghost predicate InRegions(regions: seq<Seg>, a: int) { exists g :: g in regions && Inside(g, a) }

  /** From a to a + n everything is covered, and the addresses next to it are not. */
  ghost predicate MaximalRun(segs: seq<Seg>, regions: seq<Seg>, a: int, n: int) {
    && n > 0 && (forall b :: a <= b < a + n ==> Has(segs, b) || InRegions(regions, b))
    && !Has(segs, a - 1) && !InRegions(regions, a - 1) && !Has(segs, a + n) && !InRegions(regions, a + n)
  }

  // ---- what a run of operations must answer, in terms of addresses alone ----

  ghost predicate Clear(segs: seq<Seg>, regions: seq<Seg>, start: int, size: int) {
    forall a :: start <= a < start + size ==> !Has(segs, a) && !InRegions(regions, a)
  }

  /** The regions that a run adds: those with no address covered at that time. */
  ghost function Accepted(segs: seq<Seg>, ops: seq<Op>): seq<Seg> {
    if ops == [] then [] else AcceptedAfter(segs, Accepted(segs, ops[..|ops| - 1]), ops[|ops| - 1])
  }

  ghost function AcceptedAfter(segs: seq<Seg>, regions: seq<Seg>, op: Op): seq<Seg> {
    if op.Add? && Clear(segs, regions, op.start, op.size) then regions + [Seg(op.start, op.size, 0)] else regions
  }

  /** The segments handed out and not yet given back. */
  ghost function Held(held: set<Seg>, ops: seq<Op>, results: seq<Result>): set<Seg>
    requires |ops| == |results|
  {
    if ops == [] then held else
      var n := |ops| - 1;
      HeldAfter(Held(held, ops[..n], results[..n]), ops[n], results[n])
  }

  ghost function HeldAfter(held: set<Seg>, op: Op, r: Result): set<Seg> {
    match op
    case Add(_, _) => held
    case Ask(_, owner) => if r.Ok? then held + {Seg(r.start, r.size, owner)} else held
    case Give(seg) => held - {seg}
  }

  /** The covered addresses outside every held segment. */
  ghost function Unheld(segs: seq<Seg>, regions: seq<Seg>, held: set<Seg>): iset<int> {
    iset a | (Has(segs, a) || InRegions(regions, a)) && forall s :: s in held ==> !Inside(s, a)
  }

  ghost predicate AllIn(free: iset<int>, a: int, n: int) { forall b :: a <= b < a + n ==> b in free }

  ghost predicate Serving(free: iset<int>, q: Request, a: int)
    requires IsRequest(q)
  {
    q.start <= a && a + SizeOf(q) <= q.end && Multiple(a, AlignOf(q)) && AllIn(free, a, SizeOf(q))
  }

  /** The right answer when these addresses are free: the least serving address; in a reversed range the start,
      if everything from just before the end up to it is free, cut at the next address that is not. */
  ghost predicate Answers(free: iset<int>, q: Request, r: Result)
    requires IsRequest(q)
  {
    && (r.Invalid? <==> q.align > 0 && q.start % q.align != 0)
    && (r.Ok? && q.start <= q.end ==> r.size == (if q.size == 0 then 1 else q.size) && (q.align > 0 ==> r.start % q.align == 0))
    && (q.start <= q.end ==> AnswersProper(free, q, r))
    && (q.end < q.start ==> AnswersReversed(free, q, r))
  }

  ghost predicate AnswersProper(free: iset<int>, q: Request, r: Result)
    requires IsRequest(q)
  {
    && (!r.Invalid? ==> (r.NoMemory? <==> forall a :: !Serving(free, q, a)))
    && (r.Ok? ==> r.size == SizeOf(q) && Serving(free, q, r.start) && forall a :: Serving(free, q, a) ==> r.start <= a)
  }

  ghost predicate AnswersReversed(free: iset<int>, q: Request, r: Result)
    requires IsRequest(q)
  {
    && (!r.Invalid? ==>
         (r.Ok? <==> SizeOf(q) <= WORD - (q.start - q.end) && AllIn(free, q.end - 1, q.start - q.end + 2)))
    && (r.Ok? ==> && r.start == q.start && 0 < r.size <= SizeOf(q) && AllIn(free, q.start, r.size)
                  && (r.size == SizeOf(q) || q.start + r.size !in free))
  }

  /** The right reply of one operation, given the regions added so far and the segments held. */
  ghost predicate Replies(segs: seq<Seg>, regions: seq<Seg>, held: set<Seg>, op: Op, r: Result)
    requires IsOp(op)
  {
    match op
    case Add(start, size) => r == if Clear(segs, regions, start, size) then Ok(start, size) else Invalid
    case Ask(q, _) => Answers(Unheld(segs, regions, held), q, r)
    case Give(seg) => r == if seg in held then Ok(seg.start, seg.size) else Invalid
  }

  /** The k-th operation of the run is answered as the operations before it demand. */
  ghost predicate Answered(segs: seq<Seg>, ops: seq<Op>, results: seq<Result>, k: nat)
    requires k < |ops| && k < |results| && IsOp(ops[k])
  {
    Replies(segs, Accepted(segs, ops[..k]), Held(Owned(segs), ops[..k], results[..k]), ops[k], results[k])
  }

  class Manager {
    var segs: seq<Seg>

    ghost predicate Valid()
      reads this
    {
      Canonical(segs) && Bounded(segs)
    }

    constructor ()
      ensures Valid() && segs == []
    {
      segs := [];
    }

    /** rman_merge */
    method Merge(k: nat)
      requires k < |segs|
      modifies this
      ensures segs == Merged(old(segs)[..k], old(segs)[k], old(segs)[k + 1..])
    {
      ghost var x, y := segs[..k], segs[k + 1..];
      var i := k;
      if i > 0 && End(segs[i - 1]) == segs[i].start && segs[i - 1].owner == 0 {
        var seg := Seg(segs[i - 1].start, segs[i].size + segs[i - 1].size, segs[i].owner);
        segs := segs[..i - 1] + [seg] + segs[i + 1..];
        i := i - 1;
      }
      assert segs == MergePrev(x, old(segs)[k]).0 + [MergePrev(x, old(segs)[k]).1] + y;
      if i + 1 < |segs| && End(segs[i]) == segs[i + 1].start && segs[i + 1].owner == 0 {
        var seg := Seg(segs[i].start, segs[i].size + segs[i + 1].size, segs[i].owner);
        segs := segs[..i] + [seg] + segs[i + 2..];
      }
    }

    /** rman_get_seg_before: the number of segments that start before the address. */
    method SegsBefore(addr: int) returns (k: nat)
      requires Valid()
      ensures k <= |segs|
      ensures forall s :: s in segs[..k] ==> s.start < addr
      ensures forall s :: s in segs[k..] ==> s.start >= addr
    {
      k := 0;
      while k < |segs| && segs[k].start < addr
        invariant k <= |segs| && forall i :: 0 <= i < k ==> segs[i].start < addr
      {
        k := k + 1;
      }
      StartsRise(segs, k, addr);
    }

    /** rman_raw_add_region: refused exactly if it overlaps a segment. An empty region that touches no
        free segment is the one thing that leaves an empty segment behind. */
    method AddRegion(start: int, size: int) returns (ok: bool)
      requires Valid() && 0 <= start && 0 <= size && start + size < WORD
      modifies this
      ensures ok <==> forall s :: s in old(segs) ==> End(s) <= start || start + size <= s.start
      ensures !ok ==> segs == old(segs)
      ensures ok ==> Added(old(segs), segs, start, size)
      ensures Valid() <==> !ok || size > 0 || Touched(old(segs), start)
    {
      hide Canonical, Bounded, Has, FreeAt, Owned;
      var k := SegsBefore(start);
      ghost var x, y := segs[..k], segs[k..];
      assert segs == x + y;
      RegionFits(x, y, start, size);
      if k > 0 && End(segs[k - 1]) > start { return false; }
      if k < |segs| && segs[k].start < start + size { return false; }
      segs := segs[..k] + [Seg(start, size, 0)] + segs[k..];
      assert segs[..k] == x && segs[k] == Seg(start, size, 0) && segs[k + 1..] == y;
      Merge(k);
      RegionAdded(x, y, start, size);
      ok := true;
    }

    /** The two splits of rman_raw_allocate, and the new owner. */
    method Take(k: nat, start: int, size: int, owner: int) returns (n: int)
      requires k < |segs| && segs[k].owner == 0 && segs[k].start <= start < End(segs[k]) && size > 0
      modifies this
      ensures n == if size < End(old(segs)[k]) - start then size else End(old(segs)[k]) - start
      ensures segs == old(segs)[..k] + Pieces(old(segs)[k], start, n, owner) + old(segs)[k + 1..]
    {
      var i, s := k, segs[k];
      if s.start < start {
        segs := segs[..i] + [Seg(s.start, start - s.start, s.owner), Seg(start, End(s) - start, s.owner)] + segs[i + 1..];
        i := i + 1;
      }
      if segs[i].size > size {
        segs := segs[..i] + [Seg(start, size, s.owner), Seg(start + size, segs[i].size - size, s.owner)] + segs[i + 1..];
      }
      n := segs[i].size;
      segs := segs[i := Seg(start, n, owner)];
    }

    /** rman_raw_allocate: the least aligned address with a free window in the range, or none if there
        is none; a reversed range is served at its start if a free segment reaches around it. */
    method Allocate(q: Request, owner: int) returns (r: Result)
      requires Valid() && IsRequest(q) && owner != 0
      modifies this
      ensures Valid()
      ensures r.Invalid? <==> q.align > 0 && q.start % q.align != 0
      ensures if r.Ok? then Taken(old(segs), segs, r.start, r.size, owner) else segs == old(segs)
      ensures !r.Invalid? && q.start <= q.end ==> (r.NoMemory? <==> forall a :: !Serves(old(segs), q, a))
      ensures r.Ok? && q.start <= q.end ==>
        r.size == SizeOf(q) && Serves(old(segs), q, r.start) && forall a :: Serves(old(segs), q, a) ==> r.start <= a
      ensures r.Ok? && q.start <= q.end ==> r.size == (if q.size == 0 then 1 else q.size) && q.start <= r.start
      ensures r.Ok? && q.start <= q.end ==> r.start + r.size <= q.end && (q.align > 0 ==> r.start % q.align == 0)
      ensures !r.Invalid? && q.end < q.start ==> (r.Ok? <==> Reversed(old(segs), q)) && (r.Ok? ==> r.start == q.start)
      ensures r.Ok? && q.end < q.start ==> CutShort(old(segs), q, r.size)
    {
      hide Canonical, Bounded, Candidate, Multiple, Serves, Window, Reversed, Taken;
      MultipleIs(q.start, q);
      if !Multiple(q.start, AlignOf(q)) { return Invalid; }
      var k := 0;
      while k < |segs|
        invariant k <= |segs| && segs == old(segs) && forall s :: s in segs[..k] ==> Passed(s, q)
      {
        var s := segs[k];
        assert segs[..k + 1] == segs[..k] + [s];
        if End(s) <= q.start {
          k := k + 1;
          continue;
        }
        if s.start >= q.end { break; }
        if s.owner == 0 && Candidate(s, q).Some? {
          var start := Candidate(s, q).value;
          Chosen(segs, k, q);
          ServesIs(segs, q, start);
          var n := Take(k, start, SizeOf(q), owner);
          TakenFacts(old(segs), k, start, n, owner);
          assert s in old(segs);
          return Ok(start, n);
        }
        k := k + 1;
      }
      NoneChosen(segs, k, q);
      r := NoMemory;
    }

    /** rman_raw_free of the resource that owns the segment. */
    method Release(seg: Seg)
      requires Valid() && seg in Owned(segs)
      modifies this
      ensures Valid()
      ensures forall a :: (Has(segs, a) <==> Has(old(segs), a)) && (FreeAt(segs, a) <==> FreeAt(old(segs), a) || Inside(seg, a))
      ensures Owned(segs) == Owned(old(segs)) - {seg}
    {
      hide Canonical, Bounded, Has, FreeAt, Owned;
      OwnedIn(segs, seg);
      OwnedPositive(segs, seg);
      var k := 0;
      while segs[k] != seg
        invariant 0 <= k < |segs| && segs == old(segs) && seg in segs && forall i :: 0 <= i < k ==> segs[i] != seg
        decreases |segs| - k
      {
        k := k + 1;
      }
      ghost var x, y := segs[..k], segs[k + 1..];
      assert segs == x + [seg] + y;
      segs := segs[k := seg.(owner := 0)];
      assert segs[..k] == x && segs[k + 1..] == y;
      Merge(k);
      ReleasedFacts(x, seg, y);
    }

    /** Any run: every operation is answered as the operations before it demand, the addresses covered are
        those of the regions accepted, the owned segments are those handed out and not given back, and once
        nothing is owned the segments are exactly the maximal runs, whatever happened in between. */
    method Run(ops: seq<Op>) returns (regions: seq<Seg>, results: seq<Result>)
      requires Valid() && forall op :: op in ops ==> IsOp(op)
      modifies this
      ensures Valid() && |results| == |ops| && regions == Accepted(old(segs), ops)
      ensures forall k :: 0 <= k < |ops| ==> IsOp(ops[k]) && Answered(old(segs), ops, results, k)
      ensures forall a :: Has(segs, a) <==> Has(old(segs), a) || InRegions(regions, a)
      ensures Owned(segs) == Held(Owned(old(segs)), ops, results)
      ensures Owned(segs) == {} ==> forall a, n :: Seg(a, n, 0) in segs <==> MaximalRun(old(segs), regions, a, n)
    {
      hide Canonical, Bounded, Has, FreeAt, Owned, Serves, Reversed, Multiple, Accepted, Held, Answered, Clear, Taken;
      regions, results := [], [];
      var k := 0;
      RunStarts(segs);
      while k < |ops|
        invariant 0 <= k <= |ops| && |results| == k && Valid() && regions == Accepted(old(segs), ops[..k])
        invariant forall a :: Has(segs, a) <==> Has(old(segs), a) || InRegions(regions, a)
        invariant Owned(segs) == Held(Owned(old(segs)), ops[..k], results)
        invariant forall j :: 0 <= j < k ==> IsOp(ops[j]) && Answered(old(segs), ops, results, j)
      {
        assert ops[k] in ops;
        var r := Perform(old(segs), ops[k], regions);
        RunStep(old(segs), ops, results, k, r);
        if ops[k].Add? && r.Ok? { regions := regions + [Seg(ops[k].start, ops[k].size, 0)]; }
        results := results + [r];
        k := k + 1;
      }
      assert ops[..k] == ops;
      if Owned(segs) == {} {
        forall a, n ensures Seg(a, n, 0) in segs <==> MaximalRun(old(segs), regions, a, n) { MaximalRuns(segs, a, n); }
      }
    }

    /** One operation of a run that started with `first` and has added `regions`. */
    method Perform(ghost first: seq<Seg>, op: Op, ghost regions: seq<Seg>) returns (r: Result)
      requires Valid() && IsOp(op) && forall a :: Has(segs, a) <==> Has(first, a) || InRegions(regions, a)
      modifies this
      ensures Valid() && Replies(first, regions, Owned(old(segs)), op, r)
      ensures Owned(segs) == HeldAfter(Owned(old(segs)), op, r)
      ensures forall a :: Has(segs, a) <==> Has(first, a) || InRegions(AcceptedAfter(first, regions, op), a)
    {
      hide Canonical, Bounded, Has, FreeAt, Owned, Serves, Reversed, Multiple, Taken, CutShort;
      match op {
        case Add(start, size) =>
          ClearIsApart(segs, first, regions, start, size);
          RegionsGrow(regions, Seg(start, size, 0));
          var ok := AddRegion(start, size);
          r := if ok then Ok(start, size) else Invalid;
        case Ask(q, owner) =>
          r := Allocate(q, owner);
          AllocateAnswers(old(segs), q, r);
          UnheldIsFree(old(segs), first, regions);
          TakenKeeps(old(segs), segs, r, owner);
        case Give(seg) =>
          OwnedIn(segs, seg);
          r := Invalid;
          if seg in segs && seg.owner != 0 {
            Release(seg);
            r := Ok(seg.start, seg.size);
          } else {
            NotOwned(segs, seg);
          }
      }
    }

    /** Giving back what was just allocated restores the list, in whatever state it was. */
    method AllocateThenRelease(q: Request, owner: int) returns (r: Result)
      requires Valid() && IsRequest(q) && owner != 0
      modifies this
      ensures Valid() && segs == old(segs)
    {
      r := Allocate(q, owner);
      if r.Ok? {
        Release(Seg(r.start, r.size, owner));
        Determined(segs, old(segs));
      }
    }
  }

  lemma RegionsGrow(regions: seq<Seg>, g: Seg)
    ensures forall a :: InRegions(regions + [g], a) <==> InRegions(regions, a) || Inside(g, a)
  {
    assert forall h :: h in regions + [g] <==> h in regions || h == g;
  }

  // ---- runs ----

  lemma RunStarts(segs: seq<Seg>)
    ensures Accepted(segs, []) == [] && Held(Owned(segs), [], []) == Owned(segs) && forall a :: !InRegions([], a)
  {
  }

  lemma RunStep(segs: seq<Seg>, ops: seq<Op>, results: seq<Result>, k: nat, r: Result)
    requires k < |ops| && |results| == k && forall j :: 0 <= j <= k ==> IsOp(ops[j])
    requires forall j :: 0 <= j < k ==> Answered(segs, ops, results, j)
    requires Replies(segs, Accepted(segs, ops[..k]), Held(Owned(segs), ops[..k], results), ops[k], r)
    ensures Accepted(segs, ops[..k + 1]) == AcceptedAfter(segs, Accepted(segs, ops[..k]), ops[k])
    ensures Held(Owned(segs), ops[..k + 1], results + [r]) == HeldAfter(Held(Owned(segs), ops[..k], results), ops[k], r)
    ensures forall j :: 0 <= j <= k ==> Answered(segs, ops, results + [r], j)
  {
    hide Replies, AcceptedAfter, HeldAfter, Owned;
    assert ops[..k + 1][..k] == ops[..k] && (results + [r])[..k] == results;
    forall j | 0 <= j <= k ensures Answered(segs, ops, results + [r], j) {
      assert (results + [r])[..j] == results[..j];
      if j < k {
        assert Answered(segs, ops, results, j);
      } else {
        assert results[..k] == results;
      }
    }
  }

  /** On a canonical list coverage alone decides whether a region overlaps. */
  lemma ClearIsApart(segs: seq<Seg>, first: seq<Seg>, regions: seq<Seg>, start: int, size: int)
    requires Canonical(segs) && size > 0 && forall a :: Has(segs, a) <==> Has(first, a) || InRegions(regions, a)
    ensures Clear(first, regions, start, size) <==> forall s :: s in segs ==> End(s) <= start || start + size <= s.start
  {
    hide InRegions, Canonical;
    if Clear(first, regions, start, size) {
      forall s | s in segs ensures End(s) <= start || start + size <= s.start {
        SizePositive(segs, s);
        var a := if s.start <= start then start else s.start;
        assert start <= a < start + size ==> !Has(segs, a);
        assert Inside(s, a) ==> Has(segs, a);
      }
    } else {
      var a :| start <= a < start + size && Has(segs, a);
      var s :| s in segs && Inside(s, a);
    }
  }

  /** On a canonical list the free addresses are the covered ones that no owned segment has. */
  lemma FreeIsUnowned(segs: seq<Seg>, a: int)
    requires Canonical(segs)
    ensures FreeAt(segs, a) <==> Has(segs, a) && forall s :: s in Owned(segs) ==> !Inside(s, a)
  {
    if FreeAt(segs, a) {
      var s :| s in segs && s.owner == 0 && Inside(s, a);
      var i := SegIndex(segs, s);
      forall t | t in Owned(segs) ensures !Inside(t, a) {
        var j := SegIndex(segs, t);
        assert i < j ==> End(segs[i]) <= segs[j].start;
        assert j < i ==> End(segs[j]) <= segs[i].start;
      }
    } else if Has(segs, a) {
      var s :| s in segs && Inside(s, a);
      assert s in Owned(segs);
    }
  }

  ghost function FreeSet(segs: seq<Seg>): iset<int> { iset a | FreeAt(segs, a) }

  lemma UnheldIsFree(segs: seq<Seg>, first: seq<Seg>, regions: seq<Seg>)
    requires Canonical(segs) && forall a :: Has(segs, a) <==> Has(first, a) || InRegions(regions, a)
    ensures Unheld(first, regions, Owned(segs)) == FreeSet(segs)
  {
    hide Canonical, Has, FreeAt, Owned, InRegions;
    forall a ensures a in Unheld(first, regions, Owned(segs)) <==> a in FreeSet(segs) { FreeIsUnowned(segs, a); }
  }

  lemma TakenKeeps(segs: seq<Seg>, segs': seq<Seg>, r: Result, owner: int)
    requires if r.Ok? then Taken(segs, segs', r.start, r.size, owner) else segs' == segs
    ensures forall a :: Has(segs', a) <==> Has(segs, a)
    ensures Owned(segs') == if r.Ok? then Owned(segs) + {Seg(r.start, r.size, owner)} else Owned(segs)
  {
  }

  lemma NotOwned(segs: seq<Seg>, s: Seg)
    ensures s.owner == 0 ==> s !in Owned(segs)
  {
  }

  lemma ServesIsServing(segs: seq<Seg>, q: Request, a: int)
    requires IsRequest(q)
    ensures Serves(segs, q, a) <==> Serving(FreeSet(segs), q, a)
  {
    hide Multiple, FreeAt;
    assert forall b :: b in FreeSet(segs) <==> FreeAt(segs, b);
  }

  /** What rman_raw_allocate promises in terms of segments is the right answer in terms of addresses. */
  lemma AllocateAnswers(segs: seq<Seg>, q: Request, r: Result)
    requires Canonical(segs) && Bounded(segs) && IsRequest(q)
    requires r.Invalid? <==> q.align > 0 && q.start % q.align != 0
    requires !r.Invalid? && q.start <= q.end ==> (r.NoMemory? <==> forall a :: !Serves(segs, q, a))
    requires r.Ok? && q.start <= q.end ==>
      r.size == SizeOf(q) && Serves(segs, q, r.start) && forall a :: Serves(segs, q, a) ==> r.start <= a
    requires !r.Invalid? && q.end < q.start ==> (r.Ok? <==> Reversed(segs, q)) && (r.Ok? ==> r.start == q.start)
    requires r.Ok? && q.end < q.start ==> CutShort(segs, q, r.size)
    ensures Answers(FreeSet(segs), q, r)
  {
    hide Canonical, Bounded, Multiple, Serves, Serving, Reversed, CutShort, FreeSet, AlignOf;
    if q.start <= q.end {
      if r.Ok? { ServesIs(segs, q, r.start); }
      forall a ensures Serves(segs, q, a) <==> Serving(FreeSet(segs), q, a) { ServesIsServing(segs, q, a); }
    } else {
      ReversedIsAllFree(segs, q);
      if r.Ok? { CutShortEnds(segs, q, r.size); }
    }
  }

  lemma ReversedIsAllFree(segs: seq<Seg>, q: Request)
    requires Canonical(segs) && IsRequest(q) && q.end < q.start
    ensures Reversed(segs, q) <==>
      SizeOf(q) <= WORD - (q.start - q.end) && AllIn(FreeSet(segs), q.end - 1, q.start - q.end + 2)
  {
    hide Canonical;
    var a, n := q.end - 1, q.start - q.end + 2;
    if AllIn(FreeSet(segs), a, n) {
      assert forall b :: b in FreeSet(segs) ==> FreeAt(segs, b);
      var i := WindowInOne(segs, a, n);
      assert segs[i] in segs;
    }
    if exists s :: s in segs && s.owner == 0 && s.start < q.end && q.start < End(s) {
      var s :| s in segs && s.owner == 0 && s.start < q.end && q.start < End(s);
      assert forall b :: a <= b < a + n ==> Inside(s, b);
    }
  }

  lemma CutShortEnds(segs: seq<Seg>, q: Request, n: int)
    requires Canonical(segs) && IsRequest(q) && CutShort(segs, q, n)
    ensures 0 < n <= SizeOf(q) && AllIn(FreeSet(segs), q.start, n)
    ensures n == SizeOf(q) || q.start + n !in FreeSet(segs)
  {
    hide Canonical;
    var s :| s in segs && s.owner == 0 && Inside(s, q.start) &&
      n == if SizeOf(q) < End(s) - q.start then SizeOf(q) else End(s) - q.start;
    var i := SegIndex(segs, s);
    FreeRunEnds(segs, i);
    assert forall b :: q.start <= b < q.start + n ==> Inside(s, b);
  }

  /** There is only one right answer. */
  lemma AnswersUnique(free: iset<int>, q: Request, r: Result, r': Result)
    requires IsRequest(q) && Answers(free, q, r) && Answers(free, q, r')
    ensures r == r'
  {
    hide Multiple, Serving;
    if r.Ok? && r'.Ok? && q.end < q.start {
      CutUnique(free, q.start, SizeOf(q), r.size, r'.size);
    }
  }

  lemma CutUnique(free: iset<int>, a: int, size: int, n: int, n': int)
    requires 0 < n <= size && AllIn(free, a, n) && (n == size || a + n !in free)
    requires 0 < n' <= size && AllIn(free, a, n') && (n' == size || a + n' !in free)
    ensures n == n'
  {
  }

  /** The operations alone determine every reply, and with them the segments held. */
  lemma {:induction false} RepliesDetermined(segs: seq<Seg>, ops: seq<Op>,
                                             results: seq<Result>, results': seq<Result>, k: nat)
    requires k <= |ops| == |results| == |results'| && forall op :: op in ops ==> IsOp(op)
    requires forall j :: 0 <= j < |ops| ==>
      IsOp(ops[j]) && Answered(segs, ops, results, j) && Answered(segs, ops, results', j)
    ensures results[..k] == results'[..k]
  {
    hide Answers, Clear, Unheld, Accepted, Held, Owned;
    if k > 0 {
      RepliesDetermined(segs, ops, results, results', k - 1);
      var regions, held := Accepted(segs, ops[..k - 1]), Held(Owned(segs), ops[..k - 1], results[..k - 1]);
      assert Answered(segs, ops, results, k - 1) && Answered(segs, ops, results', k - 1);
      if ops[k - 1].Ask? {
        AnswersUnique(Unheld(segs, regions, held), ops[k - 1].q, results[k - 1], results'[k - 1]);
      }
      assert results[..k] == results[..k - 1] + [results[k - 1]] && results'[..k] == results'[..k - 1] + [results'[k - 1]];
    }
  }

  /** What a run covers and holds determines the whole list. */
  lemma ListDetermined(u: seq<Seg>, v: seq<Seg>)
    requires Canonical(u) && Canonical(v) && Owned(u) == Owned(v) && forall a :: Has(u, a) <==> Has(v, a)
    ensures u == v
  {
    hide Canonical, Has, FreeAt, Owned;
    forall a ensures FreeAt(u, a) <==> FreeAt(v, a) {
      FreeIsUnowned(u, a);
      FreeIsUnowned(v, a);
    }
    Determined(u, v);
  }

  /** The region's addresses are added to the free ones. */
  ghost predicate Added(segs: seq<Seg>, segs': seq<Seg>, start: int, size: int) {
    && (forall a :: (Has(segs', a) <==> Has(segs, a) || start <= a < start + size) &&
                    (FreeAt(segs', a) <==> FreeAt(segs, a) || start <= a < start + size))
    && Owned(segs') == Owned(segs)
  }

  ghost predicate Touched(segs: seq<Seg>, start: int) {
    exists s :: s in segs && s.owner == 0 && (End(s) == start || s.start == start)
  }

  /** A segment that the search goes past. */
  predicate Passed(s: Seg, q: Request)
    requires IsRequest(q)
  {
    s.owner != 0 || End(s) <= q.start || s.start >= q.end || Candidate(s, q).None?
  }

  lemma StartsRise(segs: seq<Seg>, k: nat, addr: int)
    requires Canonical(segs) && k <= |segs| && (k < |segs| ==> segs[k].start >= addr)
    ensures forall s :: s in segs[k..] ==> s.start >= addr
  {
    forall i | k <= i < |segs| ensures segs[i].start >= addr {
      assert segs[k] in segs;
      assert k < i ==> End(segs[k]) <= segs[i].start;
    }
  }

  // ---- adding a region ----

  lemma EndsRise(x: seq<Seg>, s: Seg)
    requires Canonical(x) && s in x
    ensures s == x[|x| - 1] || End(s) < End(x[|x| - 1])
    ensures s == x[0] || x[0].start < s.start
  {
    var i := SegIndex(x, s);
    assert x[|x| - 1] in x && x[0] in x;
    assert i < |x| - 1 ==> End(x[i]) <= x[|x| - 1].start;
    assert 0 < i ==> End(x[0]) <= x[i].start;
  }

  /** The two overlap tests look at the neighbours only, and see every overlap. */
  lemma RegionFits(x: seq<Seg>, y: seq<Seg>, start: int, size: int)
    requires Canonical(x + y) && size >= 0
    requires (forall s :: s in x ==> s.start < start) && (forall s :: s in y ==> s.start >= start)
    ensures var overlaps := (x != [] && End(x[|x| - 1]) > start) || (y != [] && y[0].start < start + size);
      && (!overlaps <==> forall s :: s in x + y ==> End(s) <= start || start + size <= s.start)
      && (!overlaps ==> Loose(x, Seg(start, size, 0), y))
  {
    hide Canonical, Seam;
    CanonicalConcat(x, y);
    var overlaps := (x != [] && End(x[|x| - 1]) > start) || (y != [] && y[0].start < start + size);
    if overlaps {
      if x != [] && End(x[|x| - 1]) > start {
        assert x[|x| - 1] in x + y;
      } else {
        assert y[0] in x + y;
        SizePositive(y, y[0]);
      }
    } else {
      forall s | s in x ensures End(s) <= start { EndsRise(x, s); }
      forall s | s in y ensures start + size <= s.start { EndsRise(y, s); }
    }
  }

  lemma SizePositive(x: seq<Seg>, s: Seg)
    requires Canonical(x) && s in x
    ensures s.size > 0
  {
  }

  lemma RegionAdded(x: seq<Seg>, y: seq<Seg>, start: int, size: int)
    requires Canonical(x + y) && Bounded(x + y) && Loose(x, Seg(start, size, 0), y)
    requires 0 <= start && 0 <= size && start + size < WORD && (forall s :: s in x ==> s.start < start)
    ensures var m := Merged(x, Seg(start, size, 0), y);
      Added(x + y, m, start, size) && (Canonical(m) && Bounded(m) <==> size > 0 || Touched(x + y, start))
  {
    hide Canonical, Has, FreeAt, Owned, Seam, Before, Merged;
    var s := Seg(start, size, 0);
    var m := Merged(x, s, y);
    MergedFacts(x, s, y);
    MergedBounded(x, s, y);
    forall a ensures (Has(m, a) <==> Has(x + y, a) || start <= a < start + size) &&
                     (FreeAt(m, a) <==> FreeAt(x + y, a) || start <= a < start + size) {
      HasConcat(x + [s], y, a);
      HasConcat(x, [s], a);
      HasConcat(x, y, a);
      HasOne(s, a);
    }
    HasConcat(x + [s], y, 0);
    HasConcat(x, [s], 0);
    HasConcat(x, y, 0);
    HasOne(s, 0);
    TouchedJoins(x, y, start, size);
  }

  lemma TouchedJoins(x: seq<Seg>, y: seq<Seg>, start: int, size: int)
    requires Loose(x, Seg(start, size, 0), y) && size >= 0 && forall s :: s in x ==> s.start < start
    ensures JoinsPrev(x, Seg(start, size, 0)) ==> Touched(x + y, start)
    ensures size == 0 ==> (Touched(x + y, start) <==> JoinsPrev(x, Seg(start, size, 0)) || JoinsNext(Seg(start, size, 0), y))
  {
    hide Canonical, Seam;
    var m := Seg(start, size, 0);
    assert m in [m];
    if JoinsPrev(x, m) { assert x[|x| - 1] in x + y; }
    if JoinsNext(m, y) { assert y[0] in x + y; }
    if size == 0 && Touched(x + y, start) {
      var s :| s in x + y && s.owner == 0 && (End(s) == start || s.start == start);
      if s in x {
        EndsRise(x, s);
      } else {
        EndsRise(y, s);
        SizePositive(y, s);
      }
    }
  }

  lemma MergedBounded(x: seq<Seg>, s: Seg, y: seq<Seg>)
    requires Bounded(x + y) && 0 <= s.start && End(s) < WORD && s.size >= 0
    ensures Bounded(Merged(x, s, y))
  {
    assert forall t :: t in x || t in y ==> t in x + y;
    assert x == [] || x[|x| - 1] in x;
    assert y == [] || y[0] in y;
    var (x', s') := MergePrev(x, s);
    var (s'', y') := MergeNext(s', y);
    assert 0 <= s''.start && End(s'') < WORD;
    assert forall t :: t in x' ==> t in x;
    assert forall t :: t in y' ==> t in y;
    assert forall t :: t in Merged(x, s, y) ==> t in x' || t == s'' || t in y';
  }

  // ---- allocating ----

  /** A fitting address of a segment serves the request, and every serving address fits some segment. */
  lemma FitsServes(segs: seq<Seg>, k: nat, q: Request, a: int)
    requires k < |segs| && segs[k].owner == 0 && IsRequest(q) && Fits(segs[k], q, a)
    ensures Serves(segs, q, a)
  {
    hide Multiple;
    forall b | a <= b < a + SizeOf(q) ensures FreeAt(segs, b) { assert segs[k] in segs && Inside(segs[k], b); }
  }

  lemma ServesIs(segs: seq<Seg>, q: Request, a: int)
    requires IsRequest(q)
    ensures Serves(segs, q, a) ==> q.start <= a && a + SizeOf(q) <= q.end && (q.align == 0 || a % q.align == 0)
    ensures SizeOf(q) == if q.size == 0 then 1 else q.size
  {
    MultipleIs(a, q);
  }

  lemma ServesFits(segs: seq<Seg>, q: Request, a: int) returns (i: nat)
    requires Canonical(segs) && IsRequest(q) && Serves(segs, q, a)
    ensures i < |segs| && segs[i].owner == 0 && Fits(segs[i], q, a)
  {
    hide Canonical, Multiple, Window;
    i := WindowInOne(segs, a, SizeOf(q));
  }

  /** No address of a segment that was passed serves the request. */
  lemma PassedNotFits(s: Seg, q: Request, a: int)
    requires IsRequest(q) && q.start <= q.end && s.owner == 0 && Passed(s, q) && 0 <= s.start && End(s) < WORD
    ensures !Fits(s, q, a)
  {
    hide Candidate, Multiple;
    if End(s) > q.start && s.start < q.end { CandidateLeast(s, q, a); }
  }

  lemma Chosen(segs: seq<Seg>, k: nat, q: Request)
    requires Canonical(segs) && Bounded(segs) && IsRequest(q) && Multiple(q.start, AlignOf(q)) && k < |segs|
    requires forall s :: s in segs[..k] ==> Passed(s, q)
    requires segs[k].owner == 0 && End(segs[k]) > q.start && segs[k].start < q.end && Candidate(segs[k], q).Some?
    ensures var s := segs[k]; var c := Candidate(s, q).value;
      && s.start <= c < End(s)
      && (q.start <= q.end ==> c + SizeOf(q) <= End(s) && Serves(segs, q, c) && forall a :: Serves(segs, q, a) ==> c <= a)
      && (q.end < q.start ==> Reversed(segs, q) && c == q.start)
  {
    hide Canonical, Candidate, Multiple, Serves;
    var s := segs[k];
    var c := Candidate(s, q).value;
    assert s in segs;
    if q.start <= q.end {
      CandidateLeast(s, q, c);
      FitsServes(segs, k, q, c);
      forall a | Serves(segs, q, a) ensures c <= a {
        var i := ServesFits(segs, q, a);
        assert segs[i] in segs;
        if i < k {
          assert segs[i] == segs[..k][i];
          PassedNotFits(segs[i], q, a);
        } else if i == k {
          CandidateLeast(s, q, a);
        } else {
          EndBefore(segs, k, i);
        }
      }
    } else {
      CandidateReversed(s, q);
    }
  }

  lemma EndBefore(segs: seq<Seg>, i: nat, j: nat)
    requires Canonical(segs) && i < j < |segs|
    ensures End(segs[i]) <= segs[j].start && segs[i].start < segs[j].start
  {
    assert segs[i] in segs;
  }

  lemma NoneChosen(segs: seq<Seg>, k: nat, q: Request)
    requires Canonical(segs) && Bounded(segs) && IsRequest(q) && Multiple(q.start, AlignOf(q)) && k <= |segs|
    requires (forall s :: s in segs[..k] ==> Passed(s, q)) && (k < |segs| ==> segs[k].start >= q.end)
    ensures q.start <= q.end ==> forall a :: !Serves(segs, q, a)
    ensures q.end < q.start ==> !Reversed(segs, q)
  {
    hide Canonical, Candidate, Multiple, Serves;
    forall i | 0 <= i < |segs| ensures Passed(segs[i], q) {
      if i < k { assert segs[..k][i] == segs[i]; }
      if k < i { EndBefore(segs, k, i); }
    }
    if q.start <= q.end {
      forall a ensures !Serves(segs, q, a) {
        if Serves(segs, q, a) {
          var i := ServesFits(segs, q, a);
          assert segs[i] in segs;
          PassedNotFits(segs[i], q, a);
        }
      }
    } else {
      forall s | s in segs && s.owner == 0 && s.start < q.end && q.start < End(s)
        ensures SizeOf(q) > WORD - (q.start - q.end)
      {
        CandidateReversed(s, q);
      }
    }
  }

  lemma TakenFacts(segs: seq<Seg>, k: nat, a: int, n: int, owner: int)
    requires Canonical(segs) && Bounded(segs) && k < |segs| && segs[k].owner == 0 && owner != 0
    requires segs[k].start <= a && n > 0 && a + n <= End(segs[k])
    ensures var segs' := segs[..k] + Pieces(segs[k], a, n, owner) + segs[k + 1..];
      Canonical(segs') && Bounded(segs') && Taken(segs, segs', a, n, owner)
  {
    hide Canonical, Has, FreeAt, Owned, Pieces;
    var x, s, y := segs[..k], segs[k], segs[k + 1..];
    var p := Pieces(s, a, n, owner);
    assert segs == x + [s] + y;
    PiecesOrder(x, s, y, a, n, owner);
    PiecesBounded(x, s, y, a, n, owner);
    DisjointFrom(x, s, y);
    forall b ensures (Has(x + p + y, b) <==> Has(segs, b)) && (FreeAt(x + p + y, b) <==> FreeAt(segs, b) && !(a <= b < a + n))
      ensures a <= b < a + n ==> FreeAt(segs, b)
    {
      HasConcat(x + p, y, b);
      HasConcat(x, p, b);
      HasConcat(x + [s], y, b);
      HasConcat(x, [s], b);
      HasOne(s, b);
      PiecesCover(s, a, n, owner, b);
    }
    HasConcat(x + p, y, a);
    HasConcat(x, p, a);
    HasConcat(x + [s], y, a);
    HasConcat(x, [s], a);
    HasOne(s, a);
    PiecesCover(s, a, n, owner, a);
    if Seg(a, n, owner) in Owned(segs) { OwnedHas(x, y, Seg(a, n, owner)); }
  }

  /** No other segment has an address of this one. */
  lemma DisjointFrom(x: seq<Seg>, s: Seg, y: seq<Seg>)
    requires Canonical(x + [s] + y)
    ensures forall b :: Inside(s, b) ==> !Has(x, b) && !Has(y, b) && !FreeAt(x, b) && !FreeAt(y, b)
  {
    hide Seam;
    CanonicalConcat(x + [s], y);
    CanonicalConcat(x, [s]);
    BeforeConcat(x, [s], y);
    assert s in [s];
  }

  lemma OwnedHas(x: seq<Seg>, y: seq<Seg>, s: Seg)
    ensures s in Owned(x) && s.size > 0 ==> Has(x, s.start)
    ensures s in Owned(y) && s.size > 0 ==> Has(y, s.start)
  {
    assert s.size > 0 ==> Inside(s, s.start);
  }

  lemma PiecesBounded(x: seq<Seg>, s: Seg, y: seq<Seg>, a: int, n: int, owner: int)
    requires Bounded(x + [s] + y) && s.start <= a && n > 0 && a + n <= End(s)
    ensures Bounded(x + Pieces(s, a, n, owner) + y)
  {
    var p := Pieces(s, a, n, owner);
    assert s in x + [s] + y;
    assert forall t :: t in p ==> 0 <= t.start && End(t) < WORD;
    assert forall t :: t in x || t in y ==> t in x + [s] + y;
  }

  // ---- releasing ----

  lemma OwnedPositive(segs: seq<Seg>, s: Seg)
    requires Canonical(segs) && Bounded(segs) && s in Owned(segs)
    ensures s in segs && s.owner != 0 && s.size > 0 && 0 <= s.start && End(s) < WORD
  {
  }

  lemma ReleasedFacts(x: seq<Seg>, s: Seg, y: seq<Seg>)
    requires Canonical(x + [s] + y) && Bounded(x + [s] + y) && s.owner != 0 && s.size > 0
    ensures var m := Merged(x, s.(owner := 0), y); var segs := x + [s] + y;
      && Canonical(m) && Bounded(m) && Owned(m) == Owned(segs) - {s}
      && forall a :: (Has(m, a) <==> Has(segs, a)) && (FreeAt(m, a) <==> FreeAt(segs, a) || Inside(s, a))
  {
    hide Canonical, Has, FreeAt, Owned, Seam, Merged;
    var f := s.(owner := 0);
    CanonicalConcat(x + [s], y);
    CanonicalConcat(x, [s]);
    BeforeConcat(x, [s], y);
    BeforeSameStart(x, s, f);
    BeforeSameEnd(s, f, y);
    MergedFacts(x, f, y);
    assert s in x + [s] + y;
    assert forall t :: t in x + y ==> t in x + [s] + y;
    MergedBounded(x, f, y);
    DisjointFrom(x, s, y);
    forall a ensures (Has(x + [f] + y, a) <==> Has(x + [s] + y, a)) &&
                     (FreeAt(x + [f] + y, a) <==> FreeAt(x + [s] + y, a) || Inside(s, a)) {
      HasConcat(x + [f], y, a);
      HasConcat(x, [f], a);
      HasConcat(x + [s], y, a);
      HasConcat(x, [s], a);
      HasOne(s, a);
      HasOne(f, a);
    }
    HasConcat(x + [f], y, 0);
    HasConcat(x, [f], 0);
    HasConcat(x + [s], y, 0);
    HasConcat(x, [s], 0);
    HasOne(s, 0);
    HasOne(f, 0);
    OwnedHas(x, y, s);
    assert Inside(s, s.start);
  }

  /** A request from 8 to 4 gets two addresses instead of four, outside the range it named. */
  method ReversedExample() returns (r: Result)
    ensures r == Ok(8, 2)
  {
    hide Serves, Taken, Has, FreeAt, Owned, Multiple, Canonical, Bounded;
    var m := new Manager();
    var ok := m.AddRegion(0, 10);
    OneRegion(m.segs);
    var q := Request(8, 4, 4, 0);
    AnyAligned(8);
    assert Seg(0, 10, 0) in m.segs;
    r := m.Allocate(q, 1);
  }

  lemma OneRegion(segs: seq<Seg>)
    requires Canonical(segs) && Added([], segs, 0, 10)
    ensures segs == [Seg(0, 10, 0)]
  {
    hide Canonical, Has, FreeAt, Owned;
    var one := [Seg(0, 10, 0)];
    forall a ensures (Has(segs, a) <==> Has(one, a)) && (FreeAt(segs, a) <==> FreeAt(one, a)) {
      HasOne(one[0], a);
      NoneHas(a);
    }
    HasOne(one[0], 0);
    NoneHas(0);
    Determined(segs, one);
  }

  lemma NoneHas(a: int)
    ensures !Has([], a) && !FreeAt([], a) && Owned([]) == {}
  {
  }

  lemma AnyAligned(a: int)
    ensures Multiple(a, 1)
  {
  }
}
