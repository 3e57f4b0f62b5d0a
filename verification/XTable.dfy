/** The xarray as its users see it: a finite map from indices to non-null values, with the
    indices that allocation can see to be free. */
module XTable {
  import opened Arithmetic
  import opened XEntries
  import opened XUpdate
  import opened XArray

  // ---- the finite map ----

  ghost function Contents(root: Entry): map<int, int> {
    map i | 0 <= i < Size(root) && Lookup(root, i) != 0 :: Lookup(root, i)
  }

  ghost function ValueAt(m: map<int, int>, i: int): int { if i in m then m[i] else 0 }

  ghost function Updated(m: map<int, int>, i: int, v: int): map<int, int> { if v == 0 then m - {i} else m[i := v] }

  lemma ContentsAt(root: Entry, i: int)
    ensures ValueAt(Contents(root), i) == Lookup(root, i)
    ensures i in Contents(root) <==> Lookup(root, i) != 0
  {
  }

  ghost predicate Changed(root: Entry, root': Entry, i: int, v: int) {
    forall j :: j >= 0 ==> Lookup(root', j) == if j == i then v else Lookup(root, j)
  }

  lemma ContentsChanged(root: Entry, root': Entry, i: int, v: int)
    requires Changed(root, root', i, v) && i >= 0
    ensures Contents(root') == Updated(Contents(root), i, v)
  {
    hide Size;
    forall j ensures ValueAt(Contents(root'), j) == ValueAt(Updated(Contents(root), i, v), j)
      ensures j in Contents(root') <==> j in Updated(Contents(root), i, v)
    {
      ContentsAt(root, j);
      ContentsAt(root', j);
    }
    assert forall j :: j in Contents(root') ==> Contents(root')[j] == ValueAt(Contents(root'), j);
  }

  // ---- growth ----

  /** The least depth that reaches an index, not below t. */
  function DepthFor(i: nat, t: nat): (d: nat)
    ensures d >= t && i < Span(d) && (d > t ==> i >= Span(d - 1))
    decreases if i >= Span(t) then i - Span(t) + 1 else 0
  {
    if i < Span(t) then t else DepthFor(i, t + 1)
  }

  /** The depth of the block that a store closes: the absent subtree on its path, less one level. */
  function HidesAt(root: Entry, i: nat): nat
    requires WFRoot(root)
  {
    if i < Size(root) then Hides(root, Depth(root), i)
    else var d := DepthFor(i, 0); if d >= 2 then d - 2 else 0
  }

  predicate Block(b: nat, i: int, j: int) { i / Span(b) == j / Span(b) }

  /** Same contents, same free indices. */
  ghost predicate SameView(root: Entry, root': Entry) {
    forall j :: j >= 0 ==> Lookup(root', j) == Lookup(root, j) && (Free(root', j) <==> Free(root, j))
  }

  /** New roots above the old one up to a depth; only the first can have its bit set. */
  function Grown(root: Entry, d: nat, full: bool): Entry
    decreases d - Depth(root)
  {
    if Depth(root) >= d then root else Grown(Wrap(root, full), d, false)
  }

  lemma {:induction false} GrownShape(root: Entry, d: nat, full: bool)
    requires WFRoot(root) && Depth(root) <= d
    ensures WFRoot(Grown(root, d, full)) && Depth(Grown(root, d, full)) == d
    decreases d - Depth(root)
  {
    hide WF;
    if Depth(root) < d {
      WrapShape(root, full);
      GrownShape(Wrap(root, full), d, false);
    }
  }

  /** The root that a store leaves. */
  function Stored(root: Entry, i: nat, v: int): Entry
    requires WFRoot(root)
  {
    if i < Size(root) then Put(root, Depth(root), i, v)
    else if v == 0 then root
    else
      var d := DepthFor(i, 0);
      DepthAbove(i, Depth(root));
      GrownShape(root, d, FullRoot(root));
      Put(Grown(root, d, FullRoot(root)), d, i, v)
  }

  method Grow(root: Entry, index: nat) returns (root': Entry)
    requires WFRoot(root) && index >= Size(root)
    ensures root' == Grown(root, DepthFor(index, 0), FullRoot(root)) && Depth(root') == DepthFor(index, 0)
    ensures WFRoot(root') && index < Size(root') && SameView(root, root')
    ensures Hides(root', Depth(root'), index) == HidesAt(root, index)
  {
    hide WF, Lookup, Free;
    var full := FullRoot(root);
    if full { FullRootClosed(root); }
    var current := Depth(root);
    var target: nat := 0;
    while index >= Span(target)
      invariant DepthFor(index, target) == DepthFor(index, 0)
      decreases DepthFor(index, 0) - target
    {
      target := target + 1;
    }
    DepthAbove(index, current);
    root' := root;
    while current < target
      invariant current <= target && current == Depth(root') && WFRoot(root') && SameView(root, root')
      invariant full ==> NoneOpen(root')
      invariant Grown(root', target, full) == Grown(root, target, FullRoot(root))
      invariant current > Depth(root) ==> root'.Node? && forall k :: 1 <= k < |root'.kids| ==> root'.kids[k] == Null
    {
      WrapView(root', full);
      root' := Wrap(root', full);
      full := false;
      current := current + 1;
    }
    GapOfGrown(root', index);
  }

  lemma DepthAbove(index: nat, c: nat)
    requires index >= Span(c)
    ensures DepthFor(index, 0) > c
  {
    if DepthFor(index, 0) <= c { SpanMono(DepthFor(index, 0), c); }
  }

  lemma WrapView(root: Entry, full: bool)
    requires WFRoot(root) && (full ==> NoneOpen(root))
    ensures SameView(root, Wrap(root, full)) && WFRoot(Wrap(root, full))
    ensures forall k :: 1 <= k < SLOTS ==> Wrap(root, full).kids[k] == Null
  {
    hide WF, Lookup, Free;
    WrapShape(root, full);
    forall j | j >= 0
      ensures Lookup(Wrap(root, full), j) == Lookup(root, j) && (Free(Wrap(root, full), j) <==> Free(root, j))
    {
      WrapFacts(root, full, j);
    }
  }

  lemma GapOfGrown(root: Entry, i: nat)
    requires WFRoot(root) && root.Node? && i < Size(root) && i >= Span(Depth(root) - 1)
    requires forall k :: 1 <= k < |root.kids| ==> root.kids[k] == Null
    ensures Gap(root, Depth(root), i) == Depth(root) - 1
  {
    BeyondFirst(Depth(root), i);
  }

  lemma BlockInside(d: nat, b: nat, i: int, j: int)
    requires b <= d && 0 <= i < Span(d) <= j
    ensures !Block(b, i, j)
  {
    hide Span;
    SpanSum(d - b, b);
    DivBelow(i, Span(d - b), Span(b));
    DivAbove(j, Span(d - b), Span(b));
  }

  lemma StoreView(root: Entry, i: int, v: int, root': Entry)
    requires WFRoot(root) && 0 <= i < Size(root) && root' == Put(root, Depth(root), i, v)
    ensures WFRoot(root') && Changed(root, root', i, v)
    ensures v == 0 && Sound(root) ==> Sound(root')
    ensures v != 0 ==> var b := Hides(root, Depth(root), i);
      forall j :: j >= 0 ==> (Free(root', j) <==> Free(root, j) && !Block(b, i, j))
  {
    hide WF, Put, At, Hidden, Span;
    var d := Depth(root);
    PutShape(root, d, i, v);
    PutDepth(root, i, v);
    forall j | 0 <= j < Size(root) ensures At(root', d, j) == if j == i then v else At(root, d, j) {
      PutAt(root, d, i, v, j);
    }
    if v != 0 {
      var b := Hides(root, d, i);
      forall j | j >= 0 ensures Free(root', j) <==> Free(root, j) && !Block(b, i, j) {
        if j < Size(root) {
          PutOpen(root, d, i, v, j);
          BlockIsQuotient(d, b, i, j);
        } else {
          BlockInside(d, b, i, j);
        }
      }
    } else if Sound(root) {
      forall j | j >= 0 && Lookup(root', j) == 0 ensures Free(root', j) {
        if j < Size(root) {
          ClearOpen(root, d, i, j);
          assert j != i ==> Lookup(root, j) == 0;
        }
      }
    }
  }

  // ---- the array ----

  ghost predicate IsLeast(used: set<int>, i: int) { i >= 0 && i !in used && forall j :: 0 <= j < i ==> j in used }

  /** The index given out is the least that is seen to be free from `start` on. */
  ghost predicate FirstFree(root: Entry, start: int, at: int) {
    at >= start && Free(root, at) && forall j :: start <= j < at ==> !Free(root, j)
  }

  class Table {
    var root: Entry

    ghost predicate Valid()
      reads this
    {
      WFRoot(root)
    }

    constructor ()
      ensures Valid() && root == Null && Contents(root) == map[] && Sound(root)
    {
      root := Null;
    }

    method Get(index: nat) returns (v: int)
      requires Valid()
      ensures v == ValueAt(Contents(root), index)
    {
      hide Span, At;
      ContentsAt(root, index);
      if index >= Size(root) { return 0; }
      ghost var d := Depth(root);
      DivUnique(0, index, Span(d));
      var cur := root;
      while cur != Null
        invariant WF(cur, d) && At(cur, d, index % Span(d)) == Lookup(root, index)
        decreases d, cur != Null
      {
        if cur.Value? {
          AtEnd(cur, d, index % Span(d));
          return cur.v;
        }
        PutNode(cur, d, index, 0);
        cur := cur.kids[Local(cur.level, index)];
        d := d - 1;
      }
      AtEnd(cur, d, index % Span(d));
      v := 0;
    }

    /** xarray_raw_set: the map is updated; masks stay sound exactly if the store closes one index. */
    method Set(index: nat, value: int) returns (prev: int)
      requires Valid()
      modifies this
      ensures Valid() && prev == ValueAt(Contents(old(root)), index)
      ensures root == Stored(old(root), index, value) && Contents(root) == Updated(Contents(old(root)), index, value)
      ensures value != 0 ==> forall j :: j >= 0 ==>
        (Free(root, j) <==> Free(old(root), j) && !Block(HidesAt(old(root), index), index, j))
      ensures Sound(old(root)) ==> (Sound(root) <==> value == 0 || HidesAt(old(root), index) == 0)
    {
      hide Span, WF, At, Open, Put, Contents, Updated, Hides;
      ghost var r0 := root;
      ContentsAt(r0, index);
      if index >= Size(root) {
        if value == 0 {
          ContentsChanged(r0, root, index, value);
          return 0;
        }
        root := Grow(root, index);
      }
      ghost var r1 := root;
      root, prev := Store(root, index, value);
      StoreView(r1, index, value, root);
      ContentsChanged(r0, root, index, value);
      SameSound(r0, r1);
      if value != 0 && Sound(r1) { PutSoundIff(r1, index, value); }
    }

    method CompareExchange(index: nat, expected: int, value: int) returns (prev: int)
      requires Valid()
      modifies this
      ensures Valid() && prev == ValueAt(Contents(old(root)), index)
      ensures Contents(root) == if prev == expected then Updated(Contents(old(root)), index, value) else Contents(old(root))
    {
      prev := Get(index);
      if prev == expected { prev := Set(index, value); }
    }

    /** xarray_raw_allocate_from, with whatever the flag left uninitialised at re-rooting holds. The
        first free index from `start` on gets the value; the index reported for it is another one
        exactly if `start` itself is free, inside an absent subtree, and not where that begins. */
    method AllocateFrom(start: nat, value: int, uninit: bool) returns (index: int, ghost at: int)
      requires Valid()
      modifies this
      ensures Valid() && FirstFree(old(root), start, at)
      ensures Contents(root) == Updated(Contents(old(root)), at, value)
      ensures index == if start < Size(old(root)) && at == start
                       then start - start % Span(Gap(old(root), Depth(old(root)), start)) else at
      ensures start == 0 && value != 0 ==> forall j :: j >= 0 ==> (Free(root, j) <==> Free(old(root), j) && j != at)
    {
      hide WF, At, Open, Contents, Updated, Reported, Gap, Placed, Closed;
      ghost var r0 := root;
      if start >= Size(root) {
        var prev := Set(start, value);
        SpanAtLeast(Depth(r0));
        ContentsAt(r0, start);
        return start, start;
      }
      var found, e', i, full;
      found, e', i, full, at := AllocateIn(root, start, Depth(root), value);
      index := i;
      ReportedIs(root, Depth(root), start);
      if found {
        root := e';
        AllocatedInside(r0, e', start, at, value);
      } else {
        at := Size(root);
        index := Size(root);
        root := Reroot(root, value, uninit);
        AllocatedBeyond(r0, value, uninit, start);
      }
      ContentsChanged(r0, root, at, value);
    }

    /** Allocation from 0: an empty index gets the value; with sound masks it is the least one. */
    method Allocate(value: int, uninit: bool) returns (index: int)
      requires Valid()
      modifies this
      ensures Valid() && index >= 0 && index !in Contents(old(root)) && FirstFree(old(root), 0, index)
      ensures Contents(root) == Updated(Contents(old(root)), index, value)
      ensures value != 0 && Sound(old(root)) ==> Sound(root) && IsLeast(Contents(old(root)).Keys, index)
    {
      hide WF, Lookup, Free, Contents, Updated, Gap;
      ghost var r0, at := root, 0;
      index, at := AllocateFrom(0, value, uninit);
      ZeroAligned(Span(Gap(r0, Depth(r0), 0)));
      FreeIsEmpty(r0, at);
      if value != 0 && Sound(r0) { AllocateSound(r0, root, at, value); }
    }

    method Clear(index: nat) returns (prev: int)
      requires Valid()
      modifies this
      ensures Valid() && prev == ValueAt(Contents(old(root)), index)
      ensures Contents(root) == Contents(old(root)) - {index}
      ensures Sound(old(root)) ==> Sound(root)
    {
      prev := Set(index, 0);
    }

    /** Any run of allocations from 0 and clears gives out the least unused index every time. */
    method Run(ops: seq<Op>, uninit: seq<bool>) returns (results: seq<int>)
      requires Valid() && Sound(root) && |uninit| == |ops| && forall op :: op in ops && op.Allocate? ==> op.value != 0
      modifies this
      ensures Valid() && Sound(root) && LeastRun(Contents(old(root)), ops, results)
      ensures Contents(root) == RunMap(Contents(old(root)), ops, results)
    {
      hide WF, Contents, Sound;
      ghost var m := Contents(root);
      results := [];
      while |results| < |ops|
        invariant |results| <= |ops| && Valid() && Sound(root) && LeastRun(m, ops[..|results|], results)
        invariant Contents(root) == RunMap(m, ops[..|results|], results)
      {
        var n := |results|;
        ghost var done := results;
        var op := ops[n];
        assert op in ops;
        var r;
        match op {
          case Allocate(v) => r := Allocate(v, uninit[n]);
          case Release(i) => r := Clear(i);
        }
        results := results + [r];
        assert ops[..n + 1][..n] == ops[..n] && results[..n] == done;
      }
      assert ops[..|results|] == ops;
    }

    /** xarray_first_from: the least occupied index at or after `from`. */
    method FirstFrom(from: nat) returns (v: int, index: int)
      requires Valid()
      ensures v == 0 ==> forall j :: j in Contents(root) ==> j < from
      ensures v != 0 ==> index >= from && index in Contents(root) && Contents(root)[index] == v
      ensures v != 0 ==> forall j :: j in Contents(root) ==> j < from || j >= index
    {
      hide WF, At;
      v, index := 0, 0;
      if from < Size(root) { v, index := FindIn(root, from, Depth(root)); }
    }

    /** xarray_foreach: all indices in increasing order, each once, with their values. */
    method Elements() returns (indices: seq<int>, values: seq<int>)
      requires Valid()
      ensures |indices| == |values|
      ensures forall k :: 0 <= k < |indices| ==> indices[k] in Contents(root) && Contents(root)[indices[k]] == values[k]
      ensures forall k, l :: 0 <= k < l < |indices| ==> indices[k] < indices[l]
      ensures forall i :: i in Contents(root) ==> i in indices
    {
      hide WF, Contents;
      ghost var m := Contents(root);
      indices, values := [], [];
      ContentsBounded(root);
      var v, index := FirstFrom(0);
      while v != 0
        invariant v != 0 ==> 0 <= index < Size(root) && index in m && m[index] == v
        invariant Listed(m, indices, values, if v != 0 then index else Size(root))
        decreases Size(root) - (if v != 0 then index else Size(root))
      {
        indices, values := indices + [index], values + [v];
        v, index := FirstFrom(index + 1);
      }
    }
  }

  lemma ContentsBounded(root: Entry)
    ensures forall i :: i in Contents(root) ==> 0 <= i < Size(root)
  {
  }

  lemma ZeroAligned(s: int)
    requires s > 0
    ensures 0 - 0 % s == 0
  {
  }

  lemma FreeIsEmpty(root: Entry, i: int)
    requires Free(root, i)
    ensures i >= 0 && i !in Contents(root)
  {
  }

  lemma AllocateSound(r0: Entry, root: Entry, at: int, v: int)
    requires v != 0 && Sound(r0) && FirstFree(r0, 0, at) && Contents(root) == Updated(Contents(r0), at, v)
    requires forall j :: j >= 0 ==> (Free(root, j) <==> Free(r0, j) && j != at)
    ensures Sound(root) && IsLeast(Contents(r0).Keys, at)
  {
    hide Lookup, Free, Contents;
    forall j | j >= 0 && Lookup(root, j) == 0 ensures Free(root, j) {
      ContentsAt(root, j);
      ContentsAt(r0, j);
    }
    FreeIsEmpty(r0, at);
    forall j | 0 <= j < at ensures j in Contents(r0) { ContentsAt(r0, j); }
  }

  datatype Op = Allocate(value: int) | Release(index: nat)

  /** The map after a run whose allocations got the given results. */
  ghost function RunMap(m: map<int, int>, ops: seq<Op>, results: seq<int>): map<int, int>
    requires |ops| == |results|
  {
    if ops == [] then m
    else
      var n := |ops| - 1;
      var m' := RunMap(m, ops[..n], results[..n]);
      match ops[n] case Allocate(v) => m'[results[n] := v] case Release(i) => m' - {i}
  }

  /** Every allocation of the run got the index that was the least unused one at its time. */
  ghost predicate LeastRun(m: map<int, int>, ops: seq<Op>, results: seq<int>) {
    |ops| == |results| &&
    (ops != [] ==>
      var n := |ops| - 1;
      var m' := RunMap(m, ops[..n], results[..n]);
      && LeastRun(m, ops[..n], results[..n])
      && match ops[n] case Allocate(_) => IsLeast(m'.Keys, results[n]) case Release(i) => results[n] == ValueAt(m', i))
  }

  lemma AtEnd(e: Entry, d: nat, i: int)
    requires !e.Node?
    ensures At(e, d, i) == if e.Value? then e.v else 0
  {
  }

  lemma SameSound(root: Entry, root': Entry)
    requires SameView(root, root')
    ensures Sound(root) <==> Sound(root')
  {
    hide Lookup, Free;
  }

  lemma SpanAtLeast(d: nat)
    ensures Span(d) >= 1
  {
  }

  /** A new root with the old one in slot 0 and a first value in slot 1. */
  function Reroot(root: Entry, value: int, uninit: bool): Entry
    requires WFRoot(root)
  {
    var w := Wrap(root, uninit);
    w.(kids := w.kids[1 := Fresh(Depth(root), 0, value)])
  }

  lemma AllocatedInside(r0: Entry, e': Entry, start: int, at: int, v: int)
    requires WFRoot(r0) && WF(e', Depth(r0)) && (r0.Node? ==> e'.Node?)
    requires 0 <= start <= at < Size(r0) && Open(r0, Depth(r0), at) && Closed(r0, Depth(r0), start, at)
    requires Placed(r0, Depth(r0), e', at, v)
    ensures WFRoot(e') && Depth(e') == Depth(r0) && FirstFree(r0, start, at) && Changed(r0, e', at, v)
    ensures v != 0 ==> forall j :: j >= 0 ==> (Free(e', j) <==> Free(r0, j) && j != at)
  {
    hide At, Hidden, Span;
  }

  lemma AllocatedBeyond(r0: Entry, v: int, uninit: bool, start: int)
    requires WFRoot(r0) && 0 <= start < Size(r0) && Closed(r0, Depth(r0), start, Size(r0))
    ensures var w := Reroot(r0, v, uninit); var at := Size(r0);
      && WFRoot(w) && FirstFree(r0, start, at) && Changed(r0, w, at, v)
      && (start == 0 && v != 0 ==> forall j :: j >= 0 ==> (Free(w, j) <==> Free(r0, j) && j != at))
  {
    hide WF, At, Hidden, Digit, Rest;
    var w, at := Reroot(r0, v, uninit), Size(r0);
    RerootShape(r0, v, uninit);
    forall j | j >= 0
      ensures Lookup(w, j) == if j == at then v else Lookup(r0, j)
      ensures start == 0 && v != 0 ==> (Free(w, j) <==> Free(r0, j) && j != at)
    {
      RerootAt(r0, v, uninit, j);
    }
  }

  lemma RerootShape(r0: Entry, v: int, uninit: bool)
    requires WFRoot(r0)
    ensures WFRoot(Reroot(r0, v, uninit)) && Size(Reroot(r0, v, uninit)) == SLOTS * Size(r0)
  {
    FreshShape(Depth(r0), 0, v);
  }

  lemma RerootAt(r0: Entry, v: int, uninit: bool, j: int)
    requires WFRoot(r0) && j >= 0
    ensures var w := Reroot(r0, v, uninit); var at := Size(r0);
      && Lookup(w, j) == (if j == at then v else Lookup(r0, j))
      && (NoneOpen(r0) && v != 0 ==> (Free(w, j) <==> Free(r0, j) && j != at))
  {
    hide WF, At, Hidden, Digit, Rest, Span;
    var w, d := Reroot(r0, v, uninit), Depth(r0);
    RerootShape(r0, v, uninit);
    if j < Size(w) {
      IndexNode(w, d + 1, j);
      SplitIndex(d + 1, j);
      JoinOne(d + 1);
      if j < Size(r0) {
        SmallIndex(d + 1, j);
      } else {
        BeyondFirst(d + 1, j);
        NullOpen(d, Rest(d + 1, j));
        FreshAt(d, 0, v, Rest(d + 1, j));
        JoinIndex(d + 1, 1, 0);
      }
    }
  }

  lemma JoinOne(d: nat)
    requires d > 0
    ensures Join(d, 1, 0) == Span(d - 1)
  {
  }

  // ---- iteration ----

  /** The listed indices are exactly those of the map below `to`, in order. */
  ghost predicate Listed(m: map<int, int>, indices: seq<int>, values: seq<int>, to: int) {
    && |indices| == |values|
    && (forall k :: 0 <= k < |indices| ==> indices[k] in m && m[indices[k]] == values[k] && indices[k] < to)
    && (forall k, l :: 0 <= k < l < |indices| ==> indices[k] < indices[l])
    && (forall i :: i in m && i < to ==> i in indices)
  }

  // ---- where allocation is not what its documentation says ----

  /** A store far away closes a whole block: index 4097 is free, yet allocation from it gives 4160. */
  method SparseSetMisleads(v: int, w: int, uninit: bool) returns (t: Table, index: int)
    requires v != 0 && w != 0
    ensures t.Valid() && index == 4160 && Contents(t.root) == map[4096 := v, 4160 := w]
  {
    hide WF, Contents, Gap, Free, HidesAt, Block;
    t := new Table();
    var prev := t.Set(4096, v);
    ghost var r1, at := t.root, 0;
    index, at := t.AllocateFrom(4097, w, uninit);
    SparseFirst(r1, at);
  }

  lemma SparseFirst(root: Entry, at: int)
    requires forall j :: j >= 0 ==> (Free(root, j) <==> Free(Null, j) && !Block(HidesAt(Null, 4096), 4096, j))
    requires FirstFree(root, 4097, at)
    ensures at == 4160
  {
    DepthExample();
    assert HidesAt(Null, 4096) == 1;
    assert Free(Null, at) && Free(Null, 4160);
    assert !Block(1, 4096, at) && !Block(1, 4096, 4160);
    assert Free(root, 4160);
  }

  lemma DepthExample()
    ensures DepthFor(4096, 0) == 3 && Span(1) == 64
  {
    assert Span(0) == 1 && Span(1) == 64;
    assert Span(2) == 64 * 64;
    assert Span(3) == 64 * 64 * 64;
    assert DepthFor(4096, 3) == 3;
    assert DepthFor(4096, 2) == 3;
    assert DepthFor(4096, 1) == 3;
  }

  /** In an array with one value, at 128, a search from 65 fills index 65 and reports 64. */
  method StartMisreported(v: int, w: int, uninit: bool) returns (t: Table, index: int)
    requires v != 0 && w != 0
    ensures t.Valid() && index == 64 && Contents(t.root) == map[128 := v, 65 := w]
  {
    hide WF, Contents, Stored, Free, HidesAt, Gap, Block;
    t := new Table();
    var prev := t.Set(128, v);
    ghost var r1, at := t.root, 0;
    AfterOneStore(r1, v);
    index, at := t.AllocateFrom(65, w, uninit);
  }

  lemma AfterOneStore(e: Entry, v: int)
    requires v != 0 && WFRoot(Null) && e == Stored(Null, 128, v) && WFRoot(e)
    requires forall j :: j >= 0 ==> (Free(e, j) <==> Free(Null, j) && !Block(HidesAt(Null, 128), 128, j))
    ensures 65 < Size(e) && Depth(e) == 2 && Gap(e, Depth(e), 65) == 1 && Span(1) == 64 && Free(e, 65)
  {
    assert Span(0) == 1 && Span(1) == 64;
    assert Span(2) == 64 * 64;
    assert DepthFor(128, 2) == 2;
    assert DepthFor(128, 1) == 2;
    assert HidesAt(Null, 128) == 0;
    assert Free(Null, 65) && !Block(0, 128, 65);
    var leaf := Wrap(Null, false);
    var top := Wrap(leaf, false);
    assert Grown(leaf, 2, false) == top;
    assert Grown(Null, 2, FullRoot(Null)) == top;
    GrownShape(Null, 2, false);
    SplitIndex(2, 128);
    assert Digit(2, 128) == 2 && Digit(2, 65) == 1;
    assert top.kids[1] == Null;
    assert e.Node? && e.kids[1] == Null;
  }
}
