/** The xarray: get, set, clear, compare-and-exchange, allocation of an index and ordered search. */
module XArray {
  import opened Arithmetic
  import opened XEntries
  import opened XUpdate

  /** The local index of a node, taken from the whole index. */
  function Local(level: nat, index: nat): (k: int)
    ensures 0 <= k < SLOTS
  {
    (index / Span(level)) % SLOTS
  }

  // ---- a store, by walking down and back up ----

  ghost predicate IsPath(parents: seq<Entry>) {
    forall p :: p in parents ==> p.Node? && |p.mask| == |p.kids| == SLOTS
  }

  /** One step back up: the parent with its new child, and whether it reports on. */
  function Up(p: Entry, index: nat, v: int, child: Entry, mark: bool): (Entry, bool)
    requires p.Node? && |p.mask| == |p.kids| == SLOTS
  {
    var k := Local(p.level, index);
    (Node(p.level, NewMask(p.mask, k, v, mark), p.kids[k := child]), mark && AllSet(p.mask[k := true]))
  }

  ghost function Unwind(parents: seq<Entry>, index: nat, v: int, child: Entry, mark: bool): Entry
    requires IsPath(parents)
  {
    if parents == [] then child
    else
      var (e, m) := Up(parents[|parents| - 1], index, v, child, mark);
      Unwind(parents[..|parents| - 1], index, v, e, m)
  }

  lemma PutNode(e: Entry, d: nat, index: nat, v: int)
    requires WF(e, d) && e.Node?
    ensures 0 <= index % Span(d) < Span(d) && 0 <= index % Span(d - 1) < Span(d - 1)
    ensures var kid := e.kids[Local(e.level, index)]; var i, r := index % Span(d), index % Span(d - 1);
      && WF(kid, d - 1) && At(e, d, i) == At(kid, d - 1, r)
      && (Put(e, d, i, v), Marks(e, d, i)) == Up(e, index, v, Put(kid, d - 1, r, v), Marks(kid, d - 1, r))
  {
    LocalDigit(d, index);
  }

  method BuildChain(depth: nat, index: nat, value: int) returns (e: Entry)
    ensures e == Chain(depth, index % Span(depth), value)
  {
    e := FromValue(value);
    var c: nat := 0;
    while c < depth
      invariant c <= depth && e == Chain(c, index % Span(c), value)
    {
      LocalDigit(c + 1, index);
      var k := Local(c, index);
      e := Node(c, NoBits()[k := true], Nulls()[k := e]);
      c := c + 1;
    }
  }

  /** The walk down of xarray_raw_set, which keeps the nodes it goes through. */
  method Descend(root: Entry, index: nat, value: int) returns (parents: seq<Entry>, cur: Entry, ghost d: nat)
    requires WFRoot(root) && index < Size(root)
    ensures WF(cur, d) && !cur.Node? && 0 <= index % Span(d) < Span(d) && IsPath(parents)
    ensures d == if parents == [] then Depth(cur) else parents[|parents| - 1].level
    ensures At(cur, d, index % Span(d)) == At(root, Depth(root), index)
    ensures Put(root, Depth(root), index, value) ==
            Unwind(parents, index, value, Put(cur, d, index % Span(d), value), Marks(cur, d, index % Span(d)))
  {
    hide Span, WF, Put, Marks, At, Up, Local;
    parents, cur, d := [], root, Depth(root);
    DivUnique(0, index, Span(d));
    while cur.Node?
      invariant WF(cur, d) && 0 <= index % Span(d) < Span(d) && IsPath(parents)
      invariant d == if parents == [] then Depth(cur) else parents[|parents| - 1].level
      invariant At(cur, d, index % Span(d)) == At(root, Depth(root), index)
      invariant Put(root, Depth(root), index, value) ==
                Unwind(parents, index, value, Put(cur, d, index % Span(d), value), Marks(cur, d, index % Span(d)))
      decreases d
    {
      PutNode(cur, d, index, value);
      NodeDepth(cur, d);
      UnwindPush(parents, cur, index, value, cur.kids[Local(cur.level, index)], d);
      parents := parents + [cur];
      cur := cur.kids[Local(cur.level, index)];
      d := d - 1;
    }
  }

  /** The walk back up, which changes entries and masks. */
  method Ascend(parents: seq<Entry>, index: nat, value: int, child: Entry, marked: bool) returns (root: Entry)
    requires IsPath(parents)
    ensures root == Unwind(parents, index, value, child, marked)
  {
    hide Up;
    var mark, n := marked, |parents|;
    root := child;
    assert parents[..n] == parents;
    while n > 0
      invariant 0 <= n <= |parents| && IsPath(parents[..n])
      invariant Unwind(parents, index, value, child, marked) == Unwind(parents[..n], index, value, root, mark)
    {
      n := n - 1;
      assert parents[..n + 1][..n] == parents[..n];
      var (e, m) := Up(parents[n], index, value, root, mark);
      root, mark := e, m;
    }
  }

  /** The store of xarray_raw_set below a root that is large enough. */
  method Store(root: Entry, index: nat, value: int) returns (root': Entry, prev: int)
    requires WFRoot(root) && index < Size(root)
    ensures root' == Put(root, Depth(root), index, value) && prev == At(root, Depth(root), index)
  {
    hide Span, WF, Put, Marks, At, Up, Unwind;
    var parents, cur;
    ghost var d;
    parents, cur, d := Descend(root, index, value);
    PutEnd(cur, d, index % Span(d), value);
    prev := if cur.Value? then cur.v else 0;
    var child := FromValue(value);
    if cur.Null? && value != 0 {
      child := BuildChain(if parents == [] then 0 else parents[|parents| - 1].level, index, value);
    }
    root' := Ascend(parents, index, value, child, cur.Value?);
  }

  lemma NodeDepth(e: Entry, d: nat)
    requires WF(e, d) && e.Node?
    ensures d == e.level + 1 && |e.mask| == |e.kids| == SLOTS
  {
  }

  lemma UnwindPush(parents: seq<Entry>, e: Entry, index: nat, v: int, kid: Entry, d: nat)
    requires IsPath(parents) && WF(e, d) && e.Node? && kid == e.kids[Local(e.level, index)]
    ensures IsPath(parents + [e]) && WF(kid, d - 1) && 0 <= index % Span(d) < Span(d)
    ensures 0 <= index % Span(d - 1) < Span(d - 1)
    ensures Unwind(parents, index, v, Put(e, d, index % Span(d), v), Marks(e, d, index % Span(d))) ==
            Unwind(parents + [e], index, v, Put(kid, d - 1, index % Span(d - 1), v), Marks(kid, d - 1, index % Span(d - 1)))
  {
    hide Span, Put, Marks, At, Up, Local;
    NodeDepth(e, d);
    PutNode(e, d, index, v);
    assert (parents + [e])[..|parents|] == parents;
  }

  lemma PutEnd(e: Entry, d: nat, i: int, v: int)
    requires WF(e, d) && !e.Node? && 0 <= i < Span(d)
    ensures At(e, d, i) == if e.Value? then e.v else 0
    ensures Marks(e, d, i) == e.Value?
    ensures Put(e, d, i, v) == if e.Value? || v == 0 then FromValue(v) else Chain(d, i, v)
  {
  }

  // ---- allocation below an entry ----

  /** The nodes of an allocation into an absent subtree: no bit is set. */
  function Fresh(d: nat, i: int, v: int): Entry
    requires 0 <= i < Span(d)
  {
    if d == 0 then FromValue(v)
    else
      SplitIndex(d, i);
      Node(d - 1, NoBits(), Nulls()[Digit(d, i) := Fresh(d - 1, Rest(d, i), v)])
  }

  /** `e'` is `e` with `v` at `at`, and exactly `at` no longer open. */
  ghost predicate Placed(e: Entry, d: nat, e': Entry, at: int, v: int) {
    && (forall j :: 0 <= j < Span(d) ==> At(e', d, j) == if j == at then v else At(e, d, j))
    && (v != 0 ==> forall j :: 0 <= j < Span(d) ==> (Open(e', d, j) <==> Open(e, d, j) && j != at))
  }

  ghost predicate Closed(e: Entry, d: nat, from: int, to: int) { forall j :: from <= j < to ==> !Open(e, d, j) }

  lemma {:induction false} FreshShape(d: nat, i: int, v: int)
    requires 0 <= i < Span(d)
    ensures WF(Fresh(d, i, v), d)
  {
    if d > 0 {
      SplitIndex(d, i);
      FreshShape(d - 1, Rest(d, i), v);
    }
  }

  lemma {:induction false} FreshAt(d: nat, i: int, v: int, j: int)
    requires 0 <= i < Span(d) && 0 <= j < Span(d)
    ensures At(Fresh(d, i, v), d, j) == if i == j then v else 0
    ensures !Hidden(Fresh(d, i, v), d, j)
  {
    if d > 0 {
      hide Digit, Rest, Span;
      SplitIndex(d, i);
      SplitIndex(d, j);
      FreshAt(d - 1, Rest(d, i), v, Rest(d, j));
    }
  }

  /** The index that an allocation reports for the place `i` itself: the start of its absent subtree. */
  function Reported(e: Entry, d: nat, i: int): int
    requires WF(e, d) && 0 <= i < Span(d)
    decreases d
  {
    if e.Node? then
      SplitIndex(d, i);
      Join(d, Digit(d, i), Reported(e.kids[Digit(d, i)], d - 1, Rest(d, i)))
    else 0
  }

  lemma {:induction false} ReportedIs(e: Entry, d: nat, i: int)
    requires WF(e, d) && 0 <= i < Span(d)
    ensures Reported(e, d, i) == i - i % Span(Gap(e, d, i))
    decreases d
  {
    if e.Node? {
      hide Digit, Rest;
      SplitIndex(d, i);
      ReportedIs(e.kids[Digit(d, i)], d - 1, Rest(d, i));
      DigitQuotient(d, Gap(e, d, i), i);
    } else if e.Null? {
      DivUnique(0, i, Span(d));
    }
  }

  lemma PlacedNode(e: Entry, d: nat, k: int, c': Entry, full: bool, at: int, v: int, e': Entry)
    requires WF(e, d) && e.Node? && 0 <= k < SLOTS && 0 <= at < Span(d - 1) && WF(c', d - 1)
    requires Placed(e.kids[k], d - 1, c', at, v) && !e.mask[k]
    requires full && v != 0 ==> Closed(c', d - 1, 0, Span(d - 1))
    requires e' == Node(e.level, if full then e.mask[k := true] else e.mask, e.kids[k := c'])
    ensures WF(e', d) && 0 <= Join(d, k, at) < Span(d) && Placed(e, d, e', Join(d, k, at), v)
  {
    hide Digit, Rest, Span, Open, At, Hidden, Join;
    JoinIndex(d, k, at);
    assert WF(e', d);
    forall j | 0 <= j < Span(d)
      ensures At(e', d, j) == if j == Join(d, k, at) then v else At(e, d, j)
      ensures v != 0 ==> (Open(e', d, j) <==> Open(e, d, j) && j != Join(d, k, at))
    {
      SplitIndex(d, j);
      IndexNode(e, d, j);
      IndexNode(e', d, j);
    }
  }

  /** Where the search of slot k starts. */
  function From(d: nat, min: int, k: int): int
    requires d > 0
  {
    if k == Digit(d, min) then Rest(d, min) else 0
  }

  /** Slot k has nothing open at or after `min`. */
  ghost predicate SlotClosed(e: Entry, d: nat, min: int, k: int)
    requires e.Node? && 0 <= k < |e.mask| == |e.kids| && d > 0
  {
    e.mask[k] || Closed(e.kids[k], d - 1, From(d, min, k), Span(d - 1))
  }

  ghost predicate SlotsClosed(e: Entry, d: nat, min: int, to: int)
    requires e.Node? && |e.mask| == |e.kids| == SLOTS && d > 0 && 0 <= min < Span(d)
  {
    to <= SLOTS && 0 <= Digit(d, min) &&
    forall k :: Digit(d, min) <= k < to ==> SlotClosed(e, d, min, k)
  }

  lemma ClosedUpTo(e: Entry, d: nat, min: int, k: int, r: int)
    requires WF(e, d) && e.Node? && 0 <= min < Span(d) && Digit(d, min) <= k < SLOTS && 0 <= r < Span(d - 1)
    requires SlotsClosed(e, d, min, k)
    requires Closed(e.kids[k], d - 1, From(d, min, k), r)
    ensures Closed(e, d, min, Join(d, k, r))
  {
    hide Digit, Rest, Span, Open, At, Hidden, Join;
    SplitIndex(d, min);
    JoinIndex(d, k, r);
    forall j | min <= j < Join(d, k, r) ensures !Open(e, d, j) {
      SplitIndex(d, j);
      IndexNode(e, d, j);
      JoinOrder(d, Digit(d, j), Rest(d, j), k, r);
      JoinOrder(d, Digit(d, j), Rest(d, j), Digit(d, min), Rest(d, min));
      if Digit(d, j) < k {
        assert SlotClosed(e, d, min, Digit(d, j));
      }
    }
  }

  lemma ClosedAll(e: Entry, d: nat, min: int)
    requires WF(e, d) && e.Node? && 0 <= min < Span(d) && SlotsClosed(e, d, min, SLOTS)
    ensures Closed(e, d, min, Span(d))
  {
    hide Digit, Rest, Span, Open, At, Hidden, Join;
    SplitIndex(d, min);
    forall j | min <= j < Span(d) ensures !Open(e, d, j) {
      SplitIndex(d, j);
      IndexNode(e, d, j);
      JoinOrder(d, Digit(d, j), Rest(d, j), Digit(d, min), Rest(d, min));
      assert SlotClosed(e, d, min, Digit(d, j));
    }
  }

  /** xarray_entry_allocate: the first open index at or after `min` gets the value. */
  method AllocateIn(e: Entry, min: int, d: nat, v: int)
    returns (found: bool, e': Entry, index: int, full: bool, ghost at: int)
    requires WF(e, d) && 0 <= min < Span(d)
    ensures !found ==> Closed(e, d, min, Span(d))
    ensures found ==> WF(e', d) && min <= at < Span(d) && Open(e, d, at) && Closed(e, d, min, at)
    ensures found ==> Placed(e, d, e', at, v) && (full && v != 0 ==> Closed(e', d, 0, Span(d)))
    ensures found ==> index == if at == min then Reported(e, d, min) else at
    ensures found && e.Node? ==> e'.Node?
    decreases d
  {
    hide Digit, Rest, Open, At, Hidden, Join, Placed, Closed, SlotsClosed, Reported;
    at := min;
    match e
    case Null =>
      found, e', index, full := true, Fresh(d, min, v), 0, d == 0;
      PlacedFresh(d, min, v);
    case Value(_) =>
      found, e', index, full := false, e, 0, false;
      ValueClosed(e, d, min);
    case Node(level, mask, kids) =>
      found, e', index, full := false, e, 0, false;
      if AllSet(mask) {
        MaskClosed(e, d, min);
        return;
      }
      SplitIndex(d, min);
      var start := Digit(d, min);
      var k := start;
      SlotsStart(e, d, min);
      while k < SLOTS
        invariant start <= k <= SLOTS && SlotsClosed(e, d, min, k)
      {
        var from := From(d, min, k);
        if mask[k] {
          SlotsStep(e, d, min, k);
          k := k + 1;
          continue;
        }
        var child, childFull;
        ghost var childAt;
        found, child, index, childFull, childAt := AllocateIn(kids[k], from, d - 1, v);
        if found {
          AllocateStep(e, d, min, k, childAt, index);
          index := Join(d, k, index);
          e' := Node(level, if childFull then mask[k := true] else mask, kids[k := child]);
          full := AllSet(e'.mask);
          at := Join(d, k, childAt);
          PlacedNode(e, d, k, child, childFull, childAt, v, e');
          if full { MaskClosed(e', d, 0); }
          return;
        }
        SlotsStep(e, d, min, k);
        k := k + 1;
      }
      ClosedAll(e, d, min);
  }

  lemma PlacedFresh(d: nat, min: int, v: int)
    requires 0 <= min < Span(d)
    ensures WF(Fresh(d, min, v), d) && Placed(Null, d, Fresh(d, min, v), min, v)
    ensures Open(Null, d, min) && Closed(Null, d, min, min) && Reported(Null, d, min) == 0
    ensures d == 0 && v != 0 ==> Closed(Fresh(d, min, v), d, 0, Span(d))
  {
    hide Digit, Rest;
    FreshShape(d, min, v);
    forall j | 0 <= j < Span(d) ensures At(Fresh(d, min, v), d, j) == (if min == j then v else 0) && !Hidden(Fresh(d, min, v), d, j)
    {
      FreshAt(d, min, v, j);
    }
  }

  lemma ValueClosed(e: Entry, d: nat, min: int)
    requires WF(e, d) && e.Value?
    ensures Closed(e, d, min, Span(d))
  {
  }

  lemma MaskClosed(e: Entry, d: nat, min: int)
    requires WF(e, d) && e.Node? && AllSet(e.mask) && min >= 0
    ensures Closed(e, d, min, Span(d))
  {
    forall j | min <= j < Span(d) ensures !Open(e, d, j) { IndexNode(e, d, j); }
  }

  lemma SlotsStart(e: Entry, d: nat, min: int)
    requires WF(e, d) && e.Node? && 0 <= min < Span(d)
    ensures SlotsClosed(e, d, min, Digit(d, min))
  {
    SplitIndex(d, min);
  }

  lemma SlotsStep(e: Entry, d: nat, min: int, k: int)
    requires WF(e, d) && e.Node? && 0 <= min < Span(d) && 0 <= Digit(d, min) <= k < SLOTS && SlotsClosed(e, d, min, k)
    requires e.mask[k] || Closed(e.kids[k], d - 1, From(d, min, k), Span(d - 1))
    ensures SlotsClosed(e, d, min, k + 1)
  {
    hide Digit, Rest, Closed;
  }

  /** What finding a place in slot k means for the whole node. */
  lemma AllocateStep(e: Entry, d: nat, min: int, k: int, childAt: int, childIndex: int)
    requires WF(e, d) && e.Node? && 0 <= min < Span(d) && Digit(d, min) <= k < SLOTS && SlotsClosed(e, d, min, k)
    requires !e.mask[k] && 0 <= Digit(d, min) && 0 <= Rest(d, min) < Span(d - 1)
    requires var from := From(d, min, k);
      && from <= childAt < Span(d - 1) && Open(e.kids[k], d - 1, childAt) && Closed(e.kids[k], d - 1, from, childAt)
      && childIndex == if childAt == from then Reported(e.kids[k], d - 1, from) else childAt
    ensures var at := Join(d, k, childAt);
      && min <= at < Span(d) && Open(e, d, at) && Closed(e, d, min, at)
      && Join(d, k, childIndex) == if at == min then Reported(e, d, min) else at
  {
    hide Digit, Rest, Open, At, Hidden, Join, Closed, SlotsClosed;
    SplitIndex(d, min);
    JoinIndex(d, k, childAt);
    AtNode(e, d, k, childAt);
    JoinOrder(d, k, childAt, Digit(d, min), Rest(d, min));
    ClosedUpTo(e, d, min, k, childAt);
    if childAt == 0 && k != Digit(d, min) { ReportedIs(e.kids[k], d - 1, 0); }
  }

  // ---- ordered search below an entry ----

  ghost predicate Empty(e: Entry, d: nat, from: int, to: int) { forall j :: from <= j < to ==> At(e, d, j) == 0 }

  ghost predicate SlotEmpty(e: Entry, d: nat, min: int, k: int)
    requires e.Node? && 0 <= k < |e.kids| && d > 0
  {
    Empty(e.kids[k], d - 1, From(d, min, k), Span(d - 1))
  }

  ghost predicate SlotsEmpty(e: Entry, d: nat, min: int, to: int)
    requires e.Node? && |e.kids| == SLOTS && d > 0
  {
    to <= SLOTS && 0 <= Digit(d, min) && forall k :: Digit(d, min) <= k < to ==> SlotEmpty(e, d, min, k)
  }

  lemma EmptyUpTo(e: Entry, d: nat, min: int, k: int, r: int)
    requires WF(e, d) && e.Node? && 0 <= min < Span(d) && Digit(d, min) <= k < SLOTS && 0 <= r < Span(d - 1)
    requires SlotsEmpty(e, d, min, k) && Empty(e.kids[k], d - 1, From(d, min, k), r)
    ensures Empty(e, d, min, Join(d, k, r))
  {
    hide Digit, Rest, Span, At, Hidden, Join;
    SplitIndex(d, min);
    JoinIndex(d, k, r);
    forall j | min <= j < Join(d, k, r) ensures At(e, d, j) == 0 {
      SplitIndex(d, j);
      IndexNode(e, d, j);
      JoinOrder(d, Digit(d, j), Rest(d, j), k, r);
      JoinOrder(d, Digit(d, j), Rest(d, j), Digit(d, min), Rest(d, min));
      if Digit(d, j) < k { assert SlotEmpty(e, d, min, Digit(d, j)); }
    }
  }

  lemma EmptyAll(e: Entry, d: nat, min: int)
    requires WF(e, d) && e.Node? && 0 <= min < Span(d) && SlotsEmpty(e, d, min, SLOTS)
    ensures Empty(e, d, min, Span(d))
  {
    hide Digit, Rest, Span, At, Hidden, Join;
    SplitIndex(d, min);
    forall j | min <= j < Span(d) ensures At(e, d, j) == 0 {
      SplitIndex(d, j);
      IndexNode(e, d, j);
      JoinOrder(d, Digit(d, j), Rest(d, j), Digit(d, min), Rest(d, min));
      assert SlotEmpty(e, d, min, Digit(d, j));
    }
  }

  /** xarray_entry_find_non_null: the first occupied index at or after `min`. */
  method FindIn(e: Entry, min: int, d: nat) returns (v: int, index: int)
    requires WF(e, d) && 0 <= min < Span(d)
    ensures v == 0 ==> Empty(e, d, min, Span(d))
    ensures v != 0 ==> min <= index < Span(d) && At(e, d, index) == v && Empty(e, d, min, index)
    decreases d
  {
    hide Digit, Rest, Join, At, Empty, SlotsEmpty;
    v, index := 0, 0;
    match e
    case Null =>
      FindEnd(e, d, min);
    case Value(x) =>
      v := x;
      FindEnd(e, d, min);
    case Node(_, _, kids) =>
      SplitIndex(d, min);
      var k := Digit(d, min);
      EmptyStart(e, d, min);
      while k < SLOTS
        invariant Digit(d, min) <= k <= SLOTS && SlotsEmpty(e, d, min, k)
      {
        var r;
        v, r := FindIn(kids[k], From(d, min, k), d - 1);
        if v != 0 {
          index := Join(d, k, r);
          JoinIndex(d, k, r);
          JoinOrder(d, k, r, Digit(d, min), Rest(d, min));
          AtNode(e, d, k, r);
          EmptyUpTo(e, d, min, k, r);
          return;
        }
        EmptyStep(e, d, min, k);
        k := k + 1;
      }
      EmptyAll(e, d, min);
  }

  lemma FindEnd(e: Entry, d: nat, min: int)
    requires WF(e, d) && !e.Node? && 0 <= min < Span(d)
    ensures e.Null? ==> Empty(e, d, min, Span(d))
    ensures e.Value? ==> min == 0 && e.v != 0 && At(e, d, 0) == e.v && Empty(e, d, min, 0)
  {
  }

  lemma EmptyStart(e: Entry, d: nat, min: int)
    requires WF(e, d) && e.Node? && 0 <= min < Span(d)
    ensures SlotsEmpty(e, d, min, Digit(d, min))
  {
    SplitIndex(d, min);
  }

  lemma EmptyStep(e: Entry, d: nat, min: int, k: int)
    requires WF(e, d) && e.Node? && 0 <= min < Span(d) && 0 <= Digit(d, min) <= k < SLOTS && SlotsEmpty(e, d, min, k)
    requires Empty(e.kids[k], d - 1, From(d, min, k), Span(d - 1))
    ensures SlotsEmpty(e, d, min, k + 1)
  {
    hide Digit, Rest, Empty;
  }
}
