/** What storing, clearing, growing and re-rooting do to the entries of the xarray. */
module XUpdate {
  import opened Arithmetic
  import opened XEntries

  // ---- storing below an entry ----

  /** The new nodes of a store into an absent subtree: every level has its bit set. */
  function Chain(d: nat, i: int, v: int): Entry
    requires 0 <= i < Span(d)
  {
    if d == 0 then FromValue(v)
    else
      SplitIndex(d, i);
      var k := Digit(d, i);
      Node(d - 1, NoBits()[k := true], Nulls()[k := Chain(d - 1, Rest(d, i), v)])
  }

  /** A store that replaces a value reports upwards, as long as the masks it marks become full. */
  function Marks(e: Entry, d: nat, i: int): bool
    requires WF(e, d) && 0 <= i < Span(d)
    decreases d
  {
    match e
    case Null => false
    case Value(_) => true
    case Node(_, m, ks) =>
      SplitIndex(d, i);
      Marks(ks[Digit(d, i)], d - 1, Rest(d, i)) && AllSet(m[Digit(d, i) := true])
  }

  /** The mask of a node on the path of a store. */
  function NewMask(m: seq<bool>, k: int, v: int, mark: bool): seq<bool>
    requires 0 <= k < |m|
  {
    if v == 0 then m[k := false] else if mark then m[k := true] else m
  }

  function Put(e: Entry, d: nat, i: int, v: int): Entry
    requires WF(e, d) && 0 <= i < Span(d)
    decreases d
  {
    match e
    case Null => if v == 0 then Null else Chain(d, i, v)
    case Value(_) => FromValue(v)
    case Node(l, m, ks) =>
      SplitIndex(d, i);
      var k, r := Digit(d, i), Rest(d, i);
      Node(l, NewMask(m, k, v, Marks(ks[k], d - 1, r)), ks[k := Put(ks[k], d - 1, r, v)])
  }

  /** The depth of the absent subtree that the path of an index ends in, 0 at a value. */
  function Gap(e: Entry, d: nat, i: int): (g: nat)
    requires WF(e, d) && 0 <= i < Span(d)
    ensures g <= d
    decreases d
  {
    match e
    case Null => d
    case Value(_) => 0
    case Node(_, _, ks) => SplitIndex(d, i); Gap(ks[Digit(d, i)], d - 1, Rest(d, i))
  }

  /** The depth of the block that a store at the index closes. */
  function Hides(e: Entry, d: nat, i: int): (b: nat)
    requires WF(e, d) && 0 <= i < Span(d)
    ensures b <= d && (d > 0 ==> b < d)
  {
    if Gap(e, d, i) > 0 then Gap(e, d, i) - 1 else 0
  }

  /** Same digits above the lowest b. */
  predicate SameBlock(d: nat, b: nat, i: int, j: int)
  {
    d > b ==> Digit(d, i) == Digit(d, j) && SameBlock(d - 1, b, Rest(d, i), Rest(d, j))
  }

  lemma {:induction false} ChainShape(d: nat, i: int, v: int)
    requires 0 <= i < Span(d)
    ensures WF(Chain(d, i, v), d)
  {
    if d > 0 {
      SplitIndex(d, i);
      ChainShape(d - 1, Rest(d, i), v);
    }
  }

  lemma {:induction false} ChainAt(d: nat, i: int, v: int, j: int)
    requires 0 <= i < Span(d) && 0 <= j < Span(d)
    ensures At(Chain(d, i, v), d, j) == if i == j then v else 0
  {
    if d > 0 {
      hide Digit, Rest, Span;
      SplitIndex(d, i);
      SplitIndex(d, j);
      ChainAt(d - 1, Rest(d, i), v, Rest(d, j));
    }
  }

  lemma ChainOpen(d: nat, i: int, v: int, j: int)
    requires 0 <= i < Span(d) && 0 <= j < Span(d) && v != 0
    ensures Open(Chain(d, i, v), d, j) <==> !SameBlock(d, if d > 0 then d - 1 else 0, i, j)
  {
    if d > 0 {
      hide Digit, Rest, Span;
      SplitIndex(d, i);
      SplitIndex(d, j);
      assert SameBlock(d - 1, d - 1, Rest(d, i), Rest(d, j));
      if Digit(d, i) != Digit(d, j) { assert Open(Null, d - 1, Rest(d, j)); }
    }
  }

  lemma {:induction false} PutShape(e: Entry, d: nat, i: int, v: int)
    requires WF(e, d) && 0 <= i < Span(d)
    ensures WF(Put(e, d, i, v), d)
    decreases d
  {
    match e
    case Null => if v != 0 { ChainShape(d, i, v); }
    case Value(_) =>
    case Node(_, _, ks) =>
      SplitIndex(d, i);
      PutShape(ks[Digit(d, i)], d - 1, Rest(d, i), v);
  }

  lemma {:induction false} PutAt(e: Entry, d: nat, i: int, v: int, j: int)
    requires WF(e, d) && 0 <= i < Span(d) && 0 <= j < Span(d)
    ensures At(Put(e, d, i, v), d, j) == if i == j then v else At(e, d, j)
    decreases d
  {
    match e
    case Null => if v != 0 { ChainAt(d, i, v, j); }
    case Value(_) =>
    case Node(_, _, ks) =>
      hide Digit, Rest, Span;
      SplitIndex(d, i);
      SplitIndex(d, j);
      PutAt(ks[Digit(d, i)], d - 1, Rest(d, i), v, Rest(d, j));
  }

  /** A store that marks its parent leaves nothing open below. */
  lemma MarksClosed(e: Entry, d: nat, i: int, v: int, j: int)
    requires WF(e, d) && 0 <= i < Span(d) && 0 <= j < Span(d) && v != 0 && Marks(e, d, i)
    ensures !Open(Put(e, d, i, v), d, j)
  {
    if e.Node? {
      SplitIndex(d, i);
      SplitIndex(d, j);
    }
  }

  /** A store closes exactly the block of the index below its absent subtree. */
  lemma {:induction false} PutOpen(e: Entry, d: nat, i: int, v: int, j: int)
    requires WF(e, d) && 0 <= i < Span(d) && 0 <= j < Span(d) && v != 0
    ensures Open(Put(e, d, i, v), d, j) <==> Open(e, d, j) && !SameBlock(d, Hides(e, d, i), i, j)
    decreases d
  {
    match e
    case Null => ChainOpen(d, i, v, j);
    case Value(_) =>
    case Node(_, m, ks) =>
      hide Digit, Rest, Span, Open, At, Hidden;
      PutShape(e, d, i, v);
      SplitIndex(d, i);
      IndexNode(e, d, j);
      IndexNode(Put(e, d, i, v), d, j);
      var k, r, r' := Digit(d, i), Rest(d, i), Rest(d, j);
      PutOpen(ks[k], d - 1, r, v, r');
      if Marks(ks[k], d - 1, r) { MarksClosed(ks[k], d - 1, r, v, r'); }
  }

  /** Clearing opens the index, closes nothing, and opens only what is then empty. */
  lemma {:induction false} ClearOpen(e: Entry, d: nat, i: int, j: int)
    requires WF(e, d) && 0 <= i < Span(d) && 0 <= j < Span(d)
    ensures i == j || Open(e, d, j) ==> Open(Put(e, d, i, 0), d, j)
    ensures Hidden(Put(e, d, i, 0), d, j) ==> Hidden(e, d, j) && i != j
    decreases d
  {
    match e
    case Null =>
    case Value(_) =>
    case Node(_, m, ks) =>
      hide Digit, Rest, Span;
      SplitIndex(d, i);
      SplitIndex(d, j);
      ClearOpen(ks[Digit(d, i)], d - 1, Rest(d, i), Rest(d, j));
  }

  // ---- blocks are quotients ----

  lemma {:induction false} SpanSum(a: nat, b: nat)
    ensures Span(a + b) == Span(a) * Span(b)
  {
    if a > 0 {
      SpanSum(a - 1, b);
      Associate(SLOTS, Span(a - 1), Span(b));
    }
  }

  lemma QuotientSplit(k: int, r: int, m: int, s: int)
    requires s > 0 && m > 0 && 0 <= r < m * s
    ensures (k * (m * s) + r) / s == k * m + r / s && (k * (m * s) + r) % s == r % s && 0 <= r / s < m
  {
    DivBelow(r, m, s);
    Associate(k, m, s);
    Distribute(k * m, r / s, s);
    DivUnique(k * m + r / s, r % s, s);
  }

  /** The lower digits of an index decide its quotient and remainder by a smaller span. */
  lemma DigitQuotient(d: nat, b: nat, i: int)
    requires b < d && 0 <= i < Span(d)
    ensures var m := Span(d - 1 - b); var r := Rest(d, i);
      && i / Span(b) == Digit(d, i) * m + r / Span(b) && 0 <= r / Span(b) < m && i % Span(b) == r % Span(b)
  {
    SplitIndex(d, i);
    SpanSum(d - 1 - b, b);
    QuotientSplit(Digit(d, i), Rest(d, i), Span(d - 1 - b), Span(b));
  }

  lemma {:induction false} BlockIsQuotient(d: nat, b: nat, i: int, j: int)
    requires b <= d && 0 <= i < Span(d) && 0 <= j < Span(d)
    ensures SameBlock(d, b, i, j) <==> i / Span(b) == j / Span(b)
  {
    if d == b {
      DivUnique(0, i, Span(b));
      DivUnique(0, j, Span(b));
    } else {
      hide Digit, Rest, Span;
      SplitIndex(d, i);
      SplitIndex(d, j);
      DigitQuotient(d, b, i);
      DigitQuotient(d, b, j);
      BlockIsQuotient(d - 1, b, Rest(d, i), Rest(d, j));
      var s, m := Span(b), Span(d - 1 - b);
      if i / s == j / s {
        Unique(Digit(d, i), Rest(d, i) / s, Digit(d, j), Rest(d, j) / s, m);
      }
    }
  }

  // ---- growing the root ----

  /** A new root above the old one, which becomes its slot 0. */
  function Wrap(root: Entry, full: bool): Entry {
    Node(Depth(root), NoBits()[0 := full], Nulls()[0 := root])
  }

  ghost predicate NoneOpen(root: Entry) { forall i :: 0 <= i < Size(root) ==> !Open(root, Depth(root), i) }

  lemma WrapShape(root: Entry, full: bool)
    requires WFRoot(root)
    ensures WFRoot(Wrap(root, full)) && Size(Wrap(root, full)) == SLOTS * Size(root)
  {
  }

  /** Growing changes neither contents nor what is seen to be free, if the full bit is right. */
  lemma WrapFacts(root: Entry, full: bool, j: int)
    requires WFRoot(root) && j >= 0 && (full ==> NoneOpen(root))
    ensures Lookup(Wrap(root, full), j) == Lookup(root, j)
    ensures Free(Wrap(root, full), j) <==> Free(root, j)
  {
    hide WF, Digit, Rest, Open, At, Hidden;
    WrapShape(root, full);
    var w, d := Wrap(root, full), Depth(root);
    if j < Size(w) {
      IndexNode(w, d + 1, j);
      if j < Size(root) {
        SmallIndex(d + 1, j);
      } else {
        BeyondFirst(d + 1, j);
        NullOpen(d, Rest(d + 1, j));
      }
    }
  }

  lemma NullOpen(d: nat, i: int)
    ensures Open(Null, d, i) && At(Null, d, i) == 0
  {
  }

  lemma BeyondFirst(d: nat, j: int)
    requires d > 0 && Span(d - 1) <= j < Span(d)
    ensures 1 <= Digit(d, j) < SLOTS
  {
    SplitIndex(d, j);
    if Digit(d, j) < 1 { Apart(1, Digit(d, j), Span(d - 1)); }
  }

  /** The bit that growing sets for the old root. */
  predicate FullRoot(root: Entry) { root.Value? || (root.Node? && AllSet(root.mask)) }

  lemma FullRootClosed(root: Entry)
    requires WFRoot(root) && FullRoot(root)
    ensures NoneOpen(root)
  {
    forall i | 0 <= i < Size(root) ensures !Open(root, Depth(root), i) {
      if root.Node? { IndexNode(root, Depth(root), i); }
    }
  }

  // ---- stores and the soundness of masks ----

  /** Below the absent subtree there is nothing. */
  lemma {:induction false} GapEmpty(e: Entry, d: nat, i: int, j: int)
    requires WF(e, d) && 0 <= i < Span(d) && 0 <= j < Span(d) && Gap(e, d, i) > 0
    requires SameBlock(d, Gap(e, d, i) - 1, i, j)
    ensures At(e, d, j) == 0
    decreases d
  {
    if e.Node? {
      hide Digit, Rest, Span;
      SplitIndex(d, i);
      SplitIndex(d, j);
      GapEmpty(e.kids[Digit(d, i)], d - 1, Rest(d, i), Rest(d, j));
    }
  }

  /** A store keeps the masks sound exactly if it closes no more than its own index. */
  lemma PutSoundIff(root: Entry, i: int, v: int)
    requires WFRoot(root) && 0 <= i < Size(root) && v != 0 && Sound(root)
    ensures Depth(Put(root, Depth(root), i, v)) == Depth(root)
    ensures Sound(Put(root, Depth(root), i, v)) <==> Hides(root, Depth(root), i) == 0
  {
    hide WF, Put, At, Hidden, Open, SameBlock, Gap;
    var d := Depth(root);
    var root', b := Put(root, d, i, v), Hides(root, d, i);
    PutDepth(root, i, v);
    if b == 0 {
      forall j | j >= 0 && Lookup(root', j) == 0 ensures Free(root', j) {
        if j < Size(root) {
          PutAt(root, d, i, v, j);
          PutOpen(root, d, i, v, j);
          BlockIsQuotient(d, 0, i, j);
          assert Lookup(root, j) == 0;
          assert i / Span(0) == i && j / Span(0) == j;
        }
      }
    } else {
      var j := Neighbour(d, b, i);
      PutAt(root, d, i, v, j);
      PutOpen(root, d, i, v, j);
      GapEmpty(root, d, i, j);
      assert Lookup(root', j) == 0 && !Free(root', j);
    }
  }

  lemma PutDepth(root: Entry, i: int, v: int)
    requires WFRoot(root) && 0 <= i < Size(root)
    ensures Depth(Put(root, Depth(root), i, v)) == Depth(root)
  {
  }

  /** Another index of the same block. */
  lemma Neighbour(d: nat, b: nat, i: int) returns (j: int)
    requires 0 < b <= d && 0 <= i < Span(d)
    ensures 0 <= j < Span(d) && j != i && SameBlock(d, b, i, j)
  {
    var s := Span(b);
    var q, r := i / s, i % s;
    var r' := if r == 0 then 1 else 0;
    j := q * s + r';
    assert s >= SLOTS;
    SpanSum(d - b, b);
    DivBelow(i, Span(d - b), s);
    DivUnique(q, r', s);
    Apart(Span(d - b), q, s);
    Apart(q, -1, s);
    BlockIsQuotient(d, b, i, j);
  }
}
