/** The 64-way radix tree of the xarray as a value: entries, the digits of an index, what an entry
    holds and what its masks hide. */
module XEntries {
  import opened Arithmetic

  const SLOTS := 64

  /** An entry: nothing, a non-null value, or a node with the shift 6 * level. */
  datatype Entry = Null | Value(v: int) | Node(level: nat, mask: seq<bool>, kids: seq<Entry>)

  function FromValue(v: int): Entry { if v == 0 then Null else Value(v) }

  /** The full mask, UINT64_MAX. */
  predicate AllSet(mask: seq<bool>) { forall k :: 0 <= k < |mask| ==> mask[k] }

  function NoBits(): (s: seq<bool>)
    ensures |s| == SLOTS && forall k :: 0 <= k < SLOTS ==> !s[k]
  {
    seq(SLOTS, _ => false)
  }

  function Nulls(): (s: seq<Entry>)
    ensures |s| == SLOTS && forall k :: 0 <= k < SLOTS ==> s[k] == Null
  {
    seq(SLOTS, _ => Null)
  }

  // ---- the digits of an index ----

  /** The number of indices below an entry of depth d. */
  function Span(d: nat): (s: int)
    ensures s > 0
  {
    if d == 0 then 1 else SLOTS * Span(d - 1)
  }

  function Digit(d: nat, i: int): int
    requires d > 0
  {
    i / Span(d - 1)
  }

  function Rest(d: nat, i: int): int
    requires d > 0
  {
    i % Span(d - 1)
  }

  function Join(d: nat, k: int, r: int): int
    requires d > 0
  {
    k * Span(d - 1) + r
  }

  lemma SplitIndex(d: nat, i: int)
    requires d > 0 && 0 <= i < Span(d)
    ensures 0 <= Digit(d, i) < SLOTS && 0 <= Rest(d, i) < Span(d - 1) && Join(d, Digit(d, i), Rest(d, i)) == i
  {
    DivBelow(i, SLOTS, Span(d - 1));
  }

  lemma JoinIndex(d: nat, k: int, r: int)
    requires d > 0 && 0 <= k < SLOTS && 0 <= r < Span(d - 1)
    ensures 0 <= Join(d, k, r) < Span(d) && Digit(d, Join(d, k, r)) == k && Rest(d, Join(d, k, r)) == r
  {
    var s := Span(d - 1);
    DivUnique(k, r, s);
    Apart(SLOTS, k, s);
    Apart(k, -1, s);
  }

  /** Indices are ordered by digit, then by rest. */
  lemma JoinOrder(d: nat, k: int, r: int, k': int, r': int)
    requires d > 0 && 0 <= r < Span(d - 1) && 0 <= r' < Span(d - 1)
    ensures Join(d, k, r) < Join(d, k', r') <==> k < k' || (k == k' && r < r')
  {
    var s := Span(d - 1);
    Apart(k, k', s);
    Apart(k', k, s);
  }

  lemma {:induction false} SpanMono(c: nat, d: nat)
    requires c <= d
    ensures Span(c) <= Span(d)
    decreases d
  {
    if c < d { SpanMono(c, d - 1); }
  }

  /** An index within slot 0 keeps its digits. */
  lemma SmallIndex(d: nat, i: int)
    requires d > 0 && 0 <= i < Span(d - 1)
    ensures Digit(d, i) == 0 && Rest(d, i) == i
  {
    DivUnique(0, i, Span(d - 1));
  }

  /** The local index of the code, taken from the whole index, is the digit of what is left of it. */
  lemma LocalDigit(d: nat, i: int)
    requires d > 0 && i >= 0
    ensures (i / Span(d - 1)) % SLOTS == Digit(d, i % Span(d)) && Rest(d, i % Span(d)) == i % Span(d - 1)
    ensures 0 <= i % Span(d) < Span(d)
  {
    DivMod(i, SLOTS, Span(d - 1));
  }

  // ---- well-formed entries ----

  ghost predicate WF(e: Entry, d: nat)
    decreases d
  {
    match e
    case Null => true
    case Value(v) => d == 0 && v != 0
    case Node(l, m, ks) =>
      d == l + 1 && |ks| == SLOTS && |m| == SLOTS && forall k :: 0 <= k < SLOTS ==> WF(ks[k], d - 1)
  }

  function Depth(e: Entry): nat { if e.Node? then e.level + 1 else 0 }

  ghost predicate WFRoot(e: Entry) { WF(e, Depth(e)) }

  /** The value at an index below the entry, 0 if there is none. */
  function At(e: Entry, d: nat, i: int): int
    decreases d
  {
    match e
    case Null => 0
    case Value(v) => v
    case Node(_, _, ks) => if d > 0 && 0 <= Digit(d, i) < |ks| then At(ks[Digit(d, i)], d - 1, Rest(d, i)) else 0
  }

  /** The index lies under a mask bit, so that allocation does not look at it. */
  function Hidden(e: Entry, d: nat, i: int): bool
    decreases d
  {
    e.Node? && d > 0 && 0 <= Digit(d, i) < |e.kids| && |e.mask| == |e.kids| &&
    (e.mask[Digit(d, i)] || Hidden(e.kids[Digit(d, i)], d - 1, Rest(d, i)))
  }

  /** Empty, and seen to be so. */
  predicate Open(e: Entry, d: nat, i: int) { At(e, d, i) == 0 && !Hidden(e, d, i) }

  lemma AtNode(e: Entry, d: nat, k: int, r: int)
    requires WF(e, d) && e.Node? && 0 <= k < SLOTS && 0 <= r < Span(d - 1)
    ensures At(e, d, Join(d, k, r)) == At(e.kids[k], d - 1, r)
    ensures Hidden(e, d, Join(d, k, r)) <==> e.mask[k] || Hidden(e.kids[k], d - 1, r)
    ensures Open(e, d, Join(d, k, r)) <==> !e.mask[k] && Open(e.kids[k], d - 1, r)
  {
    JoinIndex(d, k, r);
  }

  /** AtNode, for an index given whole. */
  lemma IndexNode(e: Entry, d: nat, i: int)
    requires WF(e, d) && e.Node? && 0 <= i < Span(d)
    ensures var k, r := Digit(d, i), Rest(d, i);
      && 0 <= k < SLOTS && 0 <= r < Span(d - 1) && At(e, d, i) == At(e.kids[k], d - 1, r)
      && (Hidden(e, d, i) <==> e.mask[k] || Hidden(e.kids[k], d - 1, r))
      && (Open(e, d, i) <==> !e.mask[k] && Open(e.kids[k], d - 1, r))
  {
    SplitIndex(d, i);
  }

  // ---- the whole array ----

  function Size(root: Entry): int { Span(Depth(root)) }

  function Lookup(root: Entry, i: int): int { if 0 <= i < Size(root) then At(root, Depth(root), i) else 0 }

  /** Empty and seen to be so by allocation; beyond the bound everything is. */
  predicate Free(root: Entry, i: int) { i >= 0 && (i < Size(root) ==> Open(root, Depth(root), i)) }

  /** No empty index is hidden: a mask bit implies a full subtree. */
  ghost predicate Sound(root: Entry) { forall i :: i >= 0 && Lookup(root, i) == 0 ==> Free(root, i) }
}
