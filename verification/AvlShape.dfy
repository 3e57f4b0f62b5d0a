/** The intrusive AVL tree as a value: the shape that the links of the nodes form, and what
    rotation, rebalancing, insertion and removal do to it. */
module AvlShape {

  /** A tree node; the key stands for the order given by the comparison callbacks. */
  class Node {
    const key: int
    var parent: Node?
    var left: Node?
    var right: Node?
    var height: int

    constructor (k: int)
      ensures key == k && parent == left == right == null
    {
      key, parent, left, right, height := k, null, null, null, 1;
    }
  }

  datatype Tree = Leaf | Fork(n: Node, l: Tree, r: Tree)

  ghost function Nodes(t: Tree): set<Node> {
    match t case Leaf => {} case Fork(n, l, r) => {n} + Nodes(l) + Nodes(r)
  }

  /** No node occurs twice. */
  ghost predicate Distinct(t: Tree) {
    t.Fork? ==> t.n !in Nodes(t.l) && t.n !in Nodes(t.r) && Nodes(t.l) !! Nodes(t.r) && Distinct(t.l) && Distinct(t.r)
  }

  function InOrder(t: Tree): seq<Node> {
    match t case Leaf => [] case Fork(n, l, r) => InOrder(l) + [n] + InOrder(r)
  }

  function H(t: Tree): (h: int)
    ensures h >= 0 && (h == 0 <==> t.Leaf?)
  {
    match t case Leaf => 0 case Fork(_, l, r) => 1 + if H(l) > H(r) then H(l) else H(r)
  }

  /** avltree_balance_factor */
  function Factor(t: Tree): int { if t.Leaf? then 0 else H(t.r) - H(t.l) }

  ghost predicate Balanced(t: Tree) {
    t.Fork? ==> -1 <= Factor(t) <= 1 && Balanced(t.l) && Balanced(t.r)
  }

  ghost predicate SortedSeq(s: seq<Node>) { forall i, j :: 0 <= i < j < |s| ==> s[i].key <= s[j].key }

  // ---- rotations and rebalancing ----

  function RotateLeft(t: Tree): Tree
    requires t.Fork? && t.r.Fork?
  {
    Fork(t.r.n, Fork(t.n, t.l, t.r.l), t.r.r)
  }

  function RotateRight(t: Tree): Tree
    requires t.Fork? && t.l.Fork?
  {
    Fork(t.l.n, t.l.l, Fork(t.n, t.l.r, t.r))
  }

  datatype Side = L | R

  function Child(t: Tree, side: Side): Tree
    requires t.Fork?
  {
    if side == L then t.l else t.r
  }

  function WithChild(t: Tree, side: Side, c: Tree): Tree
    requires t.Fork?
  {
    if side == L then t.(l := c) else t.(r := c)
  }

  /** avltree_rebalance: the factor of the child on `side`, heavy or not, picks the first rotation. */
  function Rebalance(t: Tree, side: Side): Tree
    requires t.Fork? && -2 <= Factor(t) <= 2
  {
    var c := Child(t, side);
    if Factor(t) == -2 then
      RotateRight(if Factor(c) > 0 then WithChild(t, side, RotateLeft(c)) else t)
    else if Factor(t) == 2 then
      RotateLeft(if Factor(c) < 0 then WithChild(t, side, RotateRight(c)) else t)
    else t
  }

  lemma RebalanceInOrder(t: Tree, side: Side)
    requires t.Fork? && -2 <= Factor(t) <= 2
    ensures InOrder(Rebalance(t, side)) == InOrder(t)
  {
    var c := Child(t, side);
    if Factor(t) == -2 {
      var u := if Factor(c) > 0 then WithChild(t, side, RotateLeft(c)) else t;
      if Factor(c) > 0 { RotateLeftInOrder(c); }
      RotateRightInOrder(u);
    } else if Factor(t) == 2 {
      var u := if Factor(c) < 0 then WithChild(t, side, RotateRight(c)) else t;
      if Factor(c) < 0 { RotateRightInOrder(c); }
      RotateLeftInOrder(u);
    }
  }

  lemma NodesFork(t: Tree)
    requires t.Fork?
    ensures t.n in Nodes(t) && Nodes(t.l) <= Nodes(t) && Nodes(t.r) <= Nodes(t)
    ensures Nodes(t) == {t.n} + Nodes(t.l) + Nodes(t.r)
  {
  }

  lemma InOrderFork(t: Tree)
    requires t.Fork?
    ensures InOrder(t) == InOrder(t.l) + [t.n] + InOrder(t.r)
  {
  }

  lemma Regroup(a: seq<Node>, x: Node, b: seq<Node>, y: Node, c: seq<Node>)
    ensures (a + [x] + b) + [y] + c == a + [x] + (b + [y] + c)
  {
  }

  lemma RotateLeftInOrder(t: Tree)
    requires t.Fork? && t.r.Fork?
    ensures InOrder(RotateLeft(t)) == InOrder(t)
  {
    hide InOrder;
    InOrderFork(t);
    InOrderFork(t.r);
    InOrderFork(RotateLeft(t));
    InOrderFork(RotateLeft(t).l);
    Regroup(InOrder(t.l), t.n, InOrder(t.r.l), t.r.n, InOrder(t.r.r));
  }

  lemma RotateRightInOrder(t: Tree)
    requires t.Fork? && t.l.Fork?
    ensures InOrder(RotateRight(t)) == InOrder(t)
  {
    hide InOrder;
    InOrderFork(t);
    InOrderFork(t.l);
    InOrderFork(RotateRight(t));
    InOrderFork(RotateRight(t).r);
    Regroup(InOrder(t.l.l), t.l.n, InOrder(t.l.r), t.n, InOrder(t.r));
  }

  lemma DistinctFork(t: Tree)
    requires t.Fork?
    ensures Distinct(t) <==> t.n !in Nodes(t.l) && t.n !in Nodes(t.r) && Nodes(t.l) !! Nodes(t.r) &&
                             Distinct(t.l) && Distinct(t.r)
  {
  }

  lemma RotateLeftNodes(t: Tree)
    requires t.Fork? && t.r.Fork?
    ensures Nodes(RotateLeft(t)) == Nodes(t)
    ensures Distinct(t) ==> Distinct(RotateLeft(t)) && Distinct(RotateLeft(t).l)
  {
    hide Nodes, Distinct;
    var t' := RotateLeft(t);
    NodesFork(t);
    NodesFork(t.r);
    NodesFork(t');
    NodesFork(t'.l);
    DistinctFork(t);
    DistinctFork(t.r);
    DistinctFork(t');
    DistinctFork(t'.l);
  }

  lemma RotateRightNodes(t: Tree)
    requires t.Fork? && t.l.Fork?
    ensures Nodes(RotateRight(t)) == Nodes(t)
    ensures Distinct(t) ==> Distinct(RotateRight(t)) && Distinct(RotateRight(t).r)
  {
    hide Nodes, Distinct;
    var t' := RotateRight(t);
    NodesFork(t);
    NodesFork(t.l);
    NodesFork(t');
    NodesFork(t'.r);
    DistinctFork(t);
    DistinctFork(t.l);
    DistinctFork(t');
    DistinctFork(t'.r);
  }

  lemma HeightFork(t: Tree)
    requires t.Fork?
    ensures H(t) == 1 + (if H(t.l) > H(t.r) then H(t.l) else H(t.r)) && Factor(t) == H(t.r) - H(t.l)
    ensures Balanced(t) <==> -1 <= H(t.r) - H(t.l) <= 1 && Balanced(t.l) && Balanced(t.r)
  {
  }

  /** Heights and balance of a right rotation, of which only the two top nodes change. */
  lemma RotateRightHeights(t: Tree)
    requires t.Fork? && t.l.Fork?
    ensures var t' := RotateRight(t);
      && H(t'.r) == 1 + (if H(t.l.r) > H(t.r) then H(t.l.r) else H(t.r))
      && H(t') == 1 + (if H(t.l.l) > H(t'.r) then H(t.l.l) else H(t'.r))
      && (Balanced(t') <==> -1 <= H(t'.r) - H(t.l.l) <= 1 && -1 <= H(t.r) - H(t.l.r) <= 1 &&
                            Balanced(t.l.l) && Balanced(t.l.r) && Balanced(t.r))
  {
    hide H, Balanced;
    HeightFork(RotateRight(t));
    HeightFork(RotateRight(t).r);
  }

  lemma RotateLeftHeights(t: Tree)
    requires t.Fork? && t.r.Fork?
    ensures var t' := RotateLeft(t);
      && H(t'.l) == 1 + (if H(t.r.l) > H(t.l) then H(t.r.l) else H(t.l))
      && H(t') == 1 + (if H(t.r.r) > H(t'.l) then H(t.r.r) else H(t'.l))
      && (Balanced(t') <==> -1 <= H(t.r.r) - H(t'.l) <= 1 && -1 <= H(t.r.l) - H(t.l) <= 1 &&
                            Balanced(t.l) && Balanced(t.r.l) && Balanced(t.r.r))
  {
    hide H, Balanced;
    HeightFork(RotateLeft(t));
    HeightFork(RotateLeft(t).l);
  }

  /** Left-heavy by two after the left child grew: one or two rotations restore the balance. */
  lemma HeavyLeft(t: Tree)
    requires t.Fork? && Factor(t) == -2 && Balanced(t.l) && Balanced(t.r) && Factor(t.l) != 0
    ensures Balanced(Rebalance(t, L)) && H(Rebalance(t, L)) == H(t) - 1 && Factor(Rebalance(t, L)) == 0
  {
    hide H, Balanced;
    var l := t.l;
    HeightFork(t);
    HeightFork(l);
    HeightFork(Rebalance(t, L));
    if Factor(l) > 0 {
      var u := t.(l := RotateLeft(l));
      HeightFork(l.r);
      RotateLeftHeights(l);
      HeightFork(u);
      HeightFork(u.l);
      HeightFork(u.l.l);
      RotateRightHeights(u);
    } else {
      RotateRightHeights(t);
    }
  }

  lemma HeavyRight(t: Tree)
    requires t.Fork? && Factor(t) == 2 && Balanced(t.l) && Balanced(t.r) && Factor(t.r) != 0
    ensures Balanced(Rebalance(t, R)) && H(Rebalance(t, R)) == H(t) - 1 && Factor(Rebalance(t, R)) == 0
  {
    hide H, Balanced;
    var r := t.r;
    HeightFork(t);
    HeightFork(r);
    HeightFork(Rebalance(t, R));
    if Factor(r) < 0 {
      var u := t.(r := RotateRight(r));
      HeightFork(r.l);
      RotateRightHeights(r);
      HeightFork(u);
      HeightFork(u.r);
      HeightFork(u.r.r);
      RotateLeftHeights(u);
    } else {
      RotateLeftHeights(t);
    }
  }

  // ---- insertion ----

  function Insert(t: Tree, x: Node): Tree {
    match t
    case Leaf => Fork(x, Leaf, Leaf)
    case Fork(n, l, r) =>
      var side := if x.key < n.key then L else R;
      var t' := WithChild(t, side, Insert(Child(t, side), x));
      if -2 <= Factor(t') <= 2 then Rebalance(t', side) else t'
  }

  /** Insertion into an AVL tree gives an AVL tree that is at most one level higher; a subtree that
      grew and was not empty leans to one side, so that one rebalancing is enough. */
  lemma {:induction false} InsertBalanced(t: Tree, x: Node)
    requires Balanced(t)
    ensures Balanced(Insert(t, x)) && H(t) <= H(Insert(t, x)) <= H(t) + 1 && Insert(t, x).Fork?
    ensures t.Fork? && H(Insert(t, x)) == H(t) + 1 ==> Factor(Insert(t, x)) != 0
    ensures t.Fork? ==> var side := if x.key < t.n.key then L else R;
              -2 <= Factor(WithChild(t, side, Insert(Child(t, side), x))) <= 2
  {
    if t.Fork? {
      hide Rebalance, H, Balanced;
      var side := if x.key < t.n.key then L else R;
      var c := Child(t, side);
      InsertBalanced(c, x);
      var t' := WithChild(t, side, Insert(c, x));
      HeightFork(t);
      HeightFork(t');
      HeightFork(Insert(c, x));
      assert Balanced(t'.l) && Balanced(t'.r);
      if Factor(t') == -2 {
        HeavyLeft(t');
      } else if Factor(t') == 2 {
        HeavyRight(t');
      } else {
        RebalanceStays(t', side);
      }
    }
  }

  lemma RebalanceStays(t: Tree, side: Side)
    requires t.Fork? && -1 <= Factor(t) <= 1
    ensures Rebalance(t, side) == t
  {
  }

  /** The in-order sequence gets the new node after all elements not greater than it. */
  lemma {:induction false} InsertInOrder(t: Tree, x: Node) returns (p: nat)
    requires SortedSeq(InOrder(t))
    ensures var s := InOrder(t);
      && p <= |s| && InOrder(Insert(t, x)) == s[..p] + [x] + s[p..]
      && (forall i :: 0 <= i < p ==> s[i].key <= x.key) && (forall i :: p <= i < |s| ==> s[i].key > x.key)
  {
    hide InOrder, Rebalance;
    LeafInOrder();
    if t.Leaf? {
      p := 0;
      InOrderFork(Fork(x, Leaf, Leaf));
      assert [][..0] + [x] + [][0..] == [] + [x] + [];
    } else {
      var a, n, b := InOrder(t.l), t.n, InOrder(t.r);
      var side := if x.key < n.key then L else R;
      var t' := WithChild(t, side, Insert(Child(t, side), x));
      InOrderFork(t);
      InOrderFork(t');
      SortedParts(a, n, b);
      if -2 <= Factor(t') <= 2 { RebalanceInOrder(t', side); }
      if side == L {
        p := InsertInOrder(t.l, x);
        InsertLeftOf(a, n, b, x, p);
      } else {
        var q := InsertInOrder(t.r, x);
        p := |a| + 1 + q;
        InsertRightOf(a, n, b, x, q);
      }
    }
  }

  lemma SortedParts(a: seq<Node>, n: Node, b: seq<Node>)
    requires SortedSeq(a + [n] + b)
    ensures SortedSeq(a) && SortedSeq(b)
    ensures (forall i :: 0 <= i < |a| ==> a[i].key <= n.key) && (forall i :: 0 <= i < |b| ==> n.key <= b[i].key)
  {
    var s := a + [n] + b;
    assert s[|a|] == n;
    forall i, j | 0 <= i < j < |a| ensures a[i].key <= a[j].key { assert s[i].key <= s[j].key; }
    forall i, j | 0 <= i < j < |b| ensures b[i].key <= b[j].key { assert s[|a| + 1 + i].key <= s[|a| + 1 + j].key; }
    forall i | 0 <= i < |a| ensures a[i].key <= n.key { assert s[i].key <= s[|a|].key; }
    forall i | 0 <= i < |b| ensures n.key <= b[i].key { assert s[|a|].key <= s[|a| + 1 + i].key; }
  }

  lemma InsertLeftOf(a: seq<Node>, n: Node, b: seq<Node>, x: Node, p: nat)
    requires p <= |a| && x.key < n.key && (forall i :: 0 <= i < |b| ==> n.key <= b[i].key)
    requires (forall i :: 0 <= i < p ==> a[i].key <= x.key) && (forall i :: p <= i < |a| ==> a[i].key > x.key)
    ensures var s := a + [n] + b;
      && (a[..p] + [x] + a[p..]) + [n] + b == s[..p] + [x] + s[p..]
      && (forall i :: 0 <= i < p ==> s[i].key <= x.key) && (forall i :: p <= i < |s| ==> s[i].key > x.key)
  {
  }

  lemma InsertRightOf(a: seq<Node>, n: Node, b: seq<Node>, x: Node, q: nat)
    requires q <= |b| && x.key >= n.key && (forall i :: 0 <= i < |a| ==> a[i].key <= n.key)
    requires (forall i :: 0 <= i < q ==> b[i].key <= x.key) && (forall i :: q <= i < |b| ==> b[i].key > x.key)
    ensures var s := a + [n] + b; var p := |a| + 1 + q;
      && a + [n] + (b[..q] + [x] + b[q..]) == s[..p] + [x] + s[p..]
      && (forall i :: 0 <= i < p ==> s[i].key <= x.key) && (forall i :: p <= i < |s| ==> s[i].key > x.key)
  {
    var s, p := a + [n] + b, |a| + 1 + q;
    assert s[..p] == a + [n] + b[..q] && s[p..] == b[q..];
  }

  lemma InsertSorted(t: Tree, x: Node)
    requires SortedSeq(InOrder(t))
    ensures SortedSeq(InOrder(Insert(t, x)))
  {
    hide InOrder, Insert;
    var p := InsertInOrder(t, x);
  }

  // ---- height is logarithmic ----

  function Pow2(n: nat): nat { if n == 0 then 1 else 2 * Pow2(n - 1) }

  function Size(t: Tree): nat { if t.Leaf? then 0 else 1 + Size(t.l) + Size(t.r) }

  lemma {:induction false} HeightBySize(t: Tree)
    requires Balanced(t)
    ensures Pow2(H(t) / 2) <= Size(t) + 1
  {
    hide H, Balanced;
    if t.Fork? {
      HeightFork(t);
      HeightBySize(t.l);
      HeightBySize(t.r);
      var a, b := H(t.l), H(t.r);
      var m := if a > b then b else a;
      PowMono(m / 2, a / 2);
      PowMono(m / 2, b / 2);
      PowMono(H(t) / 2, m / 2 + 1);
    }
  }

  lemma {:induction false} SizeIsLength(t: Tree)
    ensures Size(t) == |InOrder(t)|
  {
    if t.Fork? {
      SizeIsLength(t.l);
      SizeIsLength(t.r);
    }
  }

  /** An AVL tree of height h holds at least 2^(h/2) - 1 elements. */
  lemma HeightLogarithmic(t: Tree)
    requires Balanced(t)
    ensures Pow2(H(t) / 2) <= |InOrder(t)| + 1
  {
    HeightBySize(t);
    SizeIsLength(t);
  }

  lemma {:induction false} PowMono(a: nat, b: nat)
    requires a <= b
    ensures Pow2(a) <= Pow2(b)
    decreases b
  {
    if a < b { PowMono(a, b - 1); }
  }

  // ---- removal ----

  /** avltree_leftest_subnode */
  function Leftmost(t: Tree): Node
    requires t.Fork?
  {
    if t.l.Leaf? then t.n else Leftmost(t.l)
  }

  /** The side that removal searches: right on equal keys. */
  function SearchSide(t: Tree, x: Node): Side
    requires t.Fork?
  {
    if x.key < t.n.key then L else R
  }

  function Settle(t: Tree, side: Side): Tree
    requires t.Fork?
  {
    if -2 <= Factor(t) <= 2 then Rebalance(t, side) else t
  }

  /** avltree_remove_helper: whether the node was found, and the tree left. */
  function Remove(t: Tree, x: Node): (bool, Tree) {
    match t
    case Leaf => (false, t)
    case Fork(n, l, r) =>
      if n == x then
        if r.Leaf? then (true, l)
        else if l.Leaf? then (true, r)
        else
          var m := Leftmost(r);
          (true, Settle(Fork(m, l, Remove(r, m).1), R))
      else
        var side := SearchSide(t, x);
        var (found, c) := Remove(Child(t, side), x);
        if found then (true, Settle(WithChild(t, side, c), side)) else (false, t)
  }

  lemma SettleInOrder(t: Tree, side: Side)
    requires t.Fork?
    ensures InOrder(Settle(t, side)) == InOrder(t)
  {
    if -2 <= Factor(t) <= 2 { RebalanceInOrder(t, side); }
  }

  ghost predicate StrictlySorted(s: seq<Node>) { forall i, j :: 0 <= i < j < |s| ==> s[i].key < s[j].key }

  lemma StrictParts(a: seq<Node>, n: Node, b: seq<Node>)
    requires StrictlySorted(a + [n] + b)
    ensures StrictlySorted(a) && StrictlySorted(b)
    ensures (forall y :: y in a ==> y.key < n.key) && (forall y :: y in b ==> n.key < y.key)
  {
    var s := a + [n] + b;
    assert s[|a|] == n;
    forall i, j | 0 <= i < j < |a| ensures a[i].key < a[j].key { assert s[i].key < s[j].key; }
    forall i, j | 0 <= i < j < |b| ensures b[i].key < b[j].key { assert s[|a| + 1 + i].key < s[|a| + 1 + j].key; }
    forall i | 0 <= i < |a| ensures a[i].key < n.key { assert s[i].key < s[|a|].key; }
    forall i | 0 <= i < |b| ensures n.key < b[i].key { assert s[|a|].key < s[|a| + 1 + i].key; }
  }

  /** `s` without its element `x`. */
  function Minus(s: seq<Node>, x: Node): seq<Node> {
    if s == [] then [] else if s[0] == x then s[1..] else [s[0]] + Minus(s[1..], x)
  }

  lemma MinusCons(h: Node, s: seq<Node>, x: Node)
    ensures Minus([h] + s, x) == if h == x then s else [h] + Minus(s, x)
    ensures x in [h] + s <==> x == h || x in s
  {
    assert ([h] + s)[1..] == s;
  }

  lemma HeadFirst(h: Node, s: seq<Node>, t: seq<Node>)
    ensures [h] + (s + t) == [h] + s + t
  {
  }

  lemma {:induction false} MinusConcat(a: seq<Node>, b: seq<Node>, x: Node)
    ensures Minus(a + b, x) == if x in a then Minus(a, x) + b else a + Minus(b, x)
  {
    if a == [] {
      assert a + b == b && a + Minus(b, x) == Minus(b, x);
    } else {
      hide Minus;
      var h, t := a[0], a[1..];
      assert a == [h] + t;
      HeadFirst(h, t, b);
      MinusCons(h, t, x);
      MinusCons(h, t + b, x);
      MinusConcat(t, b, x);
      HeadFirst(h, Minus(t, x), b);
      HeadFirst(h, t, Minus(b, x));
    }
  }

  lemma {:induction false} LeftmostFirst(t: Tree)
    requires t.Fork?
    ensures InOrder(t) != [] && InOrder(t)[0] == Leftmost(t)
  {
    if t.l.Fork? { LeftmostFirst(t.l); }
  }

  /** Where an element of a strictly sorted sequence is, and what is left without it. */
  lemma MinusParts(a: seq<Node>, n: Node, b: seq<Node>, x: Node)
    requires StrictlySorted(a + [n] + b)
    ensures StrictlySorted(a) && StrictlySorted(b)
    ensures x == n ==> x in a + [n] + b && Minus(a + [n] + b, x) == a + b
    ensures x != n && x.key < n.key ==>
      (x in a + [n] + b <==> x in a) && (x in a ==> Minus(a + [n] + b, x) == Minus(a, x) + [n] + b)
    ensures x != n && x.key >= n.key ==>
      (x in a + [n] + b <==> x in b) && (x in b ==> Minus(a + [n] + b, x) == a + [n] + Minus(b, x))
  {
    hide StrictlySorted;
    StrictParts(a, n, b);
    MinusConcat(a + [n], b, x);
    MinusConcat(a, [n], x);
  }

  /** With distinct keys, removal finds every node of the tree and takes exactly it out. */
  lemma {:induction false} RemoveInOrder(t: Tree, x: Node)
    requires StrictlySorted(InOrder(t))
    ensures Remove(t, x).0 <==> x in InOrder(t)
    ensures InOrder(Remove(t, x).1) == if x in InOrder(t) then Minus(InOrder(t), x) else InOrder(t)
    decreases t, 1
  {
    hide InOrder, Settle, Minus, StrictlySorted;
    LeafInOrder();
    if t.Fork? {
      InOrderFork(t);
      MinusParts(InOrder(t.l), t.n, InOrder(t.r), x);
      if t.n == x {
        RemoveTop(t);
      } else {
        var side := SearchSide(t, x);
        RemoveInOrder(Child(t, side), x);
        var t' := WithChild(t, side, Remove(Child(t, side), x).1);
        InOrderFork(t');
        SettleInOrder(t', side);
      }
    }
  }

  lemma {:induction false} RemoveTop(t: Tree)
    requires t.Fork? && StrictlySorted(InOrder(t))
    ensures InOrder(Remove(t, t.n).1) == InOrder(t.l) + InOrder(t.r)
    decreases t, 0
  {
    hide InOrder, Settle;
    var l, r := t.l, t.r;
    InOrderFork(t);
    StrictParts(InOrder(l), t.n, InOrder(r));
    LeafInOrder();
    if l.Fork? && r.Fork? {
      var m := Leftmost(r);
      LeftmostFirst(r);
      RemoveInOrder(r, m);
      var t' := Fork(m, l, Remove(r, m).1);
      InOrderFork(t');
      SettleInOrder(t', R);
      MinusFirst(InOrder(r));
    }
  }

  lemma LeafInOrder()
    ensures InOrder(Leaf) == []
  {
  }

  lemma MinusFirst(s: seq<Node>)
    requires s != []
    ensures s[0] in s && [s[0]] + Minus(s, s[0]) == s
  {
  }

  // ---- what removal does to heights and balance ----

  /** The child on the other side. */
  function Other(side: Side): Side { if side == L then R else L }

  /** A node whose child on `side` lost at most one level, over a balanced other child. */
  ghost predicate Shrunk(t: Tree, side: Side, before: int) {
    && t.Fork? && Balanced(Child(t, Other(side)))
    && before - 1 <= H(Child(t, side)) <= before
    && -1 <= before - H(Child(t, Other(side))) <= 1
  }

  function Taller(a: int, b: int): int { if a > b then a else b }

  lemma RotatedChildHeight(c: Tree)
    requires c.Fork?
    ensures Factor(c) > 0 ==> c.r.Fork? && H(c) - 1 <= H(RotateLeft(c)) <= H(c)
    ensures Factor(c) < 0 ==> c.l.Fork? && H(c) - 1 <= H(RotateRight(c)) <= H(c)
  {
    hide Balanced;
    if Factor(c) > 0 {
      HeightFork(c.r);
      RotateLeftHeights(c);
    }
    if Factor(c) < 0 {
      HeightFork(c.l);
      RotateRightHeights(c);
    }
  }

  /** After a removal below, the factors stay within two and the height drops by at most one. */
  lemma ShrunkHeight(t: Tree, side: Side, before: int)
    requires Shrunk(t, side, before)
    ensures -2 <= Factor(t) <= 2 && Settle(t, side) == Rebalance(t, side)
    ensures var h := 1 + Taller(before, H(Child(t, Other(side))));
      h - 1 <= H(Settle(t, side)) <= h
  {
    hide H, Balanced;
    HeightFork(t);
    var c, o := Child(t, side), Child(t, Other(side));
    if Factor(t) == -2 {
      HeightFork(o);
      if c.Fork? { RotatedChildHeight(c); }
      var u := if Factor(c) > 0 then t.(r := RotateLeft(c)) else t;
      RotateRightHeights(u);
    } else if Factor(t) == 2 {
      HeightFork(o);
      if c.Fork? { RotatedChildHeight(c); }
      var u := if Factor(c) < 0 then t.(l := RotateRight(c)) else t;
      RotateLeftHeights(u);
    }
  }

  lemma {:induction false} RemoveHeight(t: Tree, x: Node)
    requires Balanced(t)
    ensures H(t) - 1 <= H(Remove(t, x).1) <= H(t)
    ensures !Remove(t, x).0 ==> Remove(t, x).1 == t
    ensures t.Fork? ==> var (u, side) := RemoveStep(t, x); u.Fork? ==> Shrunk(u, side, H(Child(t, side)))
  {
    hide Settle, Balanced, H;
    if t.Fork? {
      HeightFork(t);
      var side := if t.n == x then R else SearchSide(t, x);
      if t.n == x {
        if t.r.Fork? { RemoveHeight(t.r, Leftmost(t.r)); }
      } else {
        RemoveHeight(Child(t, side), x);
      }
      var (u, s) := RemoveStep(t, x);
      if u.Fork? { ShrunkHeight(u, side, H(Child(t, side))); }
    }
  }

  /** The tree and side that removal rebalances at the top, or a leaf if it does not. */
  function RemoveStep(t: Tree, x: Node): (Tree, Side)
    requires t.Fork?
  {
    if t.n == x then
      if t.l.Fork? && t.r.Fork? then (Fork(Leftmost(t.r), t.l, Remove(t.r, Leftmost(t.r)).1), R) else (Leaf, R)
    else
      var side := SearchSide(t, x);
      var (found, c) := Remove(Child(t, side), x);
      if found then (WithChild(t, side, c), side) else (Leaf, R)
  }

  lemma RemoveByStep(t: Tree, x: Node)
    requires t.Fork?
    ensures var (u, side) := RemoveStep(t, x); u.Fork? ==> Remove(t, x) == (true, Settle(u, side))
    ensures RemoveStep(t, x).0.Leaf? ==> Remove(t, x).1 in {t, t.l, t.r}
  {
  }

  /** The rotations chosen from the shrunk child are the right ones: the heavy child does not lean
      inwards, and a shrunk child that leans outwards does so at its own child too. */
  ghost predicate SafeSettle(t: Tree, side: Side) {
    if t.Leaf? then true
    else if Factor(t) == -2 then
      Factor(t.l) <= 0 && (Factor(t.r) > 0 ==> Factor(t.r.r) >= 0)
    else if Factor(t) == 2 then
      Factor(t.r) >= 0 && (Factor(t.l) < 0 ==> Factor(t.l.l) <= 0)
    else true
  }

  /** SafeSettle at every level that the removal rebalances. */
  ghost predicate SafeRemove(t: Tree, x: Node) {
    t.Fork? ==>
      && (if t.n == x then t.l.Fork? && t.r.Fork? ==> SafeRemove(t.r, Leftmost(t.r))
          else SafeRemove(Child(t, SearchSide(t, x)), x))
      && SafeSettle(RemoveStep(t, x).0, RemoveStep(t, x).1)
  }

  /** A shrunk, balanced child: balance after rebalancing is exactly SafeSettle. */
  lemma SettleBalancedIff(t: Tree, side: Side, before: int)
    requires Shrunk(t, side, before) && Balanced(Child(t, side))
    ensures Balanced(Settle(t, side)) <==> SafeSettle(t, side)
  {
    hide H, Balanced;
    ShrunkHeight(t, side, before);
    HeightFork(t);
    var c, o := Child(t, side), Child(t, Other(side));
    if Factor(t) == -2 {
      HeightFork(o);
      if c.Fork? { HeightFork(c); }
      if Factor(c) > 0 {
        HeightFork(c.r);
        RotateLeftHeights(c);
        HeightFork(RotateLeft(c));
      }
      RotateRightHeights(if Factor(c) > 0 then t.(r := RotateLeft(c)) else t);
    } else if Factor(t) == 2 {
      HeightFork(o);
      if c.Fork? { HeightFork(c); }
      if Factor(c) < 0 {
        HeightFork(c.l);
        RotateRightHeights(c);
        HeightFork(RotateRight(c));
      }
      RotateLeftHeights(if Factor(c) < 0 then t.(l := RotateRight(c)) else t);
    }
  }

  // ---- an imbalance left by a removal is not repaired further up ----

  ghost predicate KidBad(c: Tree) { c.Fork? && (!Balanced(c.l) || !Balanced(c.r)) }

  ghost predicate GrandBad(t: Tree) { t.Fork? && (KidBad(t.l) || KidBad(t.r)) }

  /** Unbalanced at unchanged height, or below the reach of the next rotations. */
  ghost predicate Bad(t: Tree, h: int) { (H(t) == h && !Balanced(t)) || GrandBad(t) }

  lemma KidBadUnbalanced(c: Tree)
    requires c.Fork?
    ensures KidBad(c) ==> !Balanced(c)
    ensures GrandBad(c) ==> KidBad(c)
  {
  }

  lemma RotatedBad(c: Tree)
    requires GrandBad(c)
    ensures Factor(c) > 0 ==> c.r.Fork? && !Balanced(RotateLeft(c))
    ensures Factor(c) < 0 ==> c.l.Fork? && !Balanced(RotateRight(c))
  {
    hide H, Balanced;
    HeightFork(c);
    if c.l.Fork? { HeightFork(c.l); }
    if c.r.Fork? { HeightFork(c.r); }
    if Factor(c) > 0 { RotateLeftHeights(c); }
    if Factor(c) < 0 { RotateRightHeights(c); }
  }

  lemma BadChild(t: Tree, side: Side, before: int)
    requires Shrunk(t, side, before) && Bad(Child(t, side), before)
    ensures Bad(Settle(t, side), 1 + Taller(before, H(Child(t, Other(side)))))
  {
    hide H, Balanced, GrandBad, KidBad;
    ShrunkHeight(t, side, before);
    HeightFork(t);
    var c, o := Child(t, side), Child(t, Other(side));
    if c.Fork? { KidBadUnbalanced(c); }
    LeafFine();
    if GrandBad(c) { RotatedBad(c); }
    if Factor(t) == -2 {
      HeightFork(o);
      GrandOfRight(if Factor(c) > 0 then t.(r := RotateLeft(c)) else t);
    } else if Factor(t) == 2 {
      HeightFork(o);
      GrandOfLeft(if Factor(c) < 0 then t.(l := RotateRight(c)) else t);
    } else {
      GrandOfChild(t, side);
    }
  }

  lemma LeafFine()
    ensures Balanced(Leaf) && !GrandBad(Leaf)
  {
  }

  lemma GrandOfChild(t: Tree, side: Side)
    requires t.Fork?
    ensures KidBad(Child(t, side)) ==> GrandBad(t)
  {
  }

  lemma GrandOfRight(u: Tree)
    requires u.Fork? && u.l.Fork?
    ensures !Balanced(u.r) ==> GrandBad(RotateRight(u))
  {
  }

  lemma GrandOfLeft(u: Tree)
    requires u.Fork? && u.r.Fork?
    ensures !Balanced(u.l) ==> GrandBad(RotateLeft(u))
  {
  }

  /** Where SafeSettle fails, the rebalancing itself leaves an imbalance. */
  lemma BadHere(t: Tree, side: Side, before: int)
    requires Shrunk(t, side, before) && Balanced(Child(t, side)) && !SafeSettle(t, side)
    ensures Bad(Settle(t, side), 1 + Taller(before, H(Child(t, Other(side)))))
  {
    hide H, Balanced, GrandBad, KidBad;
    SettleBalancedIff(t, side, before);
    ShrunkHeight(t, side, before);
    HeightFork(t);
    var c, o := Child(t, side), Child(t, Other(side));
    HeightFork(o);
    if c.Fork? { HeightFork(c); }
    if Factor(t) == -2 {
      var u := if Factor(c) > 0 then t.(r := RotateLeft(c)) else t;
      if Factor(c) > 0 {
        HeightFork(c.r);
        RotateLeftHeights(c);
      }
      RotateRightHeights(u);
      GrandOfRight(u);
    } else {
      var u := if Factor(c) < 0 then t.(l := RotateRight(c)) else t;
      if Factor(c) < 0 {
        HeightFork(c.l);
        RotateRightHeights(c);
      }
      RotateLeftHeights(u);
      GrandOfLeft(u);
    }
  }

  lemma {:induction false} RemoveGoodOrBad(t: Tree, x: Node)
    requires Balanced(t)
    ensures SafeRemove(t, x) ==> Balanced(Remove(t, x).1)
    ensures !SafeRemove(t, x) ==> Bad(Remove(t, x).1, H(t))
  {
    hide H, Balanced, Bad, SafeSettle, Settle, Shrunk;
    if t.Fork? {
      HeightFork(t);
      RemoveHeight(t, x);
      RemoveByStep(t, x);
      var (u, side) := RemoveStep(t, x);
      if t.n == x {
        if t.l.Fork? && t.r.Fork? { RemoveGoodOrBad(t.r, Leftmost(t.r)); }
      } else {
        RemoveGoodOrBad(Child(t, SearchSide(t, x)), x);
        NotFoundSafe(Child(t, SearchSide(t, x)), x);
      }
      LeafSafe();
      if u.Fork? {
        var before := H(Child(t, side));
        StepBad(u, side, before);
      }
    }
  }

  lemma LeafSafe()
    ensures SafeSettle(Leaf, R)
  {
  }

  lemma StepBad(u: Tree, side: Side, before: int)
    requires Shrunk(u, side, before)
    ensures Bad(Child(u, side), before) ==> Bad(Settle(u, side), 1 + Taller(before, H(Child(u, Other(side)))))
    ensures Balanced(Child(u, side)) ==>
      if SafeSettle(u, side) then Balanced(Settle(u, side))
      else Bad(Settle(u, side), 1 + Taller(before, H(Child(u, Other(side)))))
  {
    hide H, Balanced, Bad, SafeSettle, Settle;
    if Bad(Child(u, side), before) { BadChild(u, side, before); }
    if Balanced(Child(u, side)) {
      SettleBalancedIff(u, side, before);
      if !SafeSettle(u, side) { BadHere(u, side, before); }
    }
  }

  lemma {:induction false} NotFoundSafe(t: Tree, x: Node)
    ensures !Remove(t, x).0 ==> SafeRemove(t, x)
  {
    if t.Fork? && t.n != x { NotFoundSafe(Child(t, SearchSide(t, x)), x); }
  }

  /** Removal from an AVL tree leaves an AVL tree exactly when every rebalancing on its way was
      safe to choose from the shrunk child. */
  lemma RemoveBalancedIff(t: Tree, x: Node)
    requires Balanced(t)
    ensures Balanced(Remove(t, x).1) <==> SafeRemove(t, x)
  {
    hide H, SafeRemove;
    RemoveGoodOrBad(t, x);
    var t' := Remove(t, x).1;
    if t'.Fork? { KidBadUnbalanced(t'); } else { LeafFine(); }
  }

  function One(n: Node): Tree { Fork(n, Leaf, Leaf) }

  lemma HeightOne(n: Node, m: Node)
    ensures H(Leaf) == 0 && H(One(n)) == 1 && H(Fork(n, Leaf, One(m))) == 2 && H(Fork(n, One(m), Leaf)) == 2
    ensures Balanced(One(n)) && Balanced(Fork(n, Leaf, One(m))) && Balanced(Fork(n, One(m), Leaf))
  {
    assert H(One(n)) == 1 && H(One(m)) == 1;
  }

  lemma InsertSmall(n: Node, x: Node)
    ensures Insert(Leaf, x) == One(x)
    ensures x.key < n.key ==> Insert(One(n), x) == Fork(n, One(x), Leaf)
    ensures x.key >= n.key ==> Insert(One(n), x) == Fork(n, Leaf, One(x))
  {
    hide H;
    HeightOne(n, x);
    assert Insert(Leaf, x) == One(x);
  }

  /** Four nodes are enough for a removal that loses the balance. */
  lemma RemovalUnbalances(a: Node, b: Node, c: Node, d: Node)
    requires a.key < b.key < c.key < d.key
    ensures var t := Fork(c, Fork(a, Leaf, One(b)), One(d));
      && Balanced(t) && t == Insert(Insert(Insert(Insert(Leaf, c), a), d), b)
      && Remove(t, d) == (true, Fork(a, Leaf, Fork(c, One(b), Leaf))) && !Balanced(Remove(t, d).1)
  {
    hide H, Balanced;
    var t := Fork(c, Fork(a, Leaf, One(b)), One(d));
    HeightOne(a, b);
    HeightOne(c, a);
    HeightOne(c, b);
    HeightOne(d, d);
    HeightFork(t);
    InsertSmall(c, c);
    InsertSmall(c, a);
    InsertSmall(c, d);
    InsertSmall(a, b);
    assert Insert(Fork(c, One(a), Leaf), d) == Fork(c, One(a), One(d));
    assert Insert(Fork(c, One(a), One(d)), b) == t;
    var u := t.(r := Leaf);
    HeightFork(u);
    assert Remove(One(d), d) == (true, Leaf);
    assert Remove(t, d) == (true, RotateRight(u));
    HeightFork(RotateRight(u));
  }

  // ---- what the code takes for granted: no factor beyond two, and the successor is found ----

  ghost predicate InsertFits(t: Tree, x: Node) {
    t.Fork? ==>
      var side := SearchSide(t, x);
      InsertFits(Child(t, side), x) && -2 <= Factor(WithChild(t, side, Insert(Child(t, side), x))) <= 2
  }

  ghost predicate RemoveFits(t: Tree, x: Node) {
    t.Fork? ==>
      && (if t.n != x then RemoveFits(Child(t, SearchSide(t, x)), x)
          else t.l.Fork? && t.r.Fork? ==> RemoveFits(t.r, Leftmost(t.r)) && Remove(t.r, Leftmost(t.r)).0)
      && -2 <= Factor(RemoveStep(t, x).0) <= 2
  }

  lemma {:induction false} InsertFitsAvl(t: Tree, x: Node)
    requires Balanced(t)
    ensures InsertFits(t, x)
  {
    hide Insert, H;
    InsertBalanced(t, x);
    if t.Fork? { InsertFitsAvl(Child(t, SearchSide(t, x)), x); }
  }

  /** An AVL tree with distinct keys meets every assumption of the removal. */
  lemma {:induction false} RemoveFitsAvl(t: Tree, x: Node)
    requires Balanced(t) && StrictlySorted(InOrder(t))
    ensures RemoveFits(t, x)
  {
    hide H, Balanced, InOrder, Remove, Settle, StrictlySorted, Shrunk;
    if t.Fork? {
      HeightFork(t);
      InOrderFork(t);
      StrictParts(InOrder(t.l), t.n, InOrder(t.r));
      RemoveHeight(t, x);
      var (u, side) := RemoveStep(t, x);
      if u.Fork? { ShrunkHeight(u, side, H(Child(t, side))); }
      if t.n != x {
        RemoveFitsAvl(Child(t, SearchSide(t, x)), x);
      } else if t.r.Fork? {
        var m := Leftmost(t.r);
        RemoveFitsAvl(t.r, m);
        LeftmostFirst(t.r);
        RemoveInOrder(t.r, m);
      }
    }
  }

  /** One level of an insertion that needs no rotation. */
  lemma InsertStays(t: Tree, x: Node, c: Tree)
    requires t.Fork? && c == Insert(Child(t, SearchSide(t, x)), x)
    ensures var t' := WithChild(t, SearchSide(t, x), c);
      -1 <= Factor(t') <= 1 ==> Insert(t, x) == t'
  {
  }

  /** Seven nodes, in the order e, b, f, a, c, g, d. */
  function Seven(a: Node, b: Node, c: Node, d: Node, e: Node, f: Node, g: Node): Tree {
    Fork(e, Fork(b, One(a), Fork(c, Leaf, One(d))), Fork(f, Leaf, One(g)))
  }

  lemma SevenHeights(a: Node, b: Node, c: Node, d: Node, e: Node, f: Node, g: Node)
    ensures Balanced(Seven(a, b, c, d, e, f, g)) && H(Fork(b, One(a), Fork(c, Leaf, One(d)))) == 3
    ensures H(Fork(b, One(a), One(c))) == 2 && Balanced(Fork(b, One(a), One(c)))
  {
    hide H, Balanced;
    HeightOne(a, a);
    HeightOne(b, a);
    HeightOne(c, d);
    HeightOne(f, g);
    HeightFork(Fork(b, One(a), One(c)));
    HeightFork(Fork(b, One(a), Fork(c, Leaf, One(d))));
    HeightFork(Seven(a, b, c, d, e, f, g));
  }

  lemma InsertSeven(a: Node, b: Node, c: Node, d: Node, e: Node, f: Node, g: Node)
    requires a.key < b.key < c.key < d.key < e.key < f.key < g.key
    ensures Seven(a, b, c, d, e, f, g) ==
      Insert(Insert(Insert(Insert(Insert(Insert(Insert(Leaf, e), b), f), a), c), g), d)
  {
    hide H, Balanced, Insert, Rebalance;
    HeightOne(a, a);
    HeightOne(b, a);
    HeightOne(c, d);
    HeightOne(f, g);
    HeightOne(e, b);
    SevenHeights(a, b, c, d, e, f, g);
    InsertSmall(e, e);
    InsertSmall(e, b);
    InsertSmall(e, f);
    InsertSmall(b, a);
    InsertSmall(b, c);
    InsertSmall(f, g);
    InsertSmall(c, d);
    var l1, l2, l3 := Fork(b, One(a), Leaf), Fork(b, One(a), One(c)), Fork(b, One(a), Fork(c, Leaf, One(d)));
    var r2 := Fork(f, Leaf, One(g));
    InsertStays(Fork(e, One(b), Leaf), f, One(f));
    InsertStays(Fork(e, One(b), One(f)), a, l1);
    HeightFork(l1);
    InsertStays(l1, c, One(c));
    InsertStays(Fork(e, l1, One(f)), c, l2);
    InsertStays(Fork(e, l2, One(f)), g, r2);
    InsertStays(l2, d, Fork(c, Leaf, One(d)));
    InsertStays(Fork(e, l2, r2), d, l3);
  }

  /** The imbalance that a removal leaves can take the next one beyond what the code provides for: from a
      tree that insertions build, removing g and then a meets a factor of three. */
  lemma RemovalLeavesReach(a: Node, b: Node, c: Node, d: Node, e: Node, f: Node, g: Node)
    requires a.key < b.key < c.key < d.key < e.key < f.key < g.key
    ensures var t := Seven(a, b, c, d, e, f, g);
      && t == Insert(Insert(Insert(Insert(Insert(Insert(Insert(Leaf, e), b), f), a), c), g), d)
      && Balanced(t) && RemoveFits(t, g) && Remove(t, g).0 && !RemoveFits(Remove(t, g).1, a)
  {
    hide H, Balanced, Insert;
    InsertSeven(a, b, c, d, e, f, g);
    SevenHeights(a, b, c, d, e, f, g);
    HeightOne(f, g);
    HeightOne(a, a);
    HeightOne(c, d);
    var t := Seven(a, b, c, d, e, f, g);
    assert Remove(One(g), g) == (true, Leaf);
    assert RemoveFits(One(g), g);
    assert Remove(t.r, g) == (true, One(f));
    assert RemoveFits(t.r, g);
    var u := t.(r := One(f));
    HeightFork(u);
    var u' := RotateRight(u);
    assert Remove(t, g) == (true, u');
    assert RemoveFits(t, g);
    var right := Fork(e, Fork(c, Leaf, One(d)), One(f));
    HeightFork(right);
    assert u' == Fork(b, One(a), right);
    assert Remove(One(a), a) == (true, Leaf);
    var v := u'.(l := Leaf);
    HeightFork(v);
    assert RemoveStep(u', a) == (v, L);
  }

  /** The left subtree of the example, grown by insertions. */
  lemma InsertLeft(a: Node, b: Node, c: Node, d: Node)
    requires a.key < b.key < c.key < d.key
    ensures Insert(One(c), a) == Fork(c, One(a), Leaf) && Insert(Fork(c, One(a), Leaf), d) == Fork(c, One(a), One(d))
    ensures Insert(Fork(c, One(a), One(d)), b) == Fork(c, Fork(a, Leaf, One(b)), One(d))
    ensures H(Fork(c, One(a), Leaf)) == 2 && H(Fork(c, One(a), One(d))) == 2
    ensures H(Fork(c, Fork(a, Leaf, One(b)), One(d))) == 3
  {
    hide H, Balanced, Insert, Rebalance;
    HeightOne(a, b);
    HeightOne(c, a);
    HeightOne(d, a);
    HeightFork(Fork(c, One(a), One(d)));
    HeightFork(Fork(c, Fork(a, Leaf, One(b)), One(d)));
    InsertSmall(c, a);
    InsertSmall(c, d);
    InsertSmall(a, b);
    InsertStays(Fork(c, One(a), Leaf), d, One(d));
    InsertStays(Fork(c, One(a), One(d)), b, Fork(a, Leaf, One(b)));
  }

  function Leaning(a: Node, b: Node, c: Node, d: Node, e: Node, f: Node, g: Node): Tree {
    Fork(e, Fork(c, Fork(a, Leaf, One(b)), One(d)), Fork(f, Leaf, One(g)))
  }

  lemma InsertLeaning(a: Node, b: Node, c: Node, d: Node, e: Node, f: Node, g: Node)
    requires a.key < b.key < c.key < d.key < e.key < f.key < g.key
    ensures Leaning(a, b, c, d, e, f, g) ==
      Insert(Insert(Insert(Insert(Insert(Insert(Insert(Leaf, e), c), f), a), d), g), b)
  {
    hide H, Balanced, Insert, Rebalance;
    HeightOne(c, a);
    HeightOne(f, g);
    InsertLeft(a, b, c, d);
    InsertSmall(e, e);
    InsertSmall(e, c);
    InsertSmall(e, f);
    InsertSmall(f, g);
    var l1, l2, l3 := Fork(c, One(a), Leaf), Fork(c, One(a), One(d)), Fork(c, Fork(a, Leaf, One(b)), One(d));
    var r2 := Fork(f, Leaf, One(g));
    InsertStays(Fork(e, One(c), Leaf), f, One(f));
    InsertStays(Fork(e, One(c), One(f)), a, l1);
    InsertStays(Fork(e, l1, One(f)), d, l2);
    InsertStays(Fork(e, l2, One(f)), g, r2);
    InsertStays(Fork(e, l2, r2), b, l3);
  }

  /** Removing d rotates the left subtree, without the double rotation that it needs. */
  lemma RemoveLeft(a: Node, b: Node, c: Node, d: Node)
    requires a.key < b.key < c.key < d.key
    ensures var l := Fork(c, Fork(a, Leaf, One(b)), One(d)); var l1 := Fork(a, Leaf, Fork(c, One(b), Leaf));
      Remove(l, d) == (true, l1) && RemoveFits(l, d) && H(l1) == 3
  {
    hide H, Balanced;
    HeightOne(a, b);
    HeightOne(c, b);
    HeightOne(d, a);
    var l := Fork(c, Fork(a, Leaf, One(b)), One(d));
    var u := l.(r := Leaf);
    HeightFork(u);
    HeightFork(Fork(a, Leaf, Fork(c, One(b), Leaf)));
    assert Remove(One(d), d) == (true, Leaf) && RemoveFits(One(d), d);
    assert Settle(u, R) == RotateRight(u);
  }

  /** Removing e puts f in its place and rotates in the same way. */
  lemma RemoveMiddle(a: Node, s: Tree, e: Node, f: Node, g: Node)
    requires a.key < e.key < f.key < g.key && H(s) == 2
    ensures var t := Fork(e, Fork(a, Leaf, s), Fork(f, Leaf, One(g))); var t' := Fork(a, Leaf, Fork(f, s, One(g)));
      Remove(t, e) == (true, t') && RemoveFits(t, e) && Factor(t') == 3
  {
    hide H, Balanced;
    HeightOne(f, g);
    HeightOne(g, f);
    var r := Fork(f, Leaf, One(g));
    assert Leftmost(r) == f && Remove(r, f) == (true, One(g)) && RemoveFits(r, f);
    var u := Fork(f, Fork(a, Leaf, s), One(g));
    HeightFork(Fork(a, Leaf, s));
    HeightFork(u);
    HeightFork(Fork(f, s, One(g)));
    assert Settle(u, R) == RotateRight(u);
  }

  /** After removing d, and after removing e as well. */
  function Tilted(a: Node, b: Node, c: Node, e: Node, f: Node, g: Node): Tree {
    Fork(e, Fork(a, Leaf, Fork(c, One(b), Leaf)), Fork(f, Leaf, One(g)))
  }

  function Tipped(a: Node, b: Node, c: Node, f: Node, g: Node): Tree {
    Fork(a, Leaf, Fork(f, Fork(c, One(b), Leaf), One(g)))
  }

  lemma LeaningRemoved(a: Node, b: Node, c: Node, d: Node, e: Node, f: Node, g: Node)
    requires a.key < b.key < c.key < d.key < e.key < f.key < g.key
    ensures Remove(Leaning(a, b, c, d, e, f, g), d) == (true, Tilted(a, b, c, e, f, g))
    ensures Remove(Tilted(a, b, c, e, f, g), e) == (true, Tipped(a, b, c, f, g))
    ensures RemoveFits(Leaning(a, b, c, d, e, f, g), d) && RemoveFits(Tilted(a, b, c, e, f, g), e)
  {
    hide H, Balanced, Insert, Remove, RemoveFits, Settle;
    RemoveLeft(a, b, c, d);
    HeightOne(c, b);
    HeightOne(f, g);
    RemoveStays(Leaning(a, b, c, d, e, f, g), d);
    RemoveMiddle(a, Fork(c, One(b), Leaf), e, f, g);
  }

  lemma TippedFull(a: Node, b: Node, c: Node, f: Node, g: Node, x: Node)
    requires a.key < f.key < x.key < g.key
    ensures !InsertFits(Tipped(a, b, c, f, g), x)
  {
    hide H, Balanced, Insert;
    HeightOne(c, b);
    GrowsNot(f, Fork(c, One(b), Leaf), g, x);
  }

  /** Insertion too: from a tree that insertions build, removing d and then e leaves a root with a factor of
      three, which the next insertion below it meets. */
  lemma InsertionLeavesReach(a: Node, b: Node, c: Node, d: Node, e: Node, f: Node, g: Node, x: Node)
    requires a.key < b.key < c.key < d.key < e.key < f.key < x.key < g.key
    ensures Leaning(a, b, c, d, e, f, g) == Insert(Insert(Insert(Insert(Insert(Insert(Insert(Leaf, e), c), f), a), d), g), b)
    ensures var t, t1, t2 := Leaning(a, b, c, d, e, f, g), Tilted(a, b, c, e, f, g), Tipped(a, b, c, f, g);
      RemoveFits(t, d) && Remove(t, d) == (true, t1) && RemoveFits(t1, e) && Remove(t1, e) == (true, t2) && !InsertFits(t2, x)
  {
    hide H, Balanced, Insert, Remove, RemoveFits, InsertFits, Leaning, Tilted, Tipped;
    InsertLeaning(a, b, c, d, e, f, g);
    LeaningRemoved(a, b, c, d, e, f, g);
    TippedFull(a, b, c, f, g, x);
  }

  /** One level of a removal on the left that needs no rotation. */
  lemma RemoveStays(t: Tree, x: Node)
    requires t.Fork? && t.n != x && SearchSide(t, x) == L && Remove(t.l, x).0
    ensures -1 <= Factor(t.(l := Remove(t.l, x).1)) <= 1 ==>
      Remove(t, x) == (true, t.(l := Remove(t.l, x).1)) && (RemoveFits(t.l, x) ==> RemoveFits(t, x))
  {
  }

  /** An insertion below g leaves a factor of three above. */
  lemma GrowsNot(f: Node, l: Tree, g: Node, x: Node)
    requires f.key < x.key < g.key && H(l) == 2
    ensures H(Insert(Fork(f, l, One(g)), x)) == 3
  {
    hide H, Balanced, Insert, Rebalance;
    HeightOne(g, x);
    InsertSmall(g, x);
    var t := Fork(f, l, Fork(g, One(x), Leaf));
    HeightFork(t);
    InsertStays(Fork(f, l, One(g)), x, Fork(g, One(x), Leaf));
  }

  // ---- the nodes of the tree ----

  lemma RebalanceNodes(t: Tree, side: Side)
    requires t.Fork? && -2 <= Factor(t) <= 2
    ensures Nodes(Rebalance(t, side)) == Nodes(t)
    ensures Distinct(t) ==> Distinct(Rebalance(t, side))
  {
    hide Nodes, Distinct, H;
    var c := Child(t, side);
    HeightFork(t);
    NodesFork(t);
    DistinctFork(t);
    if Factor(t) == -2 {
      if Factor(c) > 0 {
        HeightFork(c);
        RotateLeftNodes(c);
        ChildNodes(t, side, RotateLeft(c));
        RotateRightNodes(WithChild(t, side, RotateLeft(c)));
      } else {
        RotateRightNodes(t);
      }
    } else if Factor(t) == 2 {
      if Factor(c) < 0 {
        HeightFork(c);
        RotateRightNodes(c);
        ChildNodes(t, side, RotateRight(c));
        RotateLeftNodes(WithChild(t, side, RotateRight(c)));
      } else {
        RotateLeftNodes(t);
      }
    }
  }

  lemma ChildNodes(t: Tree, side: Side, c: Tree)
    requires t.Fork?
    ensures Nodes(WithChild(t, side, c)) == {t.n} + Nodes(c) + Nodes(Child(t, Other(side)))
    ensures Distinct(t) && Distinct(c) && Nodes(c) !! Nodes(Child(t, Other(side))) && t.n !in Nodes(c) ==>
              Distinct(WithChild(t, side, c))
  {
  }

  lemma {:induction false} InsertNodes(t: Tree, x: Node)
    requires Distinct(t) && x !in Nodes(t)
    ensures Nodes(Insert(t, x)) == Nodes(t) + {x} && Distinct(Insert(t, x))
  {
    if t.Fork? {
      hide Rebalance, Nodes, Distinct, H;
      NodesFork(t);
      DistinctFork(t);
      var side := SearchSide(t, x);
      InsertNodes(Child(t, side), x);
      var c := Insert(Child(t, side), x);
      ChildNodes(t, side, c);
      var t' := WithChild(t, side, c);
      if -2 <= Factor(t') <= 2 { RebalanceNodes(t', side); }
    }
  }

  lemma SettleNodes(t: Tree, side: Side)
    requires t.Fork?
    ensures Nodes(Settle(t, side)) == Nodes(t)
    ensures Distinct(t) ==> Distinct(Settle(t, side))
  {
    hide Rebalance, Nodes, Distinct;
    if -2 <= Factor(t) <= 2 { RebalanceNodes(t, side); }
  }

  lemma {:induction false} LeftmostNode(t: Tree)
    requires t.Fork?
    ensures Leftmost(t) in Nodes(t)
  {
    if t.l.Fork? { LeftmostNode(t.l); }
  }

  lemma {:induction false} RemoveNodes(t: Tree, x: Node)
    requires Distinct(t) && RemoveFits(t, x)
    ensures Distinct(Remove(t, x).1)
    ensures Nodes(Remove(t, x).1) == if Remove(t, x).0 then Nodes(t) - {x} else Nodes(t)
    ensures Remove(t, x).0 ==> x in Nodes(t)
    ensures !Remove(t, x).0 ==> Remove(t, x).1 == t
  {
    if t.Fork? {
      hide Settle, Nodes, Distinct;
      NodesFork(t);
      DistinctFork(t);
      LeafNodes();
      if t.n == x {
        if t.l.Fork? && t.r.Fork? {
          var m := Leftmost(t.r);
          LeftmostNode(t.r);
          RemoveNodes(t.r, m);
          var u := Fork(m, t.l, Remove(t.r, m).1);
          NodesFork(u);
          DistinctFork(u);
          SettleNodes(u, R);
        }
      } else {
        var side := SearchSide(t, x);
        RemoveNodes(Child(t, side), x);
        var c := Remove(Child(t, side), x).1;
        ChildNodes(t, side, c);
        SettleNodes(WithChild(t, side, c), side);
      }
    }
  }

  lemma LeafNodes()
    ensures Nodes(Leaf) == {} && Distinct(Leaf)
  {
  }

  // ---- equal keys ----

  /** An ancestor with the same key has the node on its left, where removal does not look. */
  ghost predicate Shadowed(t: Tree, x: Node) {
    t.Fork? && t.n != x &&
    if x in Nodes(t.l) then t.n.key == x.key || Shadowed(t.l, x) else Shadowed(t.r, x)
  }

  lemma {:induction false} InOrderNodes(t: Tree, x: Node)
    ensures x in InOrder(t) <==> x in Nodes(t)
  {
    if t.Fork? {
      InOrderNodes(t.l, x);
      InOrderNodes(t.r, x);
    }
  }

  /** In a sorted tree with equal keys, removal finds a node exactly if no such ancestor hides it. */
  lemma {:induction false} RemoveFindsIff(t: Tree, x: Node)
    requires SortedSeq(InOrder(t)) && Distinct(t)
    ensures Remove(t, x).0 <==> x in Nodes(t) && !Shadowed(t, x)
  {
    if t.Fork? {
      hide InOrder, Settle, SortedSeq, Nodes, Distinct;
      NodesFork(t);
      DistinctFork(t);
      InOrderFork(t);
      SortedParts(InOrder(t.l), t.n, InOrder(t.r));
      InOrderNodes(t.l, x);
      InOrderNodes(t.r, x);
      if t.n != x { RemoveFindsIff(Child(t, SearchSide(t, x)), x); }
    } else {
      LeafNodes();
    }
  }

  /** Three equal keys are enough to lose sight of a node. */
  lemma EqualKeyMissed(a: Node, b: Node, c: Node)
    requires a.key == b.key == c.key && a != b && b != c && a != c
    ensures var t := Insert(Insert(Insert(Leaf, a), b), c);
      t == Fork(b, One(a), One(c)) && a in Nodes(t) && !Remove(t, a).0
  {
    hide H, Balanced;
    InsertSmall(a, a);
    InsertSmall(a, b);
    InsertSmall(b, c);
    HeightOne(a, b);
    HeightOne(b, c);
    var u := Fork(a, Leaf, Fork(b, Leaf, One(c)));
    HeightFork(u);
    assert Insert(Fork(a, Leaf, One(b)), c) == RotateLeft(u);
    assert Remove(One(c), a) == (false, One(c));
  }
}
