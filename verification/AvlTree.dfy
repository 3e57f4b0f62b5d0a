/** The intrusive AVL tree in place: nodes linked by parent, left and right, with their heights,
    rewritten by rotations, insertion and removal, and searched and walked by loops. */
module AvlTree {
  import opened AvlShape

  /** The links below `n` form `t`, exactly height-labelled, under parent `p`. */
  ghost predicate Linked(n: Node?, t: Tree, p: Node?)
    reads Nodes(t)
  {
    match t
    case Leaf => n == null
    case Fork(x, l, r) => n == x && x.parent == p && x.height == H(t) && Linked(x.left, l, x) && Linked(x.right, r, x)
  }

  /** As Linked, but the height of the top node may be stale. */
  ghost predicate LinkedBut(n: Node, t: Tree, p: Node?)
    reads Nodes(t)
  {
    t.Fork? && n == t.n && n.parent == p && Linked(n.left, t.l, n) && Linked(n.right, t.r, n)
  }

  ghost function Root(t: Tree): Node? { if t.Leaf? then null else t.n }

  lemma LinkedRoot(n: Node?, t: Tree, p: Node?)
    requires Linked(n, t, p)
    ensures n == Root(t) && (n != null ==> n in Nodes(t) && n.height == H(t) && LinkedBut(n, t, p))
  {
  }

  lemma LinkedTop(n: Node, t: Tree, p: Node?)
    requires LinkedBut(n, t, p) && n.height == H(t)
    ensures Linked(n, t, p)
  {
  }

  function Height(n: Node?): int
    reads n
  {
    if n == null then 0 else n.height
  }

  function BalanceFactor(n: Node?): int
    reads n, if n == null then {} else {n.left, n.right}
  {
    if n == null then 0 else Height(n.right) - Height(n.left)
  }

  method ComputeHeight(n: Node, ghost t: Tree, ghost p: Node?)
    requires LinkedBut(n, t, p) && Distinct(t)
    modifies n`height
    ensures Linked(n, t, p)
  {
    LinkedRoot(n.left, t.l, n);
    LinkedRoot(n.right, t.r, n);
    n.height := (if Height(n.left) > Height(n.right) then Height(n.left) else Height(n.right)) + 1;
  }

  /** The parent link of a subtree, if there is one, is redirected. */
  method SetParent(n: Node?, ghost t: Tree, ghost p: Node?, p': Node?)
    requires Linked(n, t, p) && Distinct(t)
    modifies if n == null then {} else {n}`parent
    ensures Linked(n, t, p')
  {
    LinkedRoot(n, t, p);
    if n != null { n.parent := p'; }
  }

  method RotateLeftAt(node: Node, ghost t: Tree, ghost p: Node?) returns (right: Node)
    requires LinkedBut(node, t, p) && Distinct(t) && t.r.Fork?
    modifies Nodes(t)
    ensures Linked(right, RotateLeft(t), p)
  {
    hide Nodes, Distinct, Linked, H;
    assert allocated(Nodes(t.l)) && allocated(Nodes(t.r.l)) && allocated(Nodes(t.r.r));
    NodesFork(t);
    NodesFork(t.r);
    DistinctFork(t);
    DistinctFork(t.r);
    RotateLeftNodes(t);
    ghost var t' := RotateLeft(t);
    NodesFork(t');
    NodesFork(t'.l);
    LinkedRoot(node.right, t.r, node);
    right := node.right;
    LinkedRoot(right.left, t.r.l, right);
    node.right := right.left;
    right.left := node;
    right.parent := node.parent;
    node.parent := right;
    SetParent(node.right, t.r.l, right, node);
    ComputeHeight(node, t'.l, right);
    ComputeHeight(right, t', p);
  }

  method RotateRightAt(node: Node, ghost t: Tree, ghost p: Node?) returns (left: Node)
    requires LinkedBut(node, t, p) && Distinct(t) && t.l.Fork?
    modifies Nodes(t)
    ensures Linked(left, RotateRight(t), p)
  {
    hide Nodes, Distinct, Linked, H;
    assert allocated(Nodes(t.r)) && allocated(Nodes(t.l.l)) && allocated(Nodes(t.l.r));
    NodesFork(t);
    NodesFork(t.l);
    DistinctFork(t);
    DistinctFork(t.l);
    RotateRightNodes(t);
    ghost var t' := RotateRight(t);
    NodesFork(t');
    NodesFork(t'.r);
    LinkedRoot(node.left, t.l, node);
    left := node.left;
    LinkedRoot(left.right, t.l.r, left);
    node.left := left.right;
    left.right := node;
    left.parent := node.parent;
    node.parent := left;
    SetParent(node.left, t.l.r, left, node);
    ComputeHeight(node, t'.r, left);
    ComputeHeight(left, t', p);
  }

  lemma FactorIs(n: Node?, t: Tree, p: Node?)
    requires Linked(n, t, p)
    ensures BalanceFactor(n) == Factor(t)
  {
    if t.Fork? {
      LinkedRoot(n.left, t.l, n);
      LinkedRoot(n.right, t.r, n);
    }
  }

  /** The link of `n` to its child on `side`. */
  function Link(n: Node, side: Side): Node?
    reads n
  {
    if side == L then n.left else n.right
  }

  /** A new subtree is stored in the link on `side`. */
  method SetLink(n: Node, side: Side, c: Node?, ghost t: Tree, ghost p: Node?, ghost c': Tree)
    requires t.Fork? && Distinct(t) && n == t.n && n.parent == p
    requires Linked(Link(n, Other(side)), Child(t, Other(side)), n) && Linked(c, c', n) && n !in Nodes(c')
    modifies n
    ensures LinkedBut(n, WithChild(t, side, c'), p)
  {
    hide Nodes, Linked, H;
    assert allocated(Nodes(t)) && allocated(Nodes(c'));
    NodesFork(t);
    if side == L { n.left := c; } else { n.right := c; }
    NodesFork(WithChild(t, side, c'));
  }

  method RebalanceAt(current: Node, side: Side, ghost t: Tree, ghost p: Node?) returns (r: Node)
    requires LinkedBut(current, t, p) && Distinct(t) && -2 <= Factor(t) <= 2
    modifies Nodes(t)
    ensures Linked(r, Rebalance(t, side), p)
  {
    hide Nodes, Distinct, Linked, H;
    ghost var c, o := Child(t, side), Child(t, Other(side));
    assert allocated(Nodes(t)) && allocated(Nodes(c)) && allocated(Nodes(o));
    NodesFork(t);
    DistinctFork(t);
    HeightFork(t);
    ComputeHeight(current, t, p);
    FactorIs(current, t, p);
    LinkedRoot(current, t, p);
    var child := Link(current, side);
    FactorIs(child, c, current);
    LinkedRoot(child, c, current);
    ghost var u := t;
    r := current;
    if BalanceFactor(current) == -2 {
      if BalanceFactor(child) > 0 {
        HeightFork(c);
        RotateLeftNodes(c);
        var c' := RotateLeftAt(child, c, current);
        SetLink(current, side, c', t, p, RotateLeft(c));
        u := WithChild(t, side, RotateLeft(c));
        ChildNodes(t, side, RotateLeft(c));
      }
      r := RotateRightAt(current, u, p);
    } else if BalanceFactor(current) == 2 {
      if BalanceFactor(child) < 0 {
        HeightFork(c);
        RotateRightNodes(c);
        var c' := RotateRightAt(child, c, current);
        SetLink(current, side, c', t, p, RotateRight(c));
        u := WithChild(t, side, RotateRight(c));
        ChildNodes(t, side, RotateRight(c));
      }
      r := RotateLeftAt(current, u, p);
    }
  }

  method InsertHelper(parent: Node?, current: Node?, node: Node, ghost t: Tree) returns (r: Node)
    requires Linked(current, t, parent) && Distinct(t) && InsertFits(t, node)
    requires node !in Nodes(t) && node.left == node.right == null && node.height == 1
    modifies Nodes(t), node
    ensures Linked(r, Insert(t, node), parent)
    decreases t
  {
    LinkedRoot(current, t, parent);
    if current == null {
      node.parent := parent;
      return node;
    }
    hide Nodes, Distinct, Linked, H, Insert;
    var side := if node.key < current.key then L else R;
    ghost var c, o := Child(t, side), Child(t, Other(side));
    assert allocated(Nodes(c)) && allocated(Nodes(o));
    NodesFork(t);
    DistinctFork(t);
    InsertNodes(c, node);
    InsertStep(t, node);
    var child := InsertHelper(current, Link(current, side), node, c);
    SetLink(current, side, child, t, parent, Insert(c, node));
    ChildNodes(t, side, Insert(c, node));
    r := RebalanceAt(current, side, WithChild(t, side, Insert(c, node)), parent);
  }

  lemma InsertStep(t: Tree, x: Node)
    requires t.Fork? && InsertFits(t, x)
    ensures var side := SearchSide(t, x); var t' := WithChild(t, side, Insert(Child(t, side), x));
      && InsertFits(Child(t, side), x) && -2 <= Factor(t') <= 2 && Insert(t, x) == Rebalance(t', side)
  {
  }

  /** avltree_leftest_subnode */
  method LeftmostAt(node: Node?, ghost t: Tree, ghost p: Node?) returns (r: Node?)
    requires Linked(node, t, p)
    ensures r == if t.Leaf? then null else Leftmost(t)
  {
    hide Nodes, H;
    r := node;
    ghost var u, q := t, p;
    while r != null && r.left != null
      invariant Linked(r, u, q) && (u.Leaf? <==> t.Leaf?) && (u.Fork? ==> Leftmost(u) == Leftmost(t))
      decreases u
    {
      q := r;
      u := u.l;
      r := r.left;
    }
  }

  /** The node's only child, or none, takes its place. */
  method Bypass(node: Node, side: Side, ghost t: Tree, ghost p: Node?) returns (r: Node?)
    requires Linked(node, t, p) && Distinct(t)
    modifies Nodes(t)
    ensures Linked(r, Child(t, side), p)
  {
    hide Nodes, Distinct, H;
    assert allocated(Nodes(t));
    NodesFork(t);
    DistinctFork(t);
    r := Link(node, side);
    LinkedRoot(r, Child(t, side), node);
    SetParent(r, Child(t, side), node, node.parent);
  }

  /** The successor `m`, already taken out of the right subtree, takes the place of `node`. */
  method Replace(node: Node, m: Node, right: Node?, ghost t: Tree, ghost r': Tree, ghost p: Node?)
    requires t.Fork? && Distinct(t) && node == t.n && node.parent == p && m != node
    requires Linked(node.left, t.l, node) && Linked(right, r', node) && m !in Nodes(t.l) && m !in Nodes(r')
    requires Distinct(r') && Nodes(t.l) !! Nodes(r')
    modifies m, Nodes(t.l), Nodes(r')
    ensures LinkedBut(m, Fork(m, t.l, r'), p)
  {
    hide Nodes, Distinct, Linked, H;
    assert allocated(Nodes(t)) && allocated(Nodes(t.l)) && allocated(Nodes(r'));
    NodesFork(t);
    DistinctFork(t);
    LinkedRoot(node.left, t.l, node);
    LinkedRoot(right, r', node);
    m.left := node.left;
    m.right := right;
    m.parent := node.parent;
    SetParent(m.left, t.l, node, m);
    SetParent(m.right, r', node, m);
  }

  method RemoveHelper(current: Node?, node: Node, ghost t: Tree, ghost p: Node?) returns (found: bool, r: Node?)
    requires Linked(current, t, p) && Distinct(t) && RemoveFits(t, node)
    modifies Nodes(t)
    ensures found == Remove(t, node).0 && Linked(r, Remove(t, node).1, p)
    decreases t, 1
  {
    LinkedRoot(current, t, p);
    if current == null { return false, null; }
    if current == node {
      r := RemoveRoot(current, t, p);
      found := true;
    } else {
      found, r := RemoveBelow(current, node, t, p);
    }
  }

  /** The node to delete is the top one. */
  method RemoveRoot(node: Node, ghost t: Tree, ghost p: Node?) returns (r: Node?)
    requires Linked(node, t, p) && Distinct(t) && RemoveFits(t, node)
    modifies Nodes(t)
    ensures Remove(t, node).0 && Linked(r, Remove(t, node).1, p)
    decreases t, 0
  {
    hide Nodes, Distinct, Linked, H, RemoveFits, Remove, Settle;
    LinkedRoot(node, t, p);
    assert allocated(Nodes(t)) && allocated(Nodes(t.l)) && allocated(Nodes(t.r));
    NodesFork(t);
    DistinctFork(t);
    LinkedRoot(node.left, t.l, node);
    LinkedRoot(node.right, t.r, node);
    RemoveCases(t, node);
    if node.right == null {
      r := Bypass(node, L, t, p);
    } else if node.left == null {
      r := Bypass(node, R, t, p);
    } else {
      var m := LeftmostAt(node.right, t.r, node);
      LeftmostNode(t.r);
      RemoveNodes(t.r, m);
      ghost var r' := Remove(t.r, m).1;
      var found, right := RemoveHelper(node.right, m, t.r, node);
      assert allocated(Nodes(t.l)) && allocated(Nodes(r'));
      Replace(node, m, right, t, r', p);
      ghost var u := Fork(m, t.l, r');
      NodesFork(u);
      DistinctFork(u);
      r := RebalanceAt(m, R, u, p);
    }
  }

  /** The node to delete is below the top one, if it is in the tree. */
  method RemoveBelow(current: Node, node: Node, ghost t: Tree, ghost p: Node?) returns (found: bool, r: Node?)
    requires Linked(current, t, p) && Distinct(t) && RemoveFits(t, node) && current != node
    modifies Nodes(t)
    ensures found == Remove(t, node).0 && Linked(r, Remove(t, node).1, p)
    decreases t, 0
  {
    hide Nodes, Distinct, Linked, H, RemoveFits, Remove, Settle;
    var side := if node.key < current.key then L else R;
    LinkedRoot(current, t, p);
    ghost var c, o := Child(t, side), Child(t, Other(side));
    assert allocated(Nodes(t)) && allocated(Nodes(c)) && allocated(Nodes(o));
    NodesFork(t);
    DistinctFork(t);
    RemoveCases(t, node);
    RemoveNodes(c, node);
    LinkedRoot(Link(current, side), c, current);
    var child;
    found, child := RemoveHelper(Link(current, side), node, c, current);
    ghost var c' := Remove(c, node).1;
    if found {
      SetLink(current, side, child, t, p, c');
      ChildNodes(t, side, c');
      r := RebalanceAt(current, side, WithChild(t, side, c'), p);
    } else {
      r := current;
      LinkedRoot(child, c', current);
      LinkedTop(current, t, p);
    }
  }

  /** Removal, one level unfolded. */
  lemma RemoveCases(t: Tree, x: Node)
    requires t.Fork? && RemoveFits(t, x)
    ensures t.n == x ==> Remove(t, x).0
    ensures t.n == x && t.r.Leaf? ==> Remove(t, x).1 == t.l
    ensures t.n == x && t.r.Fork? && t.l.Leaf? ==> Remove(t, x).1 == t.r
    ensures t.n == x && t.r.Fork? && t.l.Fork? ==>
      var m := Leftmost(t.r); var u := Fork(m, t.l, Remove(t.r, m).1);
      && RemoveFits(t.r, m) && Remove(t.r, m).0 && -2 <= Factor(u) <= 2 && Remove(t, x).1 == Rebalance(u, R)
    ensures t.n != x ==>
      var side := SearchSide(t, x); var (found, c) := Remove(Child(t, side), x);
      && RemoveFits(Child(t, side), x) && Remove(t, x).0 == found
      && (found ==> -2 <= Factor(WithChild(t, side, c)) <= 2 && Remove(t, x).1 == Rebalance(WithChild(t, side, c), side))
      && (!found ==> Remove(t, x).1 == t)
  {
  }
}
