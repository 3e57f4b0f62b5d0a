/** Blocks of the buddy allocator as values: a block of order k holds the 2^k page frames that
    agree above bit k.  The theory says that a canonical set of free blocks (aligned, disjoint,
    no two free buddies) is determined by the pages it covers, and that it contains a block large
    enough for every aligned free run. */
module BuddyBlocks {

  const ORDERS_COUNT: nat := 7

  /** ORDER2COUNT */
  function Count(order: nat): (n: nat)
    ensures n > 0
  {
    if order == 0 then 1 else 2 * Count(order - 1)
  }

  /** The page frame number shifted right by `order`: the block number at that order. */
  function Drop(page: int, order: nat): int
    decreases order
  {
    if order == 0 then page else Drop(page / 2, order - 1)
  }

  /** `page ^ (1 << order)` */
  function FlipBit(page: int, order: nat): int
    decreases order
  {
    if order == 0 then (if page % 2 == 0 then page + 1 else page - 1)
    else 2 * FlipBit(page / 2, order - 1) + page % 2
  }

  datatype Block = Block(start: int, order: nat)

  /** The low `order` bits of `x` are zero; AlignedIsModulo gives the modulo form. */
  predicate AlignedTo(x: int, order: nat)
    decreases order
  {
    order == 0 || (x % 2 == 0 && AlignedTo(x / 2, order - 1))
  }

  predicate Aligned(b: Block) { AlignedTo(b.start, b.order) }

  predicate In(page: int, b: Block) { b.start <= page < b.start + Count(b.order) }

  function Pages(b: Block): set<int> {
    set p: int | b.start <= p < b.start + Count(b.order) && In(p, b)
  }

  function Interval(lo: int, n: nat): set<int>
  {
    if n == 0 then {} else Interval(lo, n - 1) + {lo + n - 1}
  }

  lemma {:induction false} IntervalSize(lo: int, n: nat)
    ensures |Interval(lo, n)| == n && forall p :: p in Interval(lo, n) <==> lo <= p < lo + n
  {
    if n > 0 { IntervalSize(lo, n - 1); }
  }

  lemma PagesSize(b: Block)
    ensures |Pages(b)| == Count(b.order)
  {
    IntervalSize(b.start, Count(b.order));
    assert Pages(b) == Interval(b.start, Count(b.order));
  }

  ghost predicate Covers(bs: set<Block>, page: int) {
    exists b :: b in bs && In(page, b)
  }

  /** The pages that a set of blocks covers. */
  ghost function Cover(bs: set<Block>): set<int> {
    set b, p | b in bs && p in Pages(b) :: p
  }

  lemma CoverIsCovers(bs: set<Block>)
    ensures forall p :: p in Cover(bs) <==> Covers(bs, p)
  {
    forall p ensures p in Cover(bs) <==> Covers(bs, p) {
      if Covers(bs, p) {
        var b :| b in bs && In(p, b);
        assert p in Pages(b);
      }
      if p in Cover(bs) {
        var b :| b in bs && p in Pages(b);
        assert In(p, b);
      }
    }
  }

  ghost predicate Disjoint(bs: set<Block>) {
    forall a, b, p :: a in bs && b in bs && In(p, a) && In(p, b) ==> a == b
  }

  ghost predicate NoBuddies(bs: set<Block>) {
    forall a, b :: a in bs && b in bs && b.order + 1 < ORDERS_COUNT ==> a != BuddyOf(b)
  }

  ghost predicate Shaped(bs: set<Block>) {
    forall b :: b in bs ==> b.order < ORDERS_COUNT && Aligned(b)
  }

  ghost predicate Canonical(bs: set<Block>) {
    Shaped(bs) && Disjoint(bs) && NoBuddies(bs)
  }

  function BuddyOf(b: Block): Block { Block(FlipBit(b.start, b.order), b.order) }

  function ParentOf(b: Block): Block {
    Block(if FlipBit(b.start, b.order) < b.start then FlipBit(b.start, b.order) else b.start, b.order + 1)
  }

  // ---- arithmetic of one block ----

  lemma ModUnique(x: int, n: nat, q: int, r: int)
    requires 0 <= r < n && x == q * n + r
    ensures x % n == r && x / n == q
  {
    var d := x / n - q;
    assert x == (x / n) * n + x % n;
    assert d * n == (x / n) * n - q * n == r - x % n;
    MulMono(1, d, n);
    MulMono(d, -1, n);
    assert 0 - n < d * n < n;
    assert d == 0;
  }

  lemma MulMono(a: int, b: int, n: nat)
    ensures a <= b ==> a * n <= b * n
  {
  }

  lemma HalfModulo(x: int, n: nat)
    requires n > 0
    ensures x % (2 * n) == 0 <==> x % 2 == 0 && (x / 2) % n == 0
  {
    var q, r := (x / 2) / n, (x / 2) % n;
    assert x / 2 == q * n + r;
    assert x == q * (2 * n) + (2 * r + x % 2);
    ModUnique(x, 2 * n, q, 2 * r + x % 2);
  }

  lemma {:induction false} AlignedIsModulo(x: int, order: nat)
    ensures AlignedTo(x, order) <==> x % Count(order) == 0
    decreases order
  {
    if order > 0 {
      AlignedIsModulo(x / 2, order - 1);
      HalfModulo(x, Count(order - 1));
    }
  }

  /** Membership of an aligned block is agreement of the block numbers. */
  lemma {:induction false} InIffDrop(page: int, b: Block)
    requires Aligned(b)
    ensures In(page, b) <==> Drop(page, b.order) == Drop(b.start, b.order)
    decreases b.order
  {
    if b.order > 0 {
      InIffDrop(page / 2, Block(b.start / 2, b.order - 1));
    }
  }

  lemma {:induction false} DropDrop(page: int, i: nat, j: nat)
    ensures Drop(Drop(page, i), j) == Drop(page, i + j)
    decreases i
  {
    if i > 0 { DropDrop(page / 2, i - 1, j); }
  }

  /** Two aligned blocks that share a page are nested. */
  lemma {:induction false} Nested(a: Block, b: Block, page: int)
    requires Aligned(a) && Aligned(b) && a.order <= b.order
    requires In(page, a) && In(page, b)
    ensures forall p :: In(p, a) ==> In(p, b)
    ensures a.order == b.order ==> a == b
  {
    forall p | In(p, a) ensures In(p, b) {
      InIffDrop(page, a); InIffDrop(p, a); InIffDrop(page, b); InIffDrop(p, b);
      DropDrop(page, a.order, b.order - a.order);
      DropDrop(p, a.order, b.order - a.order);
    }
    assert In(a.start, a);
    if a.order == b.order {
      assert In(b.start, b);
      InIffDrop(page, a); InIffDrop(b.start, a); InIffDrop(page, b); InIffDrop(b.start, b);
      assert In(b.start, a);
      assert In(a.start, b);
    }
  }

  /** One unfolding of the recursive definitions on an even number. */
  lemma DoubleStep(h: int, order: nat)
    ensures AlignedTo(2 * h, order + 1) == AlignedTo(h, order)
    ensures FlipBit(2 * h, order + 1) == 2 * FlipBit(h, order)
    ensures Count(order + 1) == 2 * Count(order)
  {
  }

  lemma EvenStart(x: int, order: nat)
    requires order > 0 && AlignedTo(x, order)
    ensures x == 2 * (x / 2)
  {
  }

  lemma BaseStep(x: int)
    ensures AlignedTo(x, 0) && (AlignedTo(x, 1) <==> x % 2 == 0) && Count(0) == 1
    ensures FlipBit(x, 0) == if x % 2 == 0 then x + 1 else x - 1
  {
  }

  /** An aligned number that is not aligned to the next order is so after one block size. */
  lemma {:induction false} AlignedUp(x: int, order: nat)
    requires AlignedTo(x, order) && !AlignedTo(x, order + 1)
    ensures AlignedTo(x - Count(order), order + 1)
    decreases order
  {
    hide AlignedTo, FlipBit, Count;
    if order == 0 {
      BaseStep(x);
      BaseStep(x - 1);
    } else {
      var h := x / 2;
      EvenStart(x, order);
      DoubleStep(h, order - 1);
      DoubleStep(h, order);
      AlignedUp(h, order - 1);
      DoubleStep(h - Count(order - 1), order);
    }
  }

  /** On an aligned start, flipping bit `order` adds or subtracts the block size. */
  lemma {:induction false} FlipAligned(start: int, order: nat)
    requires AlignedTo(start, order)
    ensures AlignedTo(FlipBit(start, order), order)
    ensures FlipBit(start, order) ==
            if AlignedTo(start, order + 1) then start + Count(order) else start - Count(order)
    decreases order
  {
    if order == 0 {
      BaseStep(start);
      BaseStep(FlipBit(start, 0));
    } else {
      var h := start / 2;
      EvenStart(start, order);
      hide AlignedTo, FlipBit, Count;
      DoubleStep(h, order - 1);
      DoubleStep(h, order);
      FlipAligned(h, order - 1);
      DoubleStep(FlipBit(h, order - 1), order - 1);
    }
  }

  lemma {:induction false} FlipTwice(page: int, order: nat)
    ensures FlipBit(FlipBit(page, order), order) == page
    decreases order
  {
    if order > 0 { FlipTwice(page / 2, order - 1); }
  }

  lemma {:induction false} AlignedDown(x: int, order: nat)
    requires order > 0 && AlignedTo(x, order)
    ensures AlignedTo(x, order - 1)
    decreases order
  {
    if order > 1 { AlignedDown(x / 2, order - 1); }
  }

  /** The two halves of an aligned block are each other's buddies and partition it. */
  lemma HalvesOf(b: Block)
    requires Aligned(b) && b.order > 0
    ensures var l, r := Block(b.start, b.order - 1), Block(b.start + Count(b.order - 1), b.order - 1);
            Aligned(l) && Aligned(r) && BuddyOf(l) == r && BuddyOf(r) == l &&
            forall p :: In(p, b) <==> In(p, l) || In(p, r)
  {
    AlignedDown(b.start, b.order);
    FlipAligned(b.start, b.order - 1);
    FlipTwice(b.start, b.order - 1);
  }

  /** Merging a block with its buddy gives the parent, which holds exactly the two. */
  lemma MergeOf(b: Block)
    requires Aligned(b)
    ensures Aligned(BuddyOf(b)) && BuddyOf(BuddyOf(b)) == b && Aligned(ParentOf(b))
    ensures forall p :: In(p, ParentOf(b)) <==> In(p, b) || In(p, BuddyOf(b))
    ensures forall p :: !(In(p, b) && In(p, BuddyOf(b)))
  {
    FlipAligned(b.start, b.order);
    FlipTwice(b.start, b.order);
    if !AlignedTo(b.start, b.order + 1) { AlignedUp(b.start, b.order); }
  }

  // ---- canonical sets ----

  /** Every aligned run that a canonical set covers lies inside one of its blocks: a free run of
      2^order pages is never split over several free blocks. */
  lemma {:induction false} RunInsideOneBlock(bs: set<Block>, run: Block) returns (home: Block)
    requires Canonical(bs) && Aligned(run) && run.order < ORDERS_COUNT
    requires forall p :: In(p, run) ==> Covers(bs, p)
    ensures home in bs && home.order >= run.order && forall p :: In(p, run) ==> In(p, home)
    decreases run.order
  {
    hide FlipBit, AlignedTo;
    assert In(run.start, run);
    if run.order == 0 {
      home :| home in bs && In(run.start, home);
      Nested(run, home, run.start);
    } else {
      HalvesOf(run);
      var l, r := Block(run.start, run.order - 1), Block(run.start + Count(run.order - 1), run.order - 1);
      var hl := RunInsideOneBlock(bs, l);
      var hr := RunInsideOneBlock(bs, r);
      assert In(l.start, l) && In(r.start, r) && In(l.start, run) && In(r.start, run);
      Nested(l, hl, l.start);
      Nested(r, hr, r.start);
      // otherwise both halves would be free buddies
      assert hl.order >= run.order || hr.order >= run.order;
      if hl.order >= run.order {
        Nested(run, hl, l.start);
        home := hl;
      } else {
        Nested(run, hr, r.start);
        home := hr;
      }
    }
  }

  /** One inclusion of the uniqueness result. */
  lemma CanonicalContains(a: set<Block>, b: set<Block>, x: Block)
    requires Canonical(a) && Canonical(b) && x in a
    requires forall p :: Covers(a, p) <==> Covers(b, p)
    ensures x in b
  {
    forall p | In(p, x) ensures Covers(b, p) { assert Covers(a, p); }
    var y := RunInsideOneBlock(b, x);
    forall p | In(p, y) ensures Covers(a, p) { assert Covers(b, p); }
    var z := RunInsideOneBlock(a, y);
    assert In(x.start, x) && In(x.start, y) && In(x.start, z);
    assert x == z;
    Nested(x, y, x.start);
  }

  /** The free lists are determined by the free pages. */
  lemma CanonicalIsDetermined(a: set<Block>, b: set<Block>)
    requires Canonical(a) && Canonical(b)
    requires forall p :: Covers(a, p) <==> Covers(b, p)
    ensures a == b
  {
    forall x | x in a ensures x in b { CanonicalContains(a, b, x); }
    forall x | x in b ensures x in a { CanonicalContains(b, a, x); }
  }

  // ---- the two elementary changes ----

  lemma RemoveBlock(bs: set<Block>, b: Block)
    requires Canonical(bs) && b in bs
    ensures Canonical(bs - {b})
    ensures forall p :: Covers(bs - {b}, p) <==> Covers(bs, p) && !In(p, b)
  {
    forall p | Covers(bs, p) && !In(p, b) ensures Covers(bs - {b}, p) {
      var c :| c in bs && In(p, c);
      assert c in bs - {b};
    }
    forall p | Covers(bs - {b}, p) ensures Covers(bs, p) && !In(p, b) {
      var c :| c in bs - {b} && In(p, c);
    }
  }

  lemma AddBlock(bs: set<Block>, b: Block)
    requires Canonical(bs) && b.order < ORDERS_COUNT && Aligned(b)
    requires forall p :: In(p, b) ==> !Covers(bs, p)
    requires b.order + 1 < ORDERS_COUNT ==> BuddyOf(b) !in bs
    ensures Canonical(bs + {b}) && b !in bs
    ensures forall p :: Covers(bs + {b}, p) <==> Covers(bs, p) || In(p, b)
  {
    var bs' := bs + {b};
    assert In(b.start, b);
    forall p | Covers(bs, p) || In(p, b) ensures Covers(bs', p) {
      if In(p, b) { assert b in bs'; } else { var c :| c in bs && In(p, c); assert c in bs'; }
    }
    MergeOf(b);
    forall a, c | a in bs' && c in bs' && c.order + 1 < ORDERS_COUNT ensures a != BuddyOf(c) {
      MergeOf(c);
      assert In(c.start, c);
    }
  }

  /** AddBlock in terms of covered pages. */
  lemma AddBlockCover(bs: set<Block>, b: Block)
    requires Canonical(bs) && b.order < ORDERS_COUNT && Aligned(b) && Pages(b) !! Cover(bs)
    requires b.order + 1 < ORDERS_COUNT ==> BuddyOf(b) !in bs
    ensures Canonical(bs + {b}) && b !in bs && Cover(bs + {b}) == Cover(bs) + Pages(b)
  {
    CoverIsCovers(bs);
    CoverIsCovers(bs + {b});
    forall p | In(p, b) ensures !Covers(bs, p) { assert p in Pages(b); }
    AddBlock(bs, b);
  }

  ghost function TotalSize(bs: set<Block>): nat {
    if bs == {} then 0 else var b :| b in bs; Count(b.order) + TotalSize(bs - {b})
  }

  /** The number of free pages is the sum of the sizes of the free blocks. */
  lemma {:induction false} CoverSize(bs: set<Block>)
    requires Canonical(bs)
    ensures |Cover(bs)| == TotalSize(bs)
    decreases bs
  {
    if bs == {} {
      assert Cover(bs) == {};
    } else {
      var b :| b in bs && TotalSize(bs) == Count(b.order) + TotalSize(bs - {b});
      RemoveBlock(bs, b);
      CoverSize(bs - {b});
      CoverIsCovers(bs);
      CoverIsCovers(bs - {b});
      PagesSize(b);
      forall p | p in Pages(b) ensures p in Cover(bs) { assert In(p, b); }
      assert Cover(bs) == Cover(bs - {b}) + Pages(b);
    }
  }
}
