/** The physical page allocator: the free lists of three zones, reference counts and the page
    counters.  Frames are counted in pages, so a zone boundary given in bytes is compared with the
    frame number times the page size. */
module PageAllocator {
  import opened BuddyBlocks
  import opened FreeLists

  const ZONES_COUNT: nat := 3
  const PAGE_SIZE: nat := 4096
  const EMERGENCY_PAGES: nat := 3 * 1000000 / PAGE_SIZE

  /** pmm_get_zone: the boundaries are 2^16 and 2^32 bytes. */
  function Zone(page: int): (z: nat)
    ensures z < ZONES_COUNT
  {
    if page * PAGE_SIZE < 0x1_0000 then 0 else if page * PAGE_SIZE < 0x1_0000_0000 then 1 else 2
  }

  /** Page frames with a page_t, usable and without a reference (pmm_is_free). */
  ghost function FreeSet(refs: map<int, nat>, reserved: set<int>): set<int> {
    set p | p in refs && p !in reserved && refs[p] == 0
  }

  ghost function SharedSet(refs: map<int, nat>): set<int> {
    set p | p in refs && refs[p] >= 2
  }

  /** Frames 0 to 31 are not all usable; the boundary at frame 16 then separates no two buddies. */
  ghost predicate ZoneSafe(usable: set<int>) { exists p :: 0 <= p < 32 && p !in usable }

  /** The lists of every zone hold exactly the free pages of that zone, apart from the `pending`
      ones, which are free already but not on a list yet. */
  ghost predicate Consistent(entries: seq<Lists>, labels: map<int, nat>, refs: map<int, nat>,
                             reserved: set<int>, pending: set<int>)
  {
    && |entries| == ZONES_COUNT && labels.Keys == refs.Keys && (forall p :: p in refs ==> p >= 0)
    && ZoneSafe(refs.Keys - reserved)
    && (forall z :: 0 <= z < ZONES_COUNT ==> ListsOk(entries[z], labels))
    && (forall z, p :: 0 <= z < ZONES_COUNT && p in FreeOf(entries[z]) ==>
          Zone(p) == z && p in FreeSet(refs, reserved) && p !in pending)
    && (forall p :: p in FreeSet(refs, reserved) ==> p in pending || p in FreeOf(entries[Zone(p)]))
    && pending <= FreeSet(refs, reserved)
  }

  /** The reference count of the `n` pages from `start` set to `v`. */
  function SetRefs(refs: map<int, nat>, start: int, n: nat, v: nat): (r: map<int, nat>)
    ensures r.Keys == refs.Keys
  {
    map p | p in refs :: if start <= p < start + n then v else refs[p]
  }

  // ---- zones ----

  /** When frames 0 to 31 are all usable, the condition above is needed. From the state after boot, where
      every count is 1 and every list empty, frames 16 to 31 are freed: their buddy is in use, so they go
      on the list of their own zone. Then frames 0 to 15 are freed: the merge test accepts 16 as their
      buddy, but the lists of their zone do not have it, so the removal works on the wrong list. */
  lemma CrossZoneMerge(info: set<int>, reserved: set<int>)
    requires !ZoneSafe(info - reserved)
    ensures var empty := seq(ORDERS_COUNT, _ => []);
            var refs0: map<int, nat>, labels0: map<int, nat> := map p | p in info :: 1, map p | p in info :: 0;
            var refs1, labels1, l1 := SetRefs(refs0, 16, Count(4), 0), labels0[16 := 4], Appended(empty, 4, 16);
            var refs2 := SetRefs(refs1, 0, Count(4), 0);
            && Zone(16) == 1 && Zone(0) == 0
            && !CanMerge(labels0, refs1, reserved, FlipBit(16, 4), 4) && ListsOk(l1, labels1) && BlocksOf(l1) == {Block(16, 4)}
            && CanMerge(labels1, refs2, reserved, FlipBit(0, 4), 4) && Block(FlipBit(0, 4), 4) !in BlocksOf(empty)
  {
    var empty: seq<seq<int>> := seq(ORDERS_COUNT, _ => []);
    var l1 := Appended(empty, 4, 16);
    var b := Block(16, 4);
    CountValues();
    forall c ensures c in BlocksOf(l1) <==> c == b { if c == b { assert 16 in l1[4]; } }
    assert BlocksOf(l1) == {b};
    assert BlocksOf(empty) == {};
    AlignedIsModulo(16, 4);
    AlignedIsModulo(16, 5);
    AlignedIsModulo(0, 5);
    AlignedIsModulo(0, 4);
    FlipAligned(0, 4);
    FlipAligned(16, 4);
    MergeOf(b);
    CoverIsCovers(BlocksOf(l1));
    forall p | p in FreeOf(l1) ensures p in info {
      assert p in Pages(b);
      assert p in info - reserved;
    }
    assert 16 in info - reserved && 0 in info - reserved;
  }

  lemma CountValues()
    ensures Count(0) == 1 && Count(1) == 2 && Count(2) == 4 && Count(3) == 8
    ensures Count(4) == 16 && Count(5) == 32 && Count(6) == 64
  {
    assert Count(2) == 2 * Count(1);
    assert Count(4) == 2 * Count(3);
    assert Count(6) == 2 * Count(5);
  }

  /** The starts and sizes of blocks, as plain arithmetic. */
  lemma BlockArithmetic(b: Block)
    requires Aligned(b) && b.order < ORDERS_COUNT
    ensures var c := Count(b.order);
            c in {1, 2, 4, 8, 16, 32, 64} && b.start % c == 0 && (c == 16 <==> b.order == 4)
  {
    AlignedIsModulo(b.start, b.order);
    CountValues();
  }

  lemma OneSide(start: int, c: int, boundary: int)
    requires c in {1, 2, 4, 8, 16, 32, 64} && start % c == 0
    requires boundary == 0x10_0000 || (boundary == 16 && (c <= 16 || start > 0))
    ensures start < boundary ==> start + c <= boundary
  {
  }

  /** An aligned block whose pages are all usable lies in one zone. */
  lemma OneZone(b: Block, usable: set<int>)
    requires Aligned(b) && b.order < ORDERS_COUNT && ZoneSafe(usable) && Pages(b) <= usable
    requires b.start >= 0
    ensures forall p :: In(p, b) ==> Zone(p) == Zone(b.start)
  {
    BlockArithmetic(b);
    var q :| 0 <= q < 32 && q !in usable;
    assert q !in Pages(b);
    hide Count, AlignedTo;
    assert Count(b.order) >= 32 ==> b.start != 0;
    OneSide(b.start, Count(b.order), 16);
    OneSide(b.start, Count(b.order), 0x10_0000);
  }

  lemma PairZones(lo: int, c: int)
    requires c in {1, 2, 4, 8, 16, 32} && lo % (2 * c) == 0 && lo >= 0
    ensures Zone(lo) != Zone(lo + c) <==> c >= 16 && lo == 0
  {
    OneSide(lo, 2 * c, 0x10_0000);
    assert c < 16 && lo < 16 ==> lo + c < 16;
  }

  /** Two buddies lie in different zones exactly when they are the frames 0-15 and 16-31, or
      0-31 and 32-63. */
  lemma BuddyZones(b: Block)
    requires Aligned(b) && b.order + 1 < ORDERS_COUNT && b.start >= 0
    ensures Zone(BuddyOf(b).start) != Zone(b.start) <==> b.order >= 4 && ParentOf(b).start == 0
  {
    hide FlipBit, AlignedTo, Zone;
    MergeOf(b);
    FlipAligned(b.start, b.order);
    BlockArithmetic(b);
    BlockArithmetic(ParentOf(b));
    assert Count(b.order + 1) == 2 * Count(b.order);
    CountValues();
    BuddyZonesAt(b, ParentOf(b).start, Count(b.order));
  }

  lemma BuddyZonesAt(b: Block, lo: int, c: int)
    requires c in {1, 2, 4, 8, 16, 32} && lo % (2 * c) == 0 && lo >= 0 && (c >= 16 <==> b.order >= 4)
    requires (b.start == lo && BuddyOf(b).start == lo + c) || (b.start == lo + c && BuddyOf(b).start == lo)
    ensures Zone(BuddyOf(b).start) != Zone(b.start) <==> b.order >= 4 && lo == 0
  {
    hide FlipBit, Zone;
    PairZones(lo, c);
  }

  // ---- what one allocation or one merge does to the whole allocator ----

  lemma RelabelElsewhere(l: Lists, labels: map<int, nat>, labels': map<int, nat>, touched: set<int>)
    requires ListsOk(l, labels) && labels'.Keys == labels.Keys && touched !! FreeOf(l)
    requires forall p :: p in labels && p !in touched ==> labels'[p] == labels[p]
    ensures ListsOk(l, labels')
  {
    CoverIsCovers(BlocksOf(l));
    forall b | b in BlocksOf(l) ensures b.start in labels' && labels'[b.start] == b.order {
      assert In(b.start, b);
    }
  }

  /** Labels changed in one zone leave the lists of the others alone. */
  lemma OtherZones(entries: seq<Lists>, labels: map<int, nat>, refs: map<int, nat>, reserved: set<int>,
                   pending: set<int>, z: nat, labels': map<int, nat>, touched: set<int>)
    requires Consistent(entries, labels, refs, reserved, pending) && labels'.Keys == labels.Keys
    requires forall p :: p in touched ==> Zone(p) == z
    requires forall p :: p in labels && p !in touched ==> labels'[p] == labels[p]
    ensures forall y :: 0 <= y < ZONES_COUNT && y != z ==> ListsOk(entries[y], labels')
  {
    hide ListsOk, FreeOf, Zone;
    forall y | 0 <= y < ZONES_COUNT && y != z ensures ListsOk(entries[y], labels') {
      forall p | p in FreeOf(entries[y]) ensures p !in touched { assert Zone(p) == y; }
      RelabelElsewhere(entries[y], labels, labels', touched);
    }
  }

  lemma TakenFreeSet(refs: map<int, nat>, reserved: set<int>, run: Block)
    requires Pages(run) <= FreeSet(refs, reserved)
    ensures FreeSet(SetRefs(refs, run.start, Count(run.order), 1), reserved) == FreeSet(refs, reserved) - Pages(run)
  {
    var refs' := SetRefs(refs, run.start, Count(run.order), 1);
    forall p ensures p in FreeSet(refs', reserved) <==> p in FreeSet(refs, reserved) - Pages(run) {
      assert p in Pages(run) <==> In(p, run);
    }
  }

  /** Taking a run from the lists of one zone and setting its reference counts to 1. */
  lemma AllocateKeeps(entries: seq<Lists>, labels: map<int, nat>, refs: map<int, nat>, reserved: set<int>,
                      z: nat, l': Lists, labels': map<int, nat>, run: Block)
    requires Consistent(entries, labels, refs, reserved, {}) && z < ZONES_COUNT
    requires ListsOk(l', labels') && Took(entries[z], l', run) && SameLabels(entries[z], labels, labels')
    ensures Consistent(entries[z := l'], labels', SetRefs(refs, run.start, Count(run.order), 1), reserved, {})
    ensures FreeSet(SetRefs(refs, run.start, Count(run.order), 1), reserved) == FreeSet(refs, reserved) - Pages(run)
    ensures Pages(run) <= FreeSet(refs, reserved)
  {
    hide ListsOk, Zone, FreeOf, SetRefs, Pages, Aligned, FreeSet;
    var refs' := SetRefs(refs, run.start, Count(run.order), 1);
    var entries' := entries[z := l'];
    forall p | p in Pages(run) ensures p in FreeSet(refs, reserved) { assert p in FreeOf(entries[z]); }
    assert Pages(run) <= FreeSet(refs, reserved);
    TakenFreeSet(refs, reserved, run);
    OtherZones(entries, labels, refs, reserved, {}, z, labels', FreeOf(entries[z]));
    forall y, p | 0 <= y < ZONES_COUNT && p in FreeOf(entries'[y])
      ensures p in FreeOf(entries[y]) && p in FreeSet(refs', reserved)
    {
      if y == z { assert p in FreeOf(entries[z]) - Pages(run); } else { assert Zone(p) == y; }
    }
    forall p | p in FreeSet(refs', reserved) ensures p in FreeOf(entries'[Zone(p)]) {
      assert p in FreeSet(refs, reserved) - Pages(run);
    }
  }

  /** The test of the merge loop on the page info at the buddy's address. */
  predicate CanMerge(labels: map<int, nat>, refs: map<int, nat>, reserved: set<int>, m: int, order: nat) {
    m in refs && refs[m] == 0 && m !in reserved && m in labels && labels[m] == order
  }

  /** The test of the merge loop finds the buddy exactly when it is a free block of that order in
      the zone of the block being freed. */
  lemma BuddyOnList(entries: seq<Lists>, labels: map<int, nat>, refs: map<int, nat>, reserved: set<int>, b: Block)
    requires Consistent(entries, labels, refs, reserved, Pages(b)) && Aligned(b) && b.order + 1 < ORDERS_COUNT
    ensures |entries| == ZONES_COUNT
    ensures CanMerge(labels, refs, reserved, FlipBit(b.start, b.order), b.order)
            <==> BuddyOf(b) in BlocksOf(entries[Zone(b.start)])
  {
    hide ListsOk, FlipBit, AlignedTo, BlocksOf, Cover;
    var m, z := BuddyOf(b), Zone(b.start);
    BuddyFacts(entries, labels, refs, reserved, b);
    if m in BlocksOf(entries[z]) {
      CoveredIsFree(entries, labels, refs, reserved, Pages(b), m, z, m.start);
      HeadLabel(entries[z], labels, m);
    }
    if CanMerge(labels, refs, reserved, m.start, b.order) {
      assert m.start in FreeSet(refs, reserved) && m.start !in Pages(b);
      assert b.start !in FreeOf(entries[Zone(m.start)]);
      BuddyBlockFree(entries[Zone(m.start)], labels, b);
      BuddySameZone(entries, labels, refs, reserved, b);
    }
  }

  lemma BuddyFacts(entries: seq<Lists>, labels: map<int, nat>, refs: map<int, nat>, reserved: set<int>, b: Block)
    requires Consistent(entries, labels, refs, reserved, Pages(b)) && Aligned(b)
    ensures b.start in Pages(b) && b.start >= 0 && In(BuddyOf(b).start, BuddyOf(b)) && BuddyOf(b).start !in Pages(b)
  {
    hide ListsOk;
    assert b.start in Pages(b);
    MergeOf(b);
    assert In(BuddyOf(b).start, BuddyOf(b));
  }

  lemma HeadLabel(l: Lists, labels: map<int, nat>, b: Block)
    requires ListsOk(l, labels) && b in BlocksOf(l)
    ensures b.start in labels && labels[b.start] == b.order
  {
  }

  /** A free page with the right label at the buddy's place heads the buddy block. */
  lemma BuddyBlockFree(l: Lists, labels: map<int, nat>, b: Block)
    requires ListsOk(l, labels) && Aligned(b) && b.start !in FreeOf(l)
    requires BuddyOf(b).start in FreeOf(l) && labels[BuddyOf(b).start] == b.order
    ensures BuddyOf(b) in BlocksOf(l)
  {
    hide FlipBit, AlignedTo;
    var m := BuddyOf(b);
    MergeOf(b);
    assert In(m.start, m) && In(m.start, ParentOf(b)) && In(b.start, ParentOf(b)) && In(b.start, b);
    CoverIsCovers(BlocksOf(l));
    var c :| c in BlocksOf(l) && In(m.start, c);
    if c.order > b.order { Nested(ParentOf(b), c, m.start); }
    // a larger block would hold b.start as well
    assert c.order <= b.order;
    Nested(c, m, m.start);
    assert In(c.start, c);
  }

  lemma BuddySameZone(entries: seq<Lists>, labels: map<int, nat>, refs: map<int, nat>, reserved: set<int>, b: Block)
    requires Consistent(entries, labels, refs, reserved, Pages(b)) && Aligned(b) && b.order + 1 < ORDERS_COUNT
    requires b.start >= 0 && BuddyOf(b) in BlocksOf(entries[Zone(BuddyOf(b).start)])
    ensures Zone(BuddyOf(b).start) == Zone(b.start)
  {
    BuddyZones(b);
    MergeOf(b);
    CountValues();
    assert b.order >= 4 ==> Count(b.order + 1) >= 32;
    hide Zone, FlipBit, AlignedTo;
    forall p | In(p, ParentOf(b)) ensures p in FreeSet(refs, reserved) {
      if In(p, b) { assert p in Pages(b); }
      else { CoveredIsFree(entries, labels, refs, reserved, Pages(b), BuddyOf(b), Zone(BuddyOf(b).start), p); }
    }
    var q :| 0 <= q < 32 && q !in refs.Keys - reserved;
    assert !In(q, ParentOf(b));
  }

  lemma CoveredIsFree(entries: seq<Lists>, labels: map<int, nat>, refs: map<int, nat>, reserved: set<int>,
                      pending: set<int>, b: Block, z: nat, p: int)
    requires Consistent(entries, labels, refs, reserved, pending) && z < ZONES_COUNT
    requires b in BlocksOf(entries[z]) && In(p, b)
    ensures p in FreeSet(refs, reserved)
  {
    hide ListsOk;
    CoverIsCovers(BlocksOf(entries[z]));
    assert p in FreeOf(entries[z]);
  }

  /** Removing the buddy block from its list makes the parent block pending. */
  lemma MergeStep(entries: seq<Lists>, labels: map<int, nat>, refs: map<int, nat>, reserved: set<int>,
                  b: Block, i: nat)
    requires Consistent(entries, labels, refs, reserved, Pages(b)) && Aligned(b) && b.order + 1 < ORDERS_COUNT
    requires var z := Zone(b.start); i < |entries[z][b.order]| && entries[z][b.order][i] == BuddyOf(b).start
    ensures var z := Zone(b.start);
            Consistent(entries[z := Removed(entries[z], b.order, i)], labels, refs, reserved, Pages(ParentOf(b)))
    ensures Aligned(ParentOf(b)) && Zone(ParentOf(b).start) == Zone(b.start)
  {
    hide ListsOk, Zone, FlipBit, AlignedTo, Removed, Pages, FreeOf;
    var z, m := Zone(b.start), BuddyOf(b);
    ListRemoveOk(entries[z], labels, b.order, i);
    ParentPages(b);
    assert m.start in FreeOf(entries[z]);
    var entries' := entries[z := Removed(entries[z], b.order, i)];
    forall p | p in Pages(m) ensures p in FreeSet(refs, reserved) && Zone(p) == z { assert p in FreeOf(entries[z]); }
    forall y, p | 0 <= y < ZONES_COUNT && p in FreeOf(entries'[y]) ensures p in FreeOf(entries[y]) && p !in Pages(m) {
      if y == z { assert p in FreeOf(entries[z]) - Pages(m); } else { assert Zone(p) == y; }
    }
    forall p | p in FreeSet(refs, reserved) && p !in Pages(ParentOf(b)) ensures p in FreeOf(entries'[Zone(p)]) {
      assert p in FreeOf(entries[Zone(p)]) - Pages(m);
    }
    forall p | p in Pages(ParentOf(b)) ensures p in FreeSet(refs, reserved) {
      assert p in Pages(b) || p in Pages(m);
    }
  }

  lemma ParentPages(b: Block)
    requires Aligned(b)
    ensures Aligned(ParentOf(b)) && Pages(ParentOf(b)) == Pages(b) + Pages(BuddyOf(b)) && Pages(b) !! Pages(BuddyOf(b))
    ensures BuddyOf(b).start in Pages(BuddyOf(b))
  {
    MergeOf(b);
    var m := BuddyOf(b);
    assert In(m.start, m);
    forall p ensures p in Pages(ParentOf(b)) <==> p in Pages(b) + Pages(m) {
      assert In(p, ParentOf(b)) <==> In(p, b) || In(p, m);
    }
    forall p | p in Pages(b) ensures p !in Pages(m) { assert In(p, b); }
  }

  /** Without a free buddy the pending block goes on its list, which completes the free. */
  lemma MergeStop(entries: seq<Lists>, labels: map<int, nat>, refs: map<int, nat>, reserved: set<int>, b: Block)
    requires Consistent(entries, labels, refs, reserved, Pages(b)) && Aligned(b) && b.order < ORDERS_COUNT
    requires b.order + 1 < ORDERS_COUNT ==> BuddyOf(b) !in BlocksOf(entries[Zone(b.start)])
    ensures |entries| == ZONES_COUNT
    ensures var z := Zone(b.start);
            Consistent(entries[z := Appended(entries[z], b.order, b.start)], labels[b.start := b.order], refs, reserved, {})
  {
    hide AlignedTo, Appended, Canonical, Cover, Zone;
    var z := Zone(b.start);
    var l := entries[z];
    var labels' := labels[b.start := b.order];
    assert b.start in Pages(b);
    assert ListsOk(l, labels);
    OneZone(b, refs.Keys - reserved);
    AddBlockCover(BlocksOf(l), b);
    AppendOk(l, labels, b);
    OtherZones(entries, labels, refs, reserved, Pages(b), z, labels', {b.start});
  }

  // ---- determinacy and completeness ----

  /** The free pages of one zone are exactly what its lists hold. */
  lemma ZoneFree(entries: seq<Lists>, labels: map<int, nat>, refs: map<int, nat>, reserved: set<int>, z: nat)
    requires Consistent(entries, labels, refs, reserved, {}) && z < ZONES_COUNT
    ensures forall p :: p in FreeOf(entries[z]) <==> p in FreeSet(refs, reserved) && Zone(p) == z
  {
    hide ListsOk;
  }

  lemma ListDetermined(entries: seq<Lists>, labels: map<int, nat>, entries': seq<Lists>, labels': map<int, nat>,
                       refs: map<int, nat>, refs': map<int, nat>, reserved: set<int>, z: nat)
    requires Consistent(entries, labels, refs, reserved, {}) && Consistent(entries', labels', refs', reserved, {})
    requires FreeSet(refs, reserved) == FreeSet(refs', reserved) && z < ZONES_COUNT
    ensures BlocksOf(entries[z]) == BlocksOf(entries'[z])
  {
    hide Canonical, Cover, Covers, FreeSet;
    var a, b := BlocksOf(entries[z]), BlocksOf(entries'[z]);
    ZoneFree(entries, labels, refs, reserved, z);
    ZoneFree(entries', labels', refs', reserved, z);
    CoverIsCovers(a);
    CoverIsCovers(b);
    assert ListsOk(entries[z], labels) && ListsOk(entries'[z], labels');
    forall p ensures Covers(a, p) <==> Covers(b, p) {
      assert p in FreeOf(entries[z]) <==> p in FreeOf(entries'[z]);
    }
    CanonicalIsDetermined(a, b);
  }

  /** The reference counts determine the set of blocks on every list. */
  lemma ListsAreDetermined(entries: seq<Lists>, labels: map<int, nat>, entries': seq<Lists>, labels': map<int, nat>,
                           refs: map<int, nat>, refs': map<int, nat>, reserved: set<int>)
    requires Consistent(entries, labels, refs, reserved, {}) && Consistent(entries', labels', refs', reserved, {})
    requires FreeSet(refs, reserved) == FreeSet(refs', reserved)
    ensures |entries| == |entries'| == ZONES_COUNT
    ensures forall z :: 0 <= z < ZONES_COUNT ==> BlocksOf(entries[z]) == BlocksOf(entries'[z])
  {
    hide ListsOk;
    forall z | 0 <= z < ZONES_COUNT ensures BlocksOf(entries[z]) == BlocksOf(entries'[z]) {
      ListDetermined(entries, labels, entries', labels', refs, refs', reserved, z);
    }
  }

  /** The zone holds an aligned run of 2^order pages, all of them free. */
  ghost predicate FreeRun(refs: map<int, nat>, reserved: set<int>, z: nat, order: nat) {
    order < ORDERS_COUNT &&
    exists s :: Aligned(Block(s, order)) && forall p :: In(p, Block(s, order)) ==> p in FreeSet(refs, reserved) && Zone(p) == z
  }

  lemma RunIffBlock(entries: seq<Lists>, labels: map<int, nat>, refs: map<int, nat>, reserved: set<int>,
                    z: nat, order: nat)
    requires Consistent(entries, labels, refs, reserved, {}) && z < ZONES_COUNT
    ensures |entries| == ZONES_COUNT && ListsOk(entries[z], labels)
    ensures HasBlock(entries[z], order) <==> FreeRun(refs, reserved, z, order)
  {
    var bs := BlocksOf(entries[z]);
    ZoneFree(entries, labels, refs, reserved, z);
    CoverIsCovers(bs);
    assert ListsOk(entries[z], labels);
    hide Consistent, FlipBit, AlignedTo, Zone;
    if HasBlock(entries[z], order) {
      var b :| b in bs && b.order >= order;
      AlignedBelow(b, order);
      forall p | In(p, Block(b.start, order)) ensures p in FreeOf(entries[z]) { assert In(p, b); }
    }
    if FreeRun(refs, reserved, z, order) {
      var s :| Aligned(Block(s, order)) && forall p :: In(p, Block(s, order)) ==> p in FreeSet(refs, reserved) && Zone(p) == z;
      forall p | In(p, Block(s, order)) ensures Covers(bs, p) { assert p in FreeOf(entries[z]); }
      var home := RunInsideOneBlock(bs, Block(s, order));
    }
  }

  lemma {:induction false} AlignedBelow(b: Block, order: nat)
    requires Aligned(b) && order <= b.order
    ensures Aligned(Block(b.start, order)) && Count(order) <= Count(b.order)
    decreases b.order
  {
    if order < b.order {
      AlignedDown(b.start, b.order);
      AlignedBelow(Block(b.start, b.order - 1), order);
    }
  }

  lemma TookZone(entries: seq<Lists>, labels: map<int, nat>, refs: map<int, nat>, reserved: set<int>,
                 z: nat, l': Lists, run: Block)
    requires Consistent(entries, labels, refs, reserved, {}) && z < ZONES_COUNT && Took(entries[z], l', run)
    ensures Zone(run.start) == z && forall p :: run.start <= p < run.start + Count(run.order) ==> p in refs && Zone(p) == z
  {
    hide ListsOk;
    assert run.start in Pages(run);
    forall p | run.start <= p < run.start + Count(run.order) ensures p in refs && Zone(p) == z {
      assert p in Pages(run);
      assert p in FreeOf(entries[z]);
      assert p in FreeSet(refs, reserved);
    }
  }

  /** The allocation splits a smallest sufficient block of the zone and touches no other block of any zone. */
  ghost predicate SplitLeast(entries: seq<Lists>, entries': seq<Lists>, zone: nat, order: nat, page: int) {
    && |entries| == |entries'| == ZONES_COUNT && zone < ZONES_COUNT
    && TookLeast(entries[zone], entries'[zone], order, page)
    && forall z :: 0 <= z < ZONES_COUNT && z != zone ==> entries'[z] == entries[z]
  }

  lemma LeastInZone(entries: seq<Lists>, zone: nat, order: nat, l': Lists, page: int)
    requires |entries| == ZONES_COUNT && zone < ZONES_COUNT && exists k :: SplitOff(entries[zone], l', order, k, page)
    ensures SplitLeast(entries, entries[zone := l'], zone, order, page)
  {
    hide SplitOff, TookLeast;
    var k :| SplitOff(entries[zone], l', order, k, page);
    SplitTakesLeast(entries[zone], l', order, k, page);
  }

  /** A request that some block of exactly its size can serve leaves every larger block free. */
  lemma ExactFitKeepsLarger(entries: seq<Lists>, entries': seq<Lists>, zone: nat, order: nat, page: int, fit: Block)
    requires SplitLeast(entries, entries', zone, order, page) && fit in BlocksOf(entries[zone]) && fit.order == order
    ensures forall z, b :: 0 <= z < ZONES_COUNT && b in BlocksOf(entries[z]) && b.order > order ==> b in BlocksOf(entries'[z])
    ensures Block(page, order) in BlocksOf(entries[zone])
  {
    hide BlocksOf;
  }

  /** The zones in page frames: below 2^4, below 2^20, and the rest. */
  lemma ZoneBounds(page: int)
    ensures (Zone(page) <= 0 <==> page < 0x10) && (Zone(page) <= 1 <==> page < 0x10_0000)
  {
  }

  lemma RunBelow(page: int, order: nat, z: nat, zone: nat)
    requires forall p :: page <= p < page + Count(order) ==> Zone(p) == z
    requires z <= zone
    ensures zone == 0 ==> page + Count(order) <= 0x10
    ensures zone == 1 ==> page + Count(order) <= 0x10_0000
  {
    var last := page + Count(order) - 1;
    assert Zone(last) == z;
    ZoneBounds(last);
  }

  /** What an allocation does to the number of free and of shared pages. */
  lemma AllocateCounts(refs: map<int, nat>, reserved: set<int>, run: Block)
    requires Pages(run) <= FreeSet(refs, reserved)
    ensures var refs' := SetRefs(refs, run.start, Count(run.order), 1);
            |FreeSet(refs', reserved)| + Count(run.order) == |FreeSet(refs, reserved)| &&
            SharedSet(refs') == SharedSet(refs)
  {
    var refs' := SetRefs(refs, run.start, Count(run.order), 1);
    TakenFreeSet(refs, reserved, run);
    PagesSize(run);
    forall p ensures p in SharedSet(refs') <==> p in SharedSet(refs) {
      if In(p, run) { assert p in Pages(run); }
    }
  }

  /** Setting the counts of a block to zero makes the whole block pending. */
  lemma MarkedFree(entries: seq<Lists>, labels: map<int, nat>, refs: map<int, nat>, reserved: set<int>, b: Block)
    requires Consistent(entries, labels, refs, reserved, Pages(b) * FreeSet(refs, reserved))
    requires Pages(b) <= refs.Keys - reserved
    ensures var refs' := SetRefs(refs, b.start, Count(b.order), 0);
            Consistent(entries, labels, refs', reserved, Pages(b)) &&
            |FreeSet(refs', reserved)| - |Pages(b)| == |FreeSet(refs, reserved)| - |Pages(b) * FreeSet(refs, reserved)|
    ensures forall p :: b.start <= p < b.start + Count(b.order) ==> p in refs
  {
    hide Consistent, SetRefs, FreeSet, Pages;
    MarkedFreeSet(refs, reserved, b);
    Repend(entries, labels, refs, SetRefs(refs, b.start, Count(b.order), 0), reserved, Pages(b));
    FreeCount(FreeSet(refs, reserved), Pages(b));
    RangeInKeys(b, refs.Keys);
  }

  lemma Repend(entries: seq<Lists>, labels: map<int, nat>, refs: map<int, nat>, refs': map<int, nat>,
               reserved: set<int>, ps: set<int>)
    requires Consistent(entries, labels, refs, reserved, ps * FreeSet(refs, reserved))
    requires refs'.Keys == refs.Keys && FreeSet(refs', reserved) == FreeSet(refs, reserved) + ps
    ensures Consistent(entries, labels, refs', reserved, ps)
  {
    hide ListsOk, Zone, FreeOf;
    var free, free' := FreeSet(refs, reserved), FreeSet(refs', reserved);
    forall z, p | 0 <= z < ZONES_COUNT && p in FreeOf(entries[z]) ensures p in free' && p !in ps {
      assert p in free && p !in ps * free;
    }
    forall p | p in free' && p !in ps ensures p in FreeOf(entries[Zone(p)]) { assert p in free; }
  }

  lemma MarkedFreeSet(refs: map<int, nat>, reserved: set<int>, b: Block)
    requires Pages(b) <= refs.Keys - reserved
    ensures FreeSet(SetRefs(refs, b.start, Count(b.order), 0), reserved) == FreeSet(refs, reserved) + Pages(b)
  {
    var refs' := SetRefs(refs, b.start, Count(b.order), 0);
    forall p ensures p in FreeSet(refs', reserved) <==> p in FreeSet(refs, reserved) + Pages(b) {
      assert p in Pages(b) <==> In(p, b);
    }
  }

  lemma FreeCount(free: set<int>, ps: set<int>)
    ensures |free + ps| - |ps| == |free| - |ps * free|
  {
    assert free + ps == (free - ps) + ps;
    assert free == (free - ps) + (ps * free);
  }

  lemma RangeInKeys(b: Block, keys: set<int>)
    requires Pages(b) <= keys
    ensures forall p :: b.start <= p < b.start + Count(b.order) ==> p in keys
  {
    forall p | b.start <= p < b.start + Count(b.order) ensures p in keys { assert p in Pages(b); }
  }

  ghost predicate Unshared(refs: map<int, nat>, start: int, n: nat) {
    forall p :: start <= p < start + n && p in refs ==> refs[p] <= 1
  }

  /** Freeing keeps the shared pages exactly when none of the freed ones was shared. */
  lemma MarkedShared(refs: map<int, nat>, start: int, n: nat)
    ensures |SharedSet(SetRefs(refs, start, n, 0))| == |SharedSet(refs)| <==> Unshared(refs, start, n)
  {
    var a, b := SharedSet(SetRefs(refs, start, n, 0)), SharedSet(refs);
    assert a <= b;
    if Unshared(refs, start, n) {
      assert a == b;
    } else {
      var p :| start <= p < start + n && p in refs && refs[p] > 1;
      assert p in b && p !in a;
      assert a <= b - {p};
      SubsetSize(a, b - {p});
    }
  }

  lemma {:induction false} SubsetSize(a: set<int>, b: set<int>)
    requires a <= b
    ensures |a| <= |b|
  {
    assert b == a + (b - a);
  }

  /** A block whose pages are all referenced shares no page with the free ones. */
  lemma BlockNotFree(refs: map<int, nat>, reserved: set<int>, b: Block)
    requires forall p :: In(p, b) ==> p in refs && p !in reserved && refs[p] >= 1
    ensures Pages(b) <= refs.Keys - reserved && Pages(b) * FreeSet(refs, reserved) == {}
  {
    forall p | p in Pages(b) ensures p in refs.Keys - reserved && p !in FreeSet(refs, reserved) { assert In(p, b); }
  }

  lemma EmptyRange(refs: map<int, nat>, start: int)
    ensures SetRefs(refs, start, 0, 0) == refs
  {
  }

  /** The part of a range not freed yet, and one more block of it. */
  lemma RestOfRange(refs: map<int, nat>, reserved: set<int>, start: int, count: nat, done: nat, b: Block)
    requires forall p :: start <= p < start + count ==> p in refs && p !in reserved && refs[p] >= 1
    requires b.start == start + done && done + Count(b.order) <= count
    ensures var refs' := SetRefs(refs, start, done, 0);
            && Pages(b) <= refs'.Keys - reserved && Pages(b) * FreeSet(refs', reserved) == {}
            && SetRefs(refs', b.start, Count(b.order), 0) == SetRefs(refs, start, done + Count(b.order), 0)
  {
    BlockNotFree(SetRefs(refs, start, done, 0), reserved, b);
  }

  lemma SetOneRef(refs: map<int, nat>, page: int)
    requires page in refs
    ensures SetRefs(refs, page, Count(0), 0) == refs[page := 0] && Unshared(refs, page, Count(0)) == (refs[page] <= 1)
  {
  }

  /** A run taken at count 1 may be freed, which restores the counts. */
  lemma AllocatedRun(refs: map<int, nat>, reserved: set<int>, run: Block)
    requires Pages(run) <= FreeSet(refs, reserved)
    ensures var refs' := SetRefs(refs, run.start, Count(run.order), 1);
            Pages(run) <= refs'.Keys - reserved && Pages(run) * FreeSet(refs', reserved) == {} &&
            SetRefs(refs', run.start, Count(run.order), 0) == refs
  {
    var refs' := SetRefs(refs, run.start, Count(run.order), 1);
    forall p | In(p, run) ensures p in refs' && p !in reserved && refs'[p] >= 1 && refs[p] == 0 {
      assert p in Pages(run);
    }
    BlockNotFree(refs', reserved, run);
  }

  /** Changing one count between non-zero values keeps the lists and moves at most one page
      between private and shared. */
  lemma RecountOne(entries: seq<Lists>, labels: map<int, nat>, refs: map<int, nat>, reserved: set<int>,
                   page: int, v: nat)
    requires Consistent(entries, labels, refs, reserved, {}) && page in refs && refs[page] >= 1 && v >= 1
    ensures Consistent(entries, labels, refs[page := v], reserved, {})
    ensures FreeSet(refs[page := v], reserved) == FreeSet(refs, reserved)
    ensures |SharedSet(refs[page := v])| ==
            |SharedSet(refs)| + (if v >= 2 then 1 else 0) - (if refs[page] >= 2 then 1 else 0)
  {
    hide ListsOk, Zone, FreeOf;
    var refs' := refs[page := v];
    var a, b := SharedSet(refs), SharedSet(refs');
    assert refs'.Keys == refs.Keys;
    assert FreeSet(refs', reserved) == FreeSet(refs, reserved);
    assert a - {page} == b - {page};
    assert |a| == |a - {page}| + (if page in a then 1 else 0);
    assert |b| == |b - {page}| + (if page in b then 1 else 0);
  }

  /** The place of a node on its list. */
  method FindNode(l: Lists, k: nat, page: int) returns (i: nat)
    requires k < ORDERS_COUNT && Block(page, k) in BlocksOf(l)
    ensures i < |l[k]| && l[k][i] == page
  {
    assert page in l[k];
    i := 0;
    while l[k][i] != page
      invariant i < |l[k]| && page !in l[k][..i]
      decreases |l[k]| - i
    {
      i := i + 1;
    }
  }

  datatype AllocResult = Page(page: int) | Invalid | Panic

  /** The free pages are counted by the blocks of the three zones. */
  lemma FreeAddsUp(entries: seq<Lists>, labels: map<int, nat>, refs: map<int, nat>, reserved: set<int>)
    requires Consistent(entries, labels, refs, reserved, {})
    ensures |entries| == ZONES_COUNT
    ensures |FreeSet(refs, reserved)| ==
            TotalSize(BlocksOf(entries[0])) + TotalSize(BlocksOf(entries[1])) + TotalSize(BlocksOf(entries[2]))
  {
    hide FreeSet, Zone, BlocksOf, TotalSize, Canonical, NoDup;
    var a, b, c := FreeOf(entries[0]), FreeOf(entries[1]), FreeOf(entries[2]);
    forall z | 0 <= z < ZONES_COUNT ensures |FreeOf(entries[z])| == TotalSize(BlocksOf(entries[z])) {
      assert ListsOk(entries[z], labels);
      CoverSize(BlocksOf(entries[z]));
    }
    forall p | p in FreeSet(refs, reserved) ensures p in a + b + c {
      ZoneRange(p);
      assert p in FreeOf(entries[Zone(p)]);
    }
    assert FreeSet(refs, reserved) == a + b + c;
    assert a !! b && (a + b) !! c;
  }

  lemma ZoneRange(p: int)
    ensures Zone(p) == 0 || Zone(p) == 1 || Zone(p) == 2
  {
  }

  class Pmm {
    var entries: seq<Lists>
    var refs: map<int, nat>
    var labels: map<int, nat>
    const reserved: set<int>
    var usedPages: int
    var privatePages: int
    var sharedPages: int
    const totalPages: int

    ghost function Free(): set<int>
      reads this
    {
      FreeSet(refs, reserved)
    }

    /** Every invariant, while the free pages `pending` are not on a list yet. */
    ghost predicate ValidBut(pending: set<int>)
      reads this
    {
      && Consistent(entries, labels, refs, reserved, pending)
      && usedPages + |Free()| - |pending| == totalPages
      && privatePages + sharedPages == usedPages
    }

    ghost predicate Valid()
      reads this
    {
      ValidBut({})
    }

    ghost predicate SharedExact()
      reads this
    {
      sharedPages == |SharedSet(refs)|
    }

    /** Used pages and the sizes of the free blocks of all zones add up to all pages, in every state. */
    lemma Conserved()
      requires Valid()
      ensures |entries| == ZONES_COUNT
      ensures usedPages + TotalSize(BlocksOf(entries[0])) + TotalSize(BlocksOf(entries[1])) + TotalSize(BlocksOf(entries[2]))
              == totalPages
    {
      FreeAddsUp(entries, labels, refs, reserved);
    }

    constructor (info: set<int>, usable: set<int>, total: nat)
      requires ZoneSafe(usable) && usable <= info && (forall p :: p in info ==> p >= 0)
      ensures Valid() && SharedExact() && Free() == {} && refs == map p | p in info :: 1
      ensures reserved == info - usable && usedPages == totalPages == total
    {
      entries := seq(ZONES_COUNT, _ => seq(ORDERS_COUNT, _ => []));
      refs := map p | p in info :: 1;
      labels := map p | p in info :: 0;
      reserved := info - usable;
      usedPages, privatePages, sharedPages, totalPages := total, total, 0, total;
      new;
      assert refs.Keys - reserved == usable;
      assert SharedSet(refs) == {};
      assert Free() == {};
      assert forall z :: 0 <= z < ZONES_COUNT ==> BlocksOf(entries[z]) == {};
    }

    /** pmm_helper_allocate_pages */
    method HelperAllocate(zone: nat, order: nat) returns (r: Option<int>)
      requires Valid() && zone < ZONES_COUNT
      modifies this
      ensures Valid() && (old(SharedExact()) ==> SharedExact())
      ensures r.Some? <==> old(FreeRun(refs, reserved, zone, order))
      ensures sharedPages == old(sharedPages)
      ensures r == None ==> refs == old(refs) && usedPages == old(usedPages) && entries == old(entries)
      ensures r.Some? ==> Aligned(Block(r.value, order)) && Pages(Block(r.value, order)) <= old(Free())
      ensures r.Some? ==> Zone(r.value) == zone && usedPages == old(usedPages) + Count(order)
      ensures r.Some? ==> refs == SetRefs(old(refs), r.value, Count(order), 1)
      ensures r.Some? ==> forall p :: r.value <= p < r.value + Count(order) ==> Zone(p) == zone
      ensures r.Some? ==> SplitLeast(old(entries), entries, zone, order, r.value)
    {
      hide Consistent, FreeRun, HasBlock, ListsOk, FreeOf, FreeSet, SharedSet, SetRefs, Pages, Zone, AlignedTo, SplitOff, SplitLeast;
      RunIffBlock(entries, labels, refs, reserved, zone, order);
      var lists', labels';
      r, lists', labels' := RawAllocate(entries[zone], labels, order);
      if r == None { return; }
      AllocateKeeps(entries, labels, refs, reserved, zone, lists', labels', Block(r.value, order));
      AllocateCounts(refs, reserved, Block(r.value, order));
      TookZone(entries, labels, refs, reserved, zone, lists', Block(r.value, order));
      LeastInZone(entries, zone, order, lists', r.value);
      entries, labels := entries[zone := lists'], labels';
      usedPages := usedPages + Count(order);
      privatePages := privatePages + Count(order);
      MarkPages(r.value, Count(order), 1);
    }

    /** The loops that store one reference count into consecutive page infos. */
    method MarkPages(start: int, n: nat, v: nat)
      requires forall p :: start <= p < start + n ==> p in refs
      modifies this`refs
      ensures refs == SetRefs(old(refs), start, n, v)
    {
      var i := 0;
      while i < n
        invariant 0 <= i <= n
        invariant refs == SetRefs(old(refs), start, i, v)
      {
        refs := refs[start + i := v];
        i := i + 1;
      }
    }

    /** pmm_zone_allocate_pages_flags once the page infos exist; `zone` 42 is ZONE_DEFAULT. */
    method ZoneAllocate(zone: nat, order: nat, emergency: bool, oomPanics: bool) returns (r: AllocResult)
      requires Valid() && (zone < ZONES_COUNT || zone == 42)
      modifies this
      ensures Valid() && (old(SharedExact()) ==> SharedExact())
      ensures r.Page? <==>
        && (emergency || old(totalPages - usedPages) >= EMERGENCY_PAGES + Count(order))
        && exists z :: 0 <= z <= (if zone == 42 then 2 else zone) && old(FreeRun(refs, reserved, z, order))
      ensures r.Panic? ==> oomPanics
      ensures r.Invalid? ==> !oomPanics
      ensures !r.Page? ==> refs == old(refs) && usedPages == old(usedPages) && entries == old(entries)
      ensures r.Page? ==> Aligned(Block(r.page, order)) && Pages(Block(r.page, order)) <= old(Free())
      ensures r.Page? ==> refs == SetRefs(old(refs), r.page, Count(order), 1)
      ensures r.Page? ==> forall z :: Zone(r.page) < z <= (if zone == 42 then 2 else zone) ==>
                !old(FreeRun(refs, reserved, z, order))
      ensures r.Page? ==> usedPages == old(usedPages) + Count(order)
      ensures r.Page? ==> Zone(r.page) <= if zone == 42 then 2 else zone
      ensures r.Page? ==> zone == 0 ==> r.page + Count(order) <= 0x10
      ensures r.Page? ==> zone == 1 ==> r.page + Count(order) <= 0x10_0000
      ensures r.Page? ==> SplitLeast(old(entries), entries, Zone(r.page), order, r.page)
      ensures sharedPages == old(sharedPages)
    {
      hide Consistent, FreeRun, FreeSet, SharedSet, SetRefs, Pages, Zone, AlignedTo, SplitLeast;
      var top := if zone == 42 then ZONES_COUNT - 1 else zone;
      var failed := if oomPanics then Panic else Invalid;
      if !emergency && totalPages - usedPages < EMERGENCY_PAGES + Count(order) { return failed; }
      var z := top;
      while z >= 0
        invariant -1 <= z <= top && Valid() && (old(SharedExact()) ==> SharedExact())
        invariant refs == old(refs) && usedPages == old(usedPages) && entries == old(entries)
        invariant sharedPages == old(sharedPages)
        invariant forall y :: z < y <= top ==> !FreeRun(refs, reserved, y, order)
      {
        var page := HelperAllocate(z, order);
        if page.Some? {
          RunBelow(page.value, order, z, zone);
          return Page(page.value);
        }
        z := z - 1;
      }
      r := failed;
    }

    /** pmm_zone_set_free_pages: merge with free buddies, then append. */
    method ZoneSetFree(zone: nat, start: int, order: nat)
      requires zone == Zone(start) && order < ORDERS_COUNT && Aligned(Block(start, order))
      requires ValidBut(Pages(Block(start, order)))
      modifies this`entries, this`labels, this`usedPages, this`privatePages
      ensures Valid() && usedPages == old(usedPages) - Count(order)
    {
      hide Consistent, FreeSet, Pages, Zone, AlignedTo, FlipBit, Appended, Removed, BlocksOf;
      PagesSize(Block(start, order));
      usedPages := usedPages - Count(order);
      privatePages := privatePages - Count(order);
      var s, k := start, order;
      while k + 1 < ORDERS_COUNT
        invariant k < ORDERS_COUNT && Aligned(Block(s, k)) && Zone(s) == zone
        invariant Consistent(entries, labels, refs, reserved, Pages(Block(s, k)))
        invariant usedPages == old(usedPages) - Count(order) && privatePages == old(privatePages) - Count(order)
        decreases ORDERS_COUNT - k
      {
        ghost var b := Block(s, k);
        BuddyOnList(entries, labels, refs, reserved, b);
        var m := FlipBit(s, k);
        if !CanMerge(labels, refs, reserved, m, k) { break; }
        var i := FindNode(entries[zone], k, m);
        MergeStep(entries, labels, refs, reserved, b, i);
        entries := entries[zone := Removed(entries[zone], k, i)];
        if m < s { s := m; }
        k := k + 1;
      }
      MergeStop(entries, labels, refs, reserved, Block(s, k));
      entries := entries[zone := Appended(entries[zone], k, s)];
      labels := labels[s := k];
    }

    /** pmm_set_free_pages: the counts go to zero, whatever they were, and the block is freed.
        No page of the block may be on a free list. */
    method SetFreePages(start: int, order: nat)
      requires order < ORDERS_COUNT && start % Count(order) == 0
      requires Pages(Block(start, order)) <= refs.Keys - reserved
      requires ValidBut(Pages(Block(start, order)) * Free())
      modifies this
      ensures Valid() && refs == SetRefs(old(refs), start, Count(order), 0)
      ensures usedPages == old(usedPages) - Count(order) && sharedPages == old(sharedPages)
      ensures old(SharedExact()) ==>
        (SharedExact() <==> Unshared(old(refs), start, Count(order)))
    {
      hide Consistent, FreeSet, SetRefs, Zone, AlignedTo, SharedSet, Pages;
      AlignedIsModulo(start, order);
      RangeInKeys(Block(start, order), refs.Keys);
      MarkPages(start, Count(order), 0);
      MarkedFree(entries, labels, old(refs), reserved, Block(start, order));
      MarkedShared(old(refs), start, Count(order));
      ZoneSetFree(Zone(start), start, order);
    }

    /** The largest block that starts at a page and fits a count. */
    static method LargestOrder(s: int, left: nat) returns (k: nat)
      requires left > 0
      ensures k < ORDERS_COUNT && Count(k) <= left && s % Count(k) == 0
      ensures forall j :: k < j < ORDERS_COUNT ==> left < Count(j) || s % Count(j) != 0
    {
      assert Count(0) == 1;
      k := ORDERS_COUNT - 1;
      while left < Count(k) || s % Count(k) != 0
        invariant 0 <= k < ORDERS_COUNT
        invariant forall j :: k < j < ORDERS_COUNT ==> left < Count(j) || s % Count(j) != 0
        decreases k
      {
        k := k - 1;
      }
    }

    /** pmm_set_free_pages_range: cut the range into aligned blocks, largest first. */
    method SetFreeRange(start: int, count: nat)
      requires Valid() && forall p :: start <= p < start + count ==> p in refs && p !in reserved && refs[p] >= 1
      modifies this
      ensures Valid() && refs == SetRefs(old(refs), start, count, 0) && usedPages == old(usedPages) - count
      ensures sharedPages == old(sharedPages)
      ensures old(SharedExact()) ==> (SharedExact() <==> Unshared(old(refs), start, count))
    {
      hide Consistent, FreeSet, SharedSet, AlignedTo, SetRefs, Unshared;
      EmptyRange(refs, start);
      var s, left := start, count;
      while left > 0
        invariant 0 <= left <= count && s == start + (count - left) && Valid()
        invariant refs == SetRefs(old(refs), start, count - left, 0)
        invariant usedPages == old(usedPages) - (count - left)
        invariant sharedPages == old(sharedPages)
      {
        var k := LargestOrder(s, left);
        RestOfRange(old(refs), reserved, start, count, count - left, Block(s, k));
        SetFreePages(s, k);
        s, left := s + Count(k), left - Count(k);
      }
      MarkedShared(old(refs), start, count);
    }

    /** pmm_retain */
    method Retain(page: int) returns (ok: bool)
      requires Valid() && page in refs
      modifies this`refs, this`privatePages, this`sharedPages
      ensures Valid() && (old(SharedExact()) ==> SharedExact())
      ensures ok <==> old(refs[page]) != 0
      ensures refs == if ok then old(refs)[page := old(refs[page]) + 1] else old(refs)
      ensures sharedPages == old(sharedPages) + (if old(refs[page]) == 1 then 1 else 0)
    {
      hide Consistent, FreeSet, SharedSet;
      var r := refs[page];
      if r == 0 { return false; }
      RecountOne(entries, labels, refs, reserved, page, r + 1);
      refs := refs[page := r + 1];
      if r == 1 {
        privatePages := privatePages - 1;
        sharedPages := sharedPages + 1;
      }
      ok := true;
    }

    /** pmm_release_page: the last reference frees the page. */
    method Release(page: int)
      requires Valid() && page in refs && page !in reserved && refs[page] >= 1
      modifies this
      ensures Valid() && (old(SharedExact()) ==> SharedExact())
      ensures refs == old(refs)[page := old(refs[page]) - 1]
      ensures usedPages == old(usedPages) - (if old(refs[page]) == 1 then 1 else 0)
      ensures sharedPages == old(sharedPages) - (if old(refs[page]) == 2 then 1 else 0)
    {
      hide Consistent, FreeSet, SharedSet, SetRefs, Pages, AlignedTo;
      var r := refs[page];
      if r != 1 {
        RecountOne(entries, labels, refs, reserved, page, r - 1);
        refs := refs[page := r - 1];
        if r == 2 {
          sharedPages := sharedPages - 1;
          privatePages := privatePages + 1;
        }
        return;
      }
      BlockNotFree(refs, reserved, Block(page, 0));
      SetOneRef(refs, page);
      SetFreePages(page, 0);
    }

    /** Allocating a run and freeing it again leaves every list as it was, up to order. */
    method AllocateThenFree(zone: nat, order: nat)
      requires Valid() && zone < ZONES_COUNT && order < ORDERS_COUNT
      modifies this
      ensures Valid() && refs == old(refs)
      ensures usedPages == old(usedPages) && privatePages == old(privatePages) && sharedPages == old(sharedPages)
      ensures |entries| == |old(entries)| == ZONES_COUNT
      ensures forall z :: 0 <= z < ZONES_COUNT ==> BlocksOf(entries[z]) == BlocksOf(old(entries)[z])
    {
      hide Consistent, FreeSet, SharedSet, SetRefs, Pages, AlignedTo, FreeRun, BlocksOf;
      var page := HelperAllocate(zone, order);
      if page.Some? {
        AllocatedRun(old(refs), reserved, Block(page.value, order));
        AlignedIsModulo(page.value, order);
        SetFreePages(page.value, order);
      }
      ListsAreDetermined(old(entries), old(labels), entries, labels, old(refs), refs, reserved);
    }
  }
}
