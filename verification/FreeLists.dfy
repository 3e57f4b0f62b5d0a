/** The per-order free lists of one zone as sequences of page frame numbers, the order labels kept
    in the page infos, and the splitting allocation on them. */
module FreeLists {
  import opened BuddyBlocks

  datatype Option<+T> = None | Some(value: T)

  type Lists = l: seq<seq<int>> | |l| == ORDERS_COUNT witness seq(ORDERS_COUNT, _ => [])

  ghost predicate NoDup(s: seq<int>) { forall i, j :: 0 <= i < j < |s| ==> s[i] != s[j] }

  ghost function BlocksOf(l: Lists): set<Block> {
    set k, s | 0 <= k < ORDERS_COUNT && s in l[k] :: Block(s, k)
  }

  ghost function FreeOf(l: Lists): set<int> { Cover(BlocksOf(l)) }

  /** The free lists of one zone are well formed. */
  ghost predicate ListsOk(l: Lists, orderOf: map<int, nat>) {
    && (forall k :: 0 <= k < ORDERS_COUNT ==> NoDup(l[k]))
    && Canonical(BlocksOf(l))
    && (forall b :: b in BlocksOf(l) ==> b.start in orderOf && orderOf[b.start] == b.order)
    && FreeOf(l) <= orderOf.Keys
  }

  function Without(s: seq<int>, i: nat): seq<int>
    requires i < |s|
  {
    s[..i] + s[i + 1..]
  }

  /** list_append on the list of one order. */
  function Appended(l: Lists, k: nat, s: int): Lists
    requires k < ORDERS_COUNT
  {
    l[k := l[k] + [s]]
  }

  /** list_remove of the i-th node of one order. */
  function Removed(l: Lists, k: nat, i: nat): Lists
    requires k < ORDERS_COUNT && i < |l[k]|
  {
    l[k := Without(l[k], i)]
  }

  /** list_remove on a list without duplicates removes exactly that block. */
  lemma ListRemove(l: Lists, k: nat, i: nat)
    requires k < ORDERS_COUNT && NoDup(l[k]) && i < |l[k]|
    ensures NoDup(Removed(l, k, i)[k])
    ensures BlocksOf(Removed(l, k, i)) == BlocksOf(l) - {Block(l[k][i], k)}
    ensures Block(l[k][i], k) in BlocksOf(l)
  {
    var l' := Removed(l, k, i);
    forall b ensures b in BlocksOf(l') <==> b in BlocksOf(l) - {Block(l[k][i], k)} {
      if b.order < ORDERS_COUNT && b.order == k && b.start in l[k] && b.start != l[k][i] {
        var j :| 0 <= j < |l[k]| && l[k][j] == b.start;
        assert Without(l[k], i)[if j < i then j else j - 1] == b.start;
      }
    }
  }

  lemma ListAppend(l: Lists, k: nat, s: int)
    requires k < ORDERS_COUNT && NoDup(l[k]) && Block(s, k) !in BlocksOf(l)
    ensures NoDup(Appended(l, k, s)[k])
    ensures BlocksOf(Appended(l, k, s)) == BlocksOf(l) + {Block(s, k)}
  {
    var l' := Appended(l, k, s);
    assert s !in l[k];
    forall b ensures b in BlocksOf(l') <==> b in BlocksOf(l) + {Block(s, k)} {
    }
  }

  /** From the lists `l`, exactly the pages of `run`, all free before, were taken. */
  ghost predicate Took(l: Lists, l': Lists, run: Block) {
    && run.order < ORDERS_COUNT && Aligned(run)
    && Pages(run) <= FreeOf(l)
    && FreeOf(l') == FreeOf(l) - Pages(run)
  }

  /** Only labels of pages that were free may change. */
  ghost predicate SameLabels(l: Lists, labels: map<int, nat>, labels': map<int, nat>) {
    && labels'.Keys == labels.Keys
    && forall p :: p in labels && p !in FreeOf(l) ==> labels'[p] == labels[p]
  }

  ghost predicate HasBlock(l: Lists, order: nat) {
    exists b :: b in BlocksOf(l) && b.order >= order
  }

  lemma NoBlockHere(l: Lists, order: nat)
    requires order < ORDERS_COUNT && l[order] == []
    ensures HasBlock(l, order) <==> HasBlock(l, order + 1)
  {
    if HasBlock(l, order) {
      var b :| b in BlocksOf(l) && b.order >= order;
      assert b.start in l[b.order];
    }
  }

  lemma ListRemoveOk(l: Lists, labels: map<int, nat>, k: nat, i: nat)
    requires ListsOk(l, labels) && k < ORDERS_COUNT && i < |l[k]|
    ensures ListsOk(Removed(l, k, i), labels) && Block(l[k][i], k) in BlocksOf(l)
    ensures FreeOf(Removed(l, k, i)) == FreeOf(l) - Pages(Block(l[k][i], k))
    ensures Pages(Block(l[k][i], k)) <= FreeOf(l)
  {
    var b := Block(l[k][i], k);
    ListRemove(l, k, i);
    RemoveBlock(BlocksOf(l), b);
    CoverIsCovers(BlocksOf(l));
    CoverIsCovers(BlocksOf(Removed(l, k, i)));
    forall p | p in Pages(b) ensures p in FreeOf(l) { assert In(p, b); }
  }

  lemma TakeLast(l: Lists, order: nat, labels: map<int, nat>)
    requires ListsOk(l, labels) && order < ORDERS_COUNT && l[order] != []
    ensures var last := |l[order]| - 1; var l' := Removed(l, order, last);
            ListsOk(l', labels) && Took(l, l', Block(l[order][last], order))
    ensures HasBlock(l, order)
  {
    ListRemoveOk(l, labels, order, |l[order]| - 1);
  }

  /** Splitting at the level of blocks: the upper half of a taken run becomes a free block. */
  lemma UpperHalf(bs: set<Block>, order: nat, pages: int)
    requires order + 1 < ORDERS_COUNT && Canonical(bs) && Aligned(Block(pages, order + 1))
    requires Cover(bs) !! Pages(Block(pages, order + 1))
    ensures var half := Block(pages + Count(order), order);
            half !in bs && Canonical(bs + {half}) && Aligned(Block(pages, order)) &&
            Cover(bs + {half}) == Cover(bs) + (Pages(Block(pages, order + 1)) - Pages(Block(pages, order)))
  {
    var whole, low, half := Block(pages, order + 1), Block(pages, order), Block(pages + Count(order), order);
    HalvesOf(whole);
    CoverIsCovers(bs);
    CoverIsCovers(bs + {half});
    assert pages in Pages(whole) && In(pages, low);
    forall p | In(p, half) ensures !Covers(bs, p) { assert p in Pages(whole); }
    AddBlock(bs, half);
    forall p ensures In(p, half) <==> p in Pages(whole) - Pages(low) { }
  }

  /** Appending and labelling a block that keeps the set canonical keeps the lists well formed. */
  lemma AppendOk(l: Lists, labels: map<int, nat>, b: Block)
    requires ListsOk(l, labels) && b.order < ORDERS_COUNT && b !in BlocksOf(l)
    requires b.start !in FreeOf(l) && b.start in labels
    requires Canonical(BlocksOf(l) + {b}) && Cover(BlocksOf(l) + {b}) <= labels.Keys
    ensures ListsOk(Appended(l, b.order, b.start), labels[b.start := b.order])
    ensures FreeOf(Appended(l, b.order, b.start)) == Cover(BlocksOf(l) + {b})
  {
    ListAppend(l, b.order, b.start);
    LabelHead(l, labels, b);
  }

  lemma SetStep(before: set<int>, after: set<int>, whole: set<int>, low: set<int>)
    requires low <= whole <= before && after == before - whole
    ensures after + (whole - low) == before - low
  {
  }

  lemma PutBackUpperHalf(l0: Lists, l: Lists, order: nat, pages: int,
                         labels0: map<int, nat>, labels: map<int, nat>)
    requires order + 1 < ORDERS_COUNT && Took(l0, l, Block(pages, order + 1)) && ListsOk(l, labels)
    requires ListsOk(l0, labels0) && SameLabels(l0, labels0, labels)
    ensures var unused := pages + Count(order);
            unused in FreeOf(l0) && unused in labels &&
            ListsOk(Appended(l, order, unused), labels[unused := order]) &&
            Took(l0, Appended(l, order, unused), Block(pages, order))
  {
    hide Canonical;
    var unused := pages + Count(order);
    var whole, low := Pages(Block(pages, order + 1)), Pages(Block(pages, order));
    UpperHalf(BlocksOf(l), order, pages);
    assert Count(order + 1) == 2 * Count(order);
    assert In(unused, Block(pages, order + 1)) && low <= whole;
    SetStep(FreeOf(l0), FreeOf(l), whole, low);
    AppendOk(l, labels, Block(unused, order));
  }

  /** Labelling the head of a block outside the lists keeps the other labels right. */
  lemma LabelHead(l: Lists, labels: map<int, nat>, b: Block)
    requires ListsOk(l, labels) && b.start !in FreeOf(l)
    ensures forall c :: c in BlocksOf(l) ==> c.start in labels && c.start != b.start && labels[c.start] == c.order
  {
    CoverIsCovers(BlocksOf(l));
    forall c | c in BlocksOf(l) ensures c.start != b.start {
      assert In(c.start, c);
    }
  }

  // ---- which block is split ----

  /** The page is the last block of the first non-empty list from `order` on; of that block only the upper
      halves go back, one to each list passed over. */
  ghost predicate SplitOff(l: Lists, l': Lists, order: nat, k: nat, page: int) {
    && order <= k < ORDERS_COUNT && l[k] != [] && page == l[k][|l[k]| - 1]
    && (forall j :: order <= j < k ==> l[j] == [])
    && forall j :: 0 <= j < ORDERS_COUNT ==>
         l'[j] == if j == k then l[k][..|l[k]| - 1] else if order <= j < k then [page + Count(j)] else l[j]
  }

  lemma SplitHere(l: Lists, order: nat)
    requires order < ORDERS_COUNT && l[order] != []
    ensures SplitOff(l, Removed(l, order, |l[order]| - 1), order, order, l[order][|l[order]| - 1])
  {
  }

  lemma SplitAbove(l: Lists, l': Lists, order: nat, k: nat, page: int)
    requires order < ORDERS_COUNT && l[order] == [] && SplitOff(l, l', order + 1, k, page)
    ensures SplitOff(l, Appended(l', order, page + Count(order)), order, k, page)
  {
  }

  /** A smallest block that is large enough begins with the page, and all others stay free as they are. */
  ghost predicate TookLeast(l: Lists, l': Lists, order: nat, page: int) {
    exists b :: b in BlocksOf(l) && LeastEnough(l, b, order) && b.start == page && BlocksOf(l) - {b} <= BlocksOf(l')
  }

  ghost predicate LeastEnough(l: Lists, b: Block, order: nat) {
    b.order >= order && forall c :: c in BlocksOf(l) && c.order >= order ==> b.order <= c.order
  }

  lemma SplitTakesLeast(l: Lists, l': Lists, order: nat, k: nat, page: int)
    requires SplitOff(l, l', order, k, page)
    ensures TookLeast(l, l', order, page)
  {
    var b := Block(page, k);
    assert b in BlocksOf(l);
    assert LeastEnough(l, b, order);
    forall c | c in BlocksOf(l) && c != b ensures c in BlocksOf(l') {
      var s := l[c.order];
      assert c.start in s;
      if c.order == k {
        assert s == s[..|s| - 1] + [page];
        assert c.start in l'[k];
      }
    }
  }

  /** pmm_raw_helper_allocate_pages on the free lists of one zone and the page labels. */
  method RawAllocate(lists: Lists, labels: map<int, nat>, order: nat)
      returns (r: Option<int>, lists': Lists, labels': map<int, nat>)
    requires ListsOk(lists, labels)
    ensures ListsOk(lists', labels') && SameLabels(lists, labels, labels')
    ensures r == None ==> lists' == lists && labels' == labels
    ensures r.Some? <==> HasBlock(lists, order)
    ensures r.Some? ==> Took(lists, lists', Block(r.value, order))
    ensures r.Some? ==> exists k :: SplitOff(lists, lists', order, k, r.value)
    decreases ORDERS_COUNT - order
  {
    hide ListsOk, Took, Removed, Appended, SplitOff;
    lists', labels' := lists, labels;
    if order >= ORDERS_COUNT { return None, lists, labels; }
    if lists[order] != [] {
      var last := |lists[order]| - 1;
      TakeLast(lists, order, labels);
      SplitHere(lists, order);
      return Some(lists[order][last]), Removed(lists, order, last), labels;
    }
    NoBlockHere(lists, order);
    r, lists', labels' := RawAllocate(lists, labels, order + 1);
    if r.Some? {
      var unused := r.value + Count(order);
      PutBackUpperHalf(lists, lists', order, r.value, labels, labels');
      ghost var k :| SplitOff(lists, lists', order + 1, k, r.value);
      SplitAbove(lists, lists', order, k, r.value);
      labels' := labels'[unused := order];
      lists' := Appended(lists', order, unused);
    }
  }
}
