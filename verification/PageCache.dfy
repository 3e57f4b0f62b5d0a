/** The page cache of one file of fixed size, used sequentially: pages are loaded from the backing
    store, read, written, flushed and evicted, and the whole agrees with a flat sequence of bytes. */
module PageCache {

  type Byte = bv8
  type Page = seq<Byte>

  const PAGE_SIZE := 4096

  function PageDown(a: int): int { a / PAGE_SIZE * PAGE_SIZE }

  function PageUp(a: int): int { (a + PAGE_SIZE - 1) / PAGE_SIZE * PAGE_SIZE }

  /** The number of pages of a file. */
  function PageCount(size: nat): nat { (size + PAGE_SIZE - 1) / PAGE_SIZE }

  function Least(a: int, b: int): int { if a < b then a else b }

  // ---- pages and bytes ----

  ghost predicate ArePages(pages: seq<Page>, size: nat) {
    |pages| == PageCount(size) && forall k :: 0 <= k < |pages| ==> |pages[k]| == PAGE_SIZE
  }

  lemma PageOf(i: nat, size: nat)
    requires i < size
    ensures 0 <= i / PAGE_SIZE < PageCount(size) && 0 <= i % PAGE_SIZE < PAGE_SIZE
  {
  }

  /** The file that pages make up. */
  ghost function Bytes(pages: seq<Page>, size: nat): (s: seq<Byte>)
    requires ArePages(pages, size)
    ensures |s| == size
  {
    seq(size, i requires 0 <= i < size => PageOf(i, size); pages[i / PAGE_SIZE][i % PAGE_SIZE])
  }

  /** Within a page, the file is the page. */
  lemma BytesOfPage(pages: seq<Page>, size: nat, k: nat, from: nat, to: nat)
    requires ArePages(pages, size) && k < |pages| && from <= to <= PAGE_SIZE && k * PAGE_SIZE + to <= size
    ensures Bytes(pages, size)[k * PAGE_SIZE + from..k * PAGE_SIZE + to] == pages[k][from..to]
  {
    var s, t := Bytes(pages, size)[k * PAGE_SIZE + from..k * PAGE_SIZE + to], pages[k][from..to];
    forall j | 0 <= j < to - from ensures s[j] == t[j] {
      var i := k * PAGE_SIZE + from + j;
      assert i / PAGE_SIZE == k && i % PAGE_SIZE == from + j;
    }
  }

  function PageWith(page: Page, from: nat, data: seq<Byte>): Page
    requires from + |data| <= |page|
  {
    page[..from] + data + page[from + |data|..]
  }

  function Splice(file: seq<Byte>, at: nat, data: seq<Byte>): seq<Byte>
    requires at + |data| <= |file|
  {
    file[..at] + data + file[at + |data|..]
  }

  /** Changing a page changes the file at the same place only. */
  lemma BytesChanged(pages: seq<Page>, size: nat, k: nat, from: nat, data: seq<Byte>)
    requires ArePages(pages, size) && k < |pages| && from + |data| <= PAGE_SIZE && k * PAGE_SIZE + from + |data| <= size
    ensures ArePages(pages[k := PageWith(pages[k], from, data)], size)
    ensures Bytes(pages[k := PageWith(pages[k], from, data)], size) == Splice(Bytes(pages, size), k * PAGE_SIZE + from, data)
  {
    var pages' := pages[k := PageWith(pages[k], from, data)];
    var at := k * PAGE_SIZE + from;
    var s, t := Bytes(pages', size), Splice(Bytes(pages, size), at, data);
    forall i | 0 <= i < size ensures s[i] == t[i] {
      PageOf(i, size);
      if i / PAGE_SIZE != k {
        assert i < at || i >= at + |data|;
      } else {
        assert i % PAGE_SIZE == i - k * PAGE_SIZE;
      }
    }
  }

  lemma SpliceTwice(file: seq<Byte>, at: nat, a: seq<Byte>, b: seq<Byte>)
    requires at + |a| + |b| <= |file|
    ensures Splice(Splice(file, at, a), at + |a|, b) == Splice(file, at, a + b)
  {
  }

  // ---- the cache ----

  class Cache {
    const size: nat
    var cached: map<int, Page>
    var dirty: set<int>
    var backing: seq<Page>

    /** Every clean cached page equals its backing page. */
    ghost predicate Valid()
      reads this
    {
      && ArePages(backing, size) && dirty <= cached.Keys
      && (forall k :: k in cached ==> 0 <= k < |backing| && |cached[k]| == PAGE_SIZE)
      && (forall k :: k in cached && k !in dirty ==> cached[k] == backing[k])
    }

    /** The current pages: cached if they are, else as stored. */
    ghost function Pages(): (p: seq<Page>)
      requires Valid()
      reads this
      ensures ArePages(p, size)
    {
      seq(|backing|, k requires 0 <= k < |backing| reads this => if k in cached then cached[k] else backing[k])
    }

    ghost function File(): (s: seq<Byte>)
      requires Valid()
      reads this
      ensures |s| == size
    {
      Bytes(Pages(), size)
    }

    constructor (n: nat, stored: seq<Page>)
      requires ArePages(stored, n)
      ensures Valid() && size == n && backing == stored && cached == map[] && File() == Bytes(stored, n)
    {
      size, cached, dirty, backing := n, map[], {}, stored;
      new;
      assert Pages() == stored;
    }

    /** cache_get_range: whole pages around a range, no further than the file. */
    method GetRange(offset: nat, count: nat) returns (start: nat, end: nat)
      ensures start == PageDown(offset)
      ensures end == RangeEnd(size, offset, count)
    {
      var n := if size >= offset && size - offset < count then size - offset else count;
      start := PageDown(offset);
      end := PageUp(offset + n);
      if end > PageUp(size) { end := PageUp(size); }
    }

    /** cache_raw_get_page: the page is in the cache afterwards, and the file is as before. */
    method GetPage(k: nat) returns (ok: bool)
      requires Valid()
      modifies this`cached
      ensures Valid() && File() == old(File()) && Pages() == old(Pages())
      ensures cached.Keys == old(cached.Keys) + if ok then {k} else {}
      ensures ok <==> k < PageCount(size)
      ensures ok ==> k in cached && k < |Pages()| && cached[k] == Pages()[k] && |cached[k]| == PAGE_SIZE
    {
      if k * PAGE_SIZE >= PageUp(size) { return false; }
      if k !in cached { cached := cached[k := backing[k]]; }
      assert Pages() == old(Pages());
      ok := true;
    }

    /** cache_raw_preload */
    method Preload(offset: nat, count: nat)
      requires Valid()
      modifies this`cached
      ensures Valid() && File() == old(File()) && Pages() == old(Pages())
      ensures forall i :: offset <= i < offset + count && i < size ==> i / PAGE_SIZE in cached
      ensures forall k :: k in cached <==> k in old(cached) || PageDown(offset) <= k * PAGE_SIZE < RangeEnd(size, offset, count)
    {
      var start, end := GetRange(offset, count);
      var k := start / PAGE_SIZE;
      while k < end / PAGE_SIZE
        invariant start / PAGE_SIZE <= k && Valid() && File() == old(File()) && Pages() == old(Pages())
        invariant forall j :: j in cached <==> j in old(cached) || (start / PAGE_SIZE <= j < k && j < end / PAGE_SIZE)
      {
        var ok := GetPage(k);
        k := k + 1;
      }
    }

    /** cache_raw_read: the slice of the file, as far as it goes. */
    method Read(offset: nat, wanted: nat) returns (out: seq<Byte>)
      requires Valid()
      modifies this`cached
      ensures Valid() && File() == old(File())
      ensures out == if offset >= size then [] else File()[offset..Least(offset + wanted, size)]
    {
      hide Bytes, ArePages, PageDown, PageUp, PageCount, PageStart, PageEnd, Begin, Valid, File, Pages;
      if offset >= size { return []; }
      var count := if wanted > size - offset then size - offset else wanted;
      Preload(offset, count);
      var start, end := GetRange(offset, count);
      RangePages(offset, count, size);
      out := [];
      var k, last := start / PAGE_SIZE, end / PAGE_SIZE;
      ghost var pos := offset;
      while k < last
        invariant offset / PAGE_SIZE <= k && Valid() && File() == old(File())
        invariant offset <= pos <= offset + count && out == File()[offset..pos]
        invariant pos == if k < last then Begin(k, offset) else offset + count
      {
        var ok := GetPage(k);
        PageBounds(k, offset, count, size);
        var from, to := PageStart(k, start, offset), PageEnd(k, end, offset + count);
        PartOfFile(k, from, to);
        out := out + cached[k][from..to];
        pos := k * PAGE_SIZE + to;
        k := k + 1;
      }
    }

    lemma PartOfFile(k: nat, from: nat, to: nat)
      requires Valid() && k < |Pages()| && from <= to <= PAGE_SIZE && k * PAGE_SIZE + to <= size
      ensures |Pages()[k]| == PAGE_SIZE && File()[k * PAGE_SIZE + from..k * PAGE_SIZE + to] == Pages()[k][from..to]
    {
      BytesOfPage(Pages(), size, k, from, to);
    }

    /** cache_raw_write: the file is overwritten in place, as far as it goes. */
    method Write(offset: nat, data: seq<Byte>) returns (total: nat)
      requires Valid()
      modifies this`cached, this`dirty
      ensures Valid() && total == if offset >= size then 0 else Least(|data|, size - offset)
      ensures File() == if offset >= size then old(File()) else Splice(old(File()), offset, data[..total])
      ensures dirty == old(dirty) + if offset >= size then {} else PageSet(offset / PAGE_SIZE, PageCount(offset + total))
    {
      hide Bytes, ArePages, PageDown, PageUp, PageCount, PageStart, PageEnd, Begin, Valid, File, Pages, Splice, PageSet;
      if offset >= size { return 0; }
      var count := if offset + |data| > size then size - offset else |data|;
      Preload(offset, count);
      var start, end := GetRange(offset, count);
      RangePages(offset, count, size);
      ghost var file := File();
      var k, last := start / PAGE_SIZE, end / PAGE_SIZE;
      total := 0;
      SpliceNothing(file, offset, data[..0]);
      NoPages(offset / PAGE_SIZE, k);
      while k < last
        invariant offset / PAGE_SIZE <= k && Valid() && 0 <= total <= count
        invariant File() == Splice(file, offset, data[..total])
        invariant dirty == old(dirty) + PageSet(offset / PAGE_SIZE, k) && (k == offset / PAGE_SIZE || k <= last)
        invariant offset + total == if k < last then Begin(k, offset) else offset + count
      {
        var ok := GetPage(k);
        PageBounds(k, offset, count, size);
        var from, to := PageStart(k, start, offset), PageEnd(k, end, offset + count);
        var chunk := data[total..total + (to - from)];
        StorePage(k, from, chunk);
        OnePageMore(offset / PAGE_SIZE, k);
        SpliceTwice(file, offset, data[..total], chunk);
        assert data[..total] + chunk == data[..total + (to - from)];
        total := total + (to - from);
        k := k + 1;
      }
      NoPages(offset / PAGE_SIZE, last);
      NoPages(offset / PAGE_SIZE, k);
    }

    /** The copy into a cached page, which becomes dirty. */
    method StorePage(k: nat, from: nat, chunk: seq<Byte>)
      requires Valid() && k in cached && from + |chunk| <= PAGE_SIZE && k * PAGE_SIZE + from + |chunk| <= size
      modifies this`cached, this`dirty
      ensures Valid() && File() == Splice(old(File()), k * PAGE_SIZE + from, chunk) && dirty == old(dirty) + {k}
    {
      ghost var pages := Pages();
      cached := cached[k := PageWith(cached[k], from, chunk)];
      dirty := dirty + {k};
      assert Pages() == pages[k := PageWith(pages[k], from, chunk)];
      BytesChanged(pages, size, k, from, chunk);
    }

    /** A dirty page is written to the backing store. */
    method WriteBack(k: int)
      requires Valid() && k in cached
      modifies this`dirty, this`backing
      ensures Valid() && File() == old(File()) && dirty == old(dirty) - {k} && |backing| == old(|backing|)
      ensures backing == old(backing)[k := cached[k]]
    {
      ghost var pages := Pages();
      dirty := dirty - {k};
      backing := backing[k := cached[k]];
      assert Pages() == pages;
    }

    /** cache_raw_flush_async with a store that writes: the walk starts at the page whose number is the
        first byte of the range. */
    method Flush(offset: nat, count: nat)
      requires Valid()
      modifies this`dirty, this`backing
      ensures Valid() && File() == old(File())
      ensures forall k :: k in dirty <==> k in old(dirty) && !Walked(k, size, offset, count)
    {
      var start, end := GetRange(offset, count);
      var k := start;
      while k * PAGE_SIZE < end
        invariant start <= k && Valid() && File() == old(File())
        invariant forall j :: j in dirty <==> j in old(dirty) && !(start <= j < k && j * PAGE_SIZE < end)
        decreases end - k * PAGE_SIZE
      {
        if k in cached && k in dirty { WriteBack(k); }
        k := k + 1;
      }
    }

    /** cache_flush_whole: nothing stays dirty and the store holds the file. */
    method FlushWhole()
      requires Valid()
      modifies this`dirty, this`backing
      ensures Valid() && File() == old(File()) && dirty == {} && Bytes(backing, size) == File()
    {
      WholeWalked(size);
      assert forall k :: k in dirty ==> k in cached.Keys;
      assert forall k :: k in dirty ==> Walked(k, size, 0, size);
      Flush(0, size);
      assert forall k :: k !in dirty;
      assert Pages() == backing;
    }

    /** One operation has the effect and the result that it has on the flat file. */
    method Do(op: Op) returns (out: seq<Byte>)
      requires Valid()
      modifies this
      ensures Valid() && File() == FlatStep(old(File()), op) && out == FlatResult(old(File()), op)
    {
      hide Bytes, ArePages, Valid, Pages, Splice;
      out := [];
      match op {
        case ReadOp(offset, wanted) => out := Read(offset, wanted);
        case WriteOp(offset, data) => var total := Write(offset, data);
        case LoadOp(k) => var ok := GetPage(k);
        case FlushOp(offset, count) => Flush(offset, count);
        case EvictOp(k) => if k in cached { Evict(k); }
      }
    }

    /** Any sequence of operations gives what it would give on a flat sequence of bytes. */
    method Run(ops: seq<Op>) returns (results: seq<seq<Byte>>)
      requires Valid()
      modifies this
      ensures Valid() && File() == FlatFile(old(File()), ops) && results == FlatResults(old(File()), ops)
    {
      hide Bytes, ArePages, Valid, Pages, FlatStep, FlatResult;
      results := [];
      ghost var file := File();
      while |results| < |ops|
        invariant |results| <= |ops| && Valid()
        invariant File() == FlatFile(file, ops[..|results|]) && results == FlatResults(file, ops[..|results|])
      {
        FlatPush(file, ops, |results|);
        var out := Do(ops[|results|]);
        results := results + [out];
      }
      assert ops[..|results|] == ops;
    }

    /** One page of cache_evict with a store that writes. */
    method Evict(k: int)
      requires Valid() && k in cached
      modifies this`cached, this`dirty, this`backing
      ensures Valid() && File() == old(File()) && cached == old(cached) - {k} && dirty == old(dirty) - {k}
      ensures backing == old(backing)[k := old(cached)[k]]
    {
      ghost var pages := Pages();
      if k in dirty { WriteBack(k); }
      assert Pages() == pages;
      assert backing == old(backing)[k := old(cached)[k]];
      cached := cached - {k};
      dirty := dirty - {k};
      assert Pages() == pages;
    }
  }

  /** The pages from one up to another. */
  ghost function PageSet(first: int, end: int): set<int>
    decreases end - first
  {
    if end <= first then {} else PageSet(first, end - 1) + {end - 1}
  }

  lemma {:induction false} PageSetHas(first: int, end: int, k: int)
    ensures k in PageSet(first, end) <==> first <= k < end
    decreases end - first
  {
    if first < end { PageSetHas(first, end - 1, k); }
  }

  lemma NoPages(first: int, end: int)
    ensures end <= first ==> PageSet(first, end) == {}
  {
  }

  lemma OnePageMore(first: int, k: int)
    requires first <= k
    ensures PageSet(first, k + 1) == PageSet(first, k) + {k}
  {
  }

  /** The part of a page that a read or write touches. */
  function PageStart(k: int, start: nat, offset: nat): (r: nat) {
    if k * PAGE_SIZE == start then offset % PAGE_SIZE else 0
  }

  function PageEnd(k: int, end: nat, stop: nat): (r: nat)
    ensures r <= PAGE_SIZE
  {
    if k * PAGE_SIZE == end - PAGE_SIZE && stop % PAGE_SIZE != 0 then stop % PAGE_SIZE else PAGE_SIZE
  }

  /** Where the part of a range in page k begins. */
  function Begin(k: int, offset: nat): int { if k == offset / PAGE_SIZE then offset else k * PAGE_SIZE }

  /** The pages of a range inside the file. */
  lemma RangePages(offset: nat, count: nat, size: nat)
    requires offset < size && offset + count <= size
    ensures Least(PageUp(offset + count), PageUp(size)) == PageUp(offset + count)
    ensures PageDown(offset) / PAGE_SIZE == offset / PAGE_SIZE && Begin(offset / PAGE_SIZE, offset) == offset
    ensures PageUp(offset + count) / PAGE_SIZE == PageCount(offset + count)
    ensures offset / PAGE_SIZE >= PageCount(offset + count) ==> count == 0
  {
  }

  /** The parts of the pages of a range, one after the other, make up the range. */
  lemma PageBounds(k: nat, offset: nat, count: nat, size: nat)
    requires offset < size && offset + count <= size && offset / PAGE_SIZE <= k < PageCount(offset + count)
    ensures k < PageCount(size)
    ensures var from, to := PageStart(k, PageDown(offset), offset), PageEnd(k, PageUp(offset + count), offset + count);
      && from <= to <= PAGE_SIZE && k * PAGE_SIZE + from == Begin(k, offset) && k * PAGE_SIZE + to <= offset + count
      && k * PAGE_SIZE + to == if k + 1 < PageCount(offset + count) then Begin(k + 1, offset) else offset + count
  {
    hide PageStart, PageEnd, PageDown, PageUp;
    StartBounds(k, offset);
    EndBounds(k, offset + count);
    CountGrows(offset + count, size);
  }

  lemma StartBounds(k: nat, offset: nat)
    ensures k * PAGE_SIZE + PageStart(k, PageDown(offset), offset) == Begin(k, offset)
    ensures PageStart(k, PageDown(offset), offset) < PAGE_SIZE
  {
  }

  lemma EndBounds(k: nat, stop: nat)
    requires k < PageCount(stop)
    ensures k * PAGE_SIZE + PageEnd(k, PageUp(stop), stop) == if k + 1 < PageCount(stop) then (k + 1) * PAGE_SIZE else stop
    ensures k + 1 < PageCount(stop) ==> (k + 1) * PAGE_SIZE < stop
    ensures k * PAGE_SIZE < stop
  {
  }

  lemma CountGrows(a: nat, b: nat)
    requires a <= b
    ensures PageCount(a) <= PageCount(b)
  {
  }

  lemma SpliceNothing(file: seq<Byte>, at: nat, none: seq<Byte>)
    requires at <= |file| && none == []
    ensures Splice(file, at, none) == file
  {
  }

  /** Of the pages walked by a flush, those in the range. */
  ghost predicate Walked(k: int, size: nat, offset: nat, count: nat) {
    PageDown(offset) <= k && k * PAGE_SIZE < RangeEnd(size, offset, count)
  }

  function RangeEnd(size: nat, offset: nat, count: nat): int {
    Least(PageUp(offset + (if offset <= size && size - offset < count then size - offset else count)), PageUp(size))
  }

  /** The range is whole pages, the fewest that cover the bytes asked for within the file. */
  lemma RangeCovers(size: nat, offset: nat, count: nat)
    ensures var start, end := PageDown(offset), RangeEnd(size, offset, count);
      && start % PAGE_SIZE == 0 && end % PAGE_SIZE == 0 && offset - PAGE_SIZE < start <= offset && end <= PageUp(size)
      && (offset <= size ==> Least(offset + count, size) <= end < Least(offset + count, size) + PAGE_SIZE)
  {
  }

  /** The pages that a flush of a range is asked for. */
  ghost predicate InRange(k: int, size: nat, offset: nat, count: nat) {
    offset / PAGE_SIZE <= k && k * PAGE_SIZE < RangeEnd(size, offset, count)
  }

  lemma WholeWalked(size: nat)
    ensures forall k :: 0 <= k < PageCount(size) ==> Walked(k, size, 0, size)
  {
  }

  /** A range that starts after the first page is never flushed at its first page. */
  lemma FirstPageMissed(size: nat, offset: nat, count: nat)
    requires PAGE_SIZE <= offset < size && count > 0
    ensures InRange(offset / PAGE_SIZE, size, offset, count) && !Walked(offset / PAGE_SIZE, size, offset, count)
  {
  }

  /** A flush reaches every page of its range exactly if the range starts in the first page. */
  lemma FlushCompleteIff(size: nat, offset: nat, count: nat)
    requires offset < size && count > 0
    ensures (forall k :: InRange(k, size, offset, count) ==> Walked(k, size, offset, count)) <==> offset < PAGE_SIZE
  {
    if offset >= PAGE_SIZE { FirstPageMissed(size, offset, count); }
  }

  // ---- the flat file ----

  datatype Op =
    | ReadOp(offset: nat, wanted: nat) | WriteOp(offset: nat, data: seq<Byte>)
    | LoadOp(page: nat) | FlushOp(offset: nat, count: nat) | EvictOp(k: int)

  function FlatStep(file: seq<Byte>, op: Op): (file': seq<Byte>)
    ensures |file'| == |file|
  {
    match op
    case WriteOp(offset, data) =>
      if offset >= |file| then file else Splice(file, offset, data[..Least(|data|, |file| - offset)])
    case _ => file
  }

  function FlatResult(file: seq<Byte>, op: Op): seq<Byte> {
    match op
    case ReadOp(offset, wanted) => if offset >= |file| then [] else file[offset..Least(offset + wanted, |file|)]
    case _ => []
  }

  function FlatFile(file: seq<Byte>, ops: seq<Op>): seq<Byte> {
    if ops == [] then file else FlatStep(FlatFile(file, ops[..|ops| - 1]), ops[|ops| - 1])
  }

  function FlatResults(file: seq<Byte>, ops: seq<Op>): seq<seq<Byte>> {
    if ops == [] then []
    else
      var n := |ops| - 1;
      FlatResults(file, ops[..n]) + [FlatResult(FlatFile(file, ops[..n]), ops[n])]
  }

  lemma FlatPush(file: seq<Byte>, ops: seq<Op>, n: nat)
    requires n < |ops|
    ensures FlatFile(file, ops[..n + 1]) == FlatStep(FlatFile(file, ops[..n]), ops[n])
    ensures FlatResults(file, ops[..n + 1]) ==
            FlatResults(file, ops[..n]) + [FlatResult(FlatFile(file, ops[..n]), ops[n])]
  {
    assert ops[..n + 1][..n] == ops[..n];
  }
}
