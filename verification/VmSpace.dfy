/** The operations of an address space on its segments, in place. */
module VmSpace {
  import opened Segments

  /** The first page that an unfixed mapping may use (128 pages). */
  const BASE: int := 128

  /** The number of pages of the 64-bit address space; address subtraction wraps at it. */
  const WRAP: int := 0x10_0000_0000_0000

  /** vmm_has_perm */
  predicate HasPerm(kind: Kind, prot: Prot) {
    kind.anonymous ||
    (kind.file.Some? && !kind.file.value.writeOnly &&
     !(kind.shared && prot.write && !kind.file.value.readWrite))
  }

  /** What a page may be: anonymous, or of a file that is not opened write-only, and opened read-write if the
      page is shared and writable. */
  ghost predicate Legal(info: PageInfo) {
    info.kind.anonymous ||
    (info.kind.file.Some? && !info.kind.file.value.writeOnly &&
     (info.kind.shared && info.prot.write ==> info.kind.file.value.readWrite))
  }

  lemma PermIsLegal(kind: Kind, prot: Prot, offset: int)
    ensures HasPerm(kind, prot) <==> Legal(PageInfo(prot, kind, offset))
  {
  }

  ghost predicate AllLegal(segs: seq<Seg>) { forall g :: g in segs ==> Legal(InfoAt(g, g.start)) }

  lemma SpliceLegal(segs: seq<Seg>, i: nat, with: seq<Seg>)
    requires AllLegal(segs) && i < |segs| && AllLegal(with)
    ensures AllLegal(Splice(segs, i, with))
  {
  }

  lemma SplitLegal(segs: seq<Seg>, i: nat, cut: int)
    requires AllLegal(segs) && i < |segs|
    ensures AllLegal([LeftOf(segs[i], cut), RightOf(segs[i], cut)])
  {
    assert segs[i] in segs;
  }

  lemma ReprotLegal(segs: seq<Seg>, i: nat, prot: Prot)
    requires AllLegal(segs) && i < |segs| && HasPerm(segs[i].kind, prot)
    ensures AllLegal([segs[i].(prot := prot)])
  {
  }

  lemma SpliceSelf(segs: seq<Seg>, i: nat)
    requires i < |segs|
    ensures Splice(segs, i, [segs[i]]) == segs
  {
  }

  lemma OneSorted(segs: seq<Seg>, i: nat, g: Seg)
    requires Sorted(segs) && i < |segs| && g.start == segs[i].start && g.end == segs[i].end
    ensures Sorted([g]) && Within([g], segs[i])
  {
  }

  lemma ReprotSame(segs: seq<Seg>, i: nat, prot: Prot)
    requires Sorted(segs) && AllLegal(segs) && i < |segs| && HasPerm(segs[i].kind, prot)
    ensures var r := Splice(segs, i, [segs[i].(prot := prot)]);
      && AllLegal(r) && Sorted(r) && (forall c :: Sum(r, c) == Sum(segs, c)) && (segs[i].prot == prot ==> r == segs)
  {
    hide At, Sum, AllLegal, Splice, Sorted;
    var g := segs[i].(prot := prot);
    ReprotLegal(segs, i, prot);
    SpliceLegal(segs, i, [g]);
    SpliceSelf(segs, i);
    OneSorted(segs, i, g);
    forall c ensures Sum(Splice(segs, i, [g]), c) == Sum(segs, c) {
      SpliceSum(segs, i, [g], c);
      OneSeg(g, 0, c);
    }
    SpliceSorted(segs, i, [g]);
  }

  /** Every mapped page is legal. */
  lemma LegalPages(segs: seq<Seg>, v: int)
    requires AllLegal(segs)
    ensures At(segs, v).Some? ==> Legal(At(segs, v).value)
  {
    AtInfo(segs, v);
  }

  lemma {:induction false} AtInfo(segs: seq<Seg>, v: int)
    ensures At(segs, v).Some? ==> exists g :: g in segs && At(segs, v).value == InfoAt(g, v)
  {
    if segs != [] {
      var n := |segs| - 1;
      AtInfo(segs[..n], v);
      assert segs == segs[..n] + [segs[n]] && segs[n] in segs;
    }
  }

  /** A cut strictly inside a segment is refused when the segment cannot be split. */
  predicate CutAllowed(g: Seg, cut: int) { g.start < cut < g.end ==> g.kind.canSplit }

  ghost predicate CutsAllowed(segs: seq<Seg>, cut: int) {
    forall i :: 0 <= i < |segs| ==> CutAllowed(segs[i], cut)
  }

  ghost predicate Inside(segs: seq<Seg>, cut: int) {
    exists i :: 0 <= i < |segs| && segs[i].start < cut < segs[i].end
  }

  /** The first `j` segments allow the cuts of a range. */
  ghost predicate Passed(segs: seq<Seg>, start: int, end: int, j: nat) {
    forall i :: 0 <= i < j && i < |segs| ==>
      CutAllowed(segs[i], start) && CutAllowed(segs[i], end) &&
      (start < end || !(segs[i].start < start < segs[i].end))
  }

  lemma CarveStart(segs: seq<Seg>, start: int, end: int, j: nat)
    requires j <= |segs| && start <= end && forall i :: 0 <= i < j ==> segs[i].end <= start
    ensures Carve(segs[..j], start, end) + segs[j..] == segs && |Carve(segs[..j], start, end)| == j
    ensures Passed(segs, start, end, j)
  {
    CarveApart(segs[..j], start, end);
  }

  lemma CarveStep(was: seq<Seg>, start: int, end: int, j: nat, segs: seq<Seg>)
    requires j < |was| && segs == Carve(was[..j], start, end) + was[j..]
    ensures var i := |Carve(was[..j], start, end)|;
      && Splice(segs, i, CarveOne(was[j], start, end)) == Carve(was[..j + 1], start, end) + was[j + 1..]
      && |Carve(was[..j + 1], start, end)| == i + |CarveOne(was[j], start, end)|
  {
    hide CarveOne, Carve;
    CarveSnoc(was[..j], was[j], start, end);
    assert was[..j + 1] == was[..j] + [was[j]];
  }

  lemma CarveSnoc(a: seq<Seg>, g: Seg, start: int, end: int)
    ensures Carve(a + [g], start, end) == Carve(a, start, end) + CarveOne(g, start, end)
  {
    assert (a + [g])[..|a|] == a;
  }

  lemma PartialCarve(was: seq<Seg>, start: int, end: int, j: nat)
    requires Sorted(was) && start <= end && j <= |was|
    ensures forall v :: var a := At(Carve(was[..j], start, end) + was[j..], v);
              a == At(was, v) || (start <= v < end && a == None)
  {
    assert NonEmpty(was[..j]);
    assert was == was[..j] + was[j..];
    hide At, Carve;
    forall v ensures var a := At(Carve(was[..j], start, end) + was[j..], v);
              a == At(was, v) || (start <= v < end && a == None)
    {
      CarveView(was[..j], start, end, v);
      AtConcat(Carve(was[..j], start, end), was[j..], v);
      AtConcat(was[..j], was[j..], v);
    }
  }

  lemma FailedCut(segs: seq<Seg>, start: int, end: int, j: nat)
    requires j < |segs| && !Apart(segs[j], start, end) && start <= end
    requires !(CutAllowed(segs[j], start) && CutAllowed(segs[j], end) && start < end)
    ensures !(CutsAllowed(segs, start) && CutsAllowed(segs, end) && (start < end || !Inside(segs, start)))
  {
    if start == end { assert segs[j].start < start < segs[j].end; }
  }

  lemma CarveEnd(was: seq<Seg>, start: int, end: int, j: nat)
    requires Sorted(was) && start <= end && j <= |was| && Passed(was, start, end, j)
    requires j < |was| ==> was[j].start >= end
    ensures Carve(was[..j], start, end) + was[j..] == Carve(was, start, end)
    ensures CutsAllowed(was, start) && CutsAllowed(was, end) && (start < end || !Inside(was, start))
  {
    hide Carve;
    forall i | j <= i < |was| ensures was[i].start >= end {
      if i > j { assert was[j].end <= was[i].start && was[j].start < was[j].end; }
    }
    CarveApart(was[j..], start, end);
    CarveConcat(was[..j], was[j..], start, end);
    assert was == was[..j] + was[j..];
  }

  /** Replacing a half after a split. */
  lemma SpliceTwice(segs: seq<Seg>, i: nat, x: Seg, y: Seg, w: seq<Seg>)
    requires i < |segs|
    ensures var two := Splice(segs, i, [x, y]);
      && |two| == |segs| + 1 && two[i] == x && two[i + 1] == y
      && Splice(two, i, w) == Splice(segs, i, w + [y]) && Splice(two, i + 1, w) == Splice(segs, i, [x] + w)
  {
  }

  lemma EndPiece(segs: seq<Seg>, k: nat, m: Seg, end: int)
    requires k < |segs| && segs[k] == m && end < m.end
    ensures var twice := Splice(segs, k, [LeftOf(m, end), RightOf(m, end)]);
      k < |twice| && Splice(twice, k, []) == Splice(segs, k, After(m, end))
  {
    hide Splice;
    SpliceTwice(segs, k, LeftOf(m, end), RightOf(m, end), []);
    assert [] + [RightOf(m, end)] == [RightOf(m, end)];
  }

  /** Cutting at both ends and removing the middle leaves the two outer pieces. */
  lemma CarvedPieces(segs: seq<Seg>, i: nat, start: int, end: int)
    requires i < |segs| && !Apart(segs[i], start, end) && start < end
    ensures var g := segs[i]; var carved := Splice(segs, i, CarveOne(g, start, end));
      && (g.start >= start ==> Splice(segs, i, After(g, end)) == carved)
      && (g.start < start ==>
            var once := Splice(segs, i, [LeftOf(g, start), RightOf(g, start)]);
            && i + 1 < |once| && once[i + 1] == RightOf(g, start)
            && Splice(once, i + 1, After(RightOf(g, start), end)) == carved)
  {
    hide Splice;
    var g := segs[i];
    if g.start < start {
      SpliceTwice(segs, i, LeftOf(g, start), RightOf(g, start), After(RightOf(g, start), end));
      assert After(RightOf(g, start), end) == After(g, end);
    } else {
      assert [] + After(g, end) == After(g, end);
    }
  }

  /** The state of the unmap loop: the first `j` segments are done, `i` is the next index. */
  ghost predicate Unmapped(was: seq<Seg>, segs: seq<Seg>, start: int, end: int, j: nat, i: nat) {
    && j <= |was| && segs == Carve(was[..j], start, end) + was[j..] && i == |Carve(was[..j], start, end)|
    && Passed(was, start, end, j) && forall k :: j <= k < |was| ==> was[k].end > start
  }

  lemma UnmappedHead(was: seq<Seg>, segs: seq<Seg>, start: int, end: int, j: nat, i: nat)
    requires Unmapped(was, segs, start, end, j, i) && Sorted(was) && start <= end
    ensures i < |segs| <==> j < |was|
    ensures i < |segs| ==> segs[i] == was[j] && was[j].end > start
    ensures forall v :: At(segs, v) == At(was, v) || (start <= v < end && At(segs, v) == None)
  {
    PartialCarve(was, start, end, j);
  }

  lemma UnmappedStep(was: seq<Seg>, segs: seq<Seg>, start: int, end: int, j: nat, i: nat)
    requires Unmapped(was, segs, start, end, j, i) && i < |segs| && j < |was| && start < end
    requires CutAllowed(was[j], start) && CutAllowed(was[j], end)
    ensures Unmapped(was, Splice(segs, i, CarveOne(was[j], start, end)), start, end, j + 1,
                     i + |CarveOne(was[j], start, end)|)
  {
    hide Carve, CarveOne;
    CarveStep(was, start, end, j, segs);
  }

  lemma UnmappedStart(was: seq<Seg>, start: int, end: int, j: nat)
    requires j <= |was| && start <= end && (forall i :: 0 <= i < j ==> was[i].end <= start)
    requires forall k :: j <= k < |was| ==> was[k].end > start
    ensures Unmapped(was, was, start, end, j, j)
  {
    hide Carve;
    CarveStart(was, start, end, j);
  }

  lemma UnmappedEnd(was: seq<Seg>, segs: seq<Seg>, start: int, end: int, j: nat, i: nat)
    requires Unmapped(was, segs, start, end, j, i) && Sorted(was) && start <= end
    requires j < |was| ==> was[j].start >= end
    ensures segs == Carve(was, start, end)
    ensures CutsAllowed(was, start) && CutsAllowed(was, end) && (start < end || !Inside(was, start))
  {
    hide Carve;
    CarveEnd(was, start, end, j);
  }

  lemma CarveAll(was: seq<Seg>, start: int, end: int)
    requires Sorted(was) && start <= end
    ensures forall v :: At(Carve(was, start, end), v) == if start <= v < end then None else At(was, v)
  {
    forall v ensures At(Carve(was, start, end), v) == if start <= v < end then None else At(was, v) {
      CarveView(was, start, end, v);
    }
  }

  // ---- protecting a range ----

  ghost predicate ProtAllowed(kind: Kind, prot: Prot) { Legal(PageInfo(prot, kind, 0)) && kind.canProtect }

  ghost predicate ProtsAllowed(segs: seq<Seg>, start: int, end: int, prot: Prot) {
    forall i :: 0 <= i < |segs| && !Apart(segs[i], start, end) ==> ProtAllowed(segs[i].kind, prot)
  }

  /** The page map with the protection of the mapped pages of the range replaced. */
  function Protected(segs: seq<Seg>, start: int, end: int, prot: Prot, v: int): Option<PageInfo> {
    if start <= v < end && At(segs, v).Some? then Some(At(segs, v).value.(prot := prot)) else At(segs, v)
  }

  ghost predicate AllAllowed(segs: seq<Seg>, start: int, end: int, prot: Prot) {
    CutsAllowed(segs, start) && CutsAllowed(segs, end) && ProtsAllowed(segs, start, end, prot)
  }

  /** `cur` is `was` with the start of the range already cut. */
  ghost predicate Equiv(was: seq<Seg>, cur: seq<Seg>, start: int, end: int, prot: Prot) {
    && Reprot(cur, start, end, prot) == Reprot(was, start, end, prot)
    && (forall v :: At(cur, v) == At(was, v))
    && (AllAllowed(cur, start, end, prot) <==> AllAllowed(was, start, end, prot))
  }

  lemma EquivSelf(was: seq<Seg>, start: int, end: int, prot: Prot)
    ensures Equiv(was, was, start, end, prot)
  {
  }

  lemma ReprotSplit(g: Seg, start: int, end: int, prot: Prot)
    requires g.start < start < g.end && start < end
    ensures Reprot([LeftOf(g, start), RightOf(g, start)], start, end, prot) == Reprot([g], start, end, prot)
  {
    var l, r := LeftOf(g, start), RightOf(g, start);
    assert [l, r][..1] == [l] && [l][..0] == [] && [g][..0] == [];
    assert Reprot([l], start, end, prot) == [l];
    assert Middle(r, start, end) == Middle(g, start, end) && After(r, end) == After(g, end);
  }

  lemma ReprotSplice(cur: seq<Seg>, start: int, end: int, prot: Prot, j: nat)
    requires j < |cur| && cur[j].start < start < cur[j].end && start < end
    ensures Reprot(Splice(cur, j, [LeftOf(cur[j], start), RightOf(cur[j], start)]), start, end, prot)
            == Reprot(cur, start, end, prot)
  {
    hide Reprot;
    var a, g, b := cur[..j], cur[j], cur[j + 1..];
    var two := [LeftOf(g, start), RightOf(g, start)];
    assert cur == a + [g] + b;
    ReprotSplit(g, start, end, prot);
    ReprotConcat(a + [g], b, start, end, prot);
    ReprotConcat(a, [g], start, end, prot);
    ReprotConcat(a + two, b, start, end, prot);
    ReprotConcat(a, two, start, end, prot);
  }

  lemma AllowedSplit(cur: seq<Seg>, start: int, end: int, prot: Prot, j: nat)
    requires j < |cur| && cur[j].start < start < cur[j].end && start < end && cur[j].kind.canSplit
    ensures AllAllowed(Splice(cur, j, [LeftOf(cur[j], start), RightOf(cur[j], start)]), start, end, prot)
            <==> AllAllowed(cur, start, end, prot)
  {
    var g := cur[j];
    var l, r := LeftOf(g, start), RightOf(g, start);
    var c := Splice(cur, j, [l, r]);
    assert c[j] == l && c[j + 1] == r;
    forall i | 0 <= i < j ensures c[i] == cur[i] { }
    forall i | j + 1 <= i < |cur| ensures c[i + 1] == cur[i] { }
    forall i | j + 2 <= i < |c| ensures c[i] == cur[i - 1] { }
  }

  lemma StartCut(was: seq<Seg>, cur: seq<Seg>, start: int, end: int, prot: Prot, j: nat)
    requires Sorted(cur) && Equiv(was, cur, start, end, prot) && start < end
    requires j < |cur| && cur[j].start < start < cur[j].end && cur[j].kind.canSplit
    ensures var c := Splice(cur, j, [LeftOf(cur[j], start), RightOf(cur[j], start)]);
      Sorted(c) && Equiv(was, c, start, end, prot)
  {
    hide At, Reprot, Splice, AllAllowed;
    SplitSame(cur, j, start);
    ReprotSplice(cur, start, end, prot, j);
    AllowedSplit(cur, start, end, prot, j);
  }

  /** The state of the protect loop: the first `j` segments are done. */
  ghost predicate Reprotted(cur: seq<Seg>, segs: seq<Seg>, start: int, end: int, prot: Prot, j: nat, i: nat) {
    && j <= |cur| && segs == Reprot(cur[..j], start, end, prot) + cur[j..]
    && (i == |Reprot(cur[..j], start, end, prot)| ||
        (i + 1 == |Reprot(cur[..j], start, end, prot)| && segs[i].start >= end && (j < |cur| ==> cur[j].start >= end)))
    && (forall k :: 0 <= k < j ==>
          CutAllowed(cur[k], start) && CutAllowed(cur[k], end) &&
          (!Apart(cur[k], start, end) ==> ProtAllowed(cur[k].kind, prot)))
    && forall k :: j <= k < |cur| ==> cur[k].end > start
  }

  lemma ReprottedStart(was: seq<Seg>, start: int, end: int, prot: Prot, j: nat)
    requires j <= |was| && start < end && (forall i :: 0 <= i < j ==> was[i].end <= start)
    requires forall k :: j <= k < |was| ==> was[k].end > start
    ensures Reprotted(was, was, start, end, prot, j, j)
  {
    hide Reprot;
    ReprotApart(was[..j], start, end, prot);
  }

  lemma PartialReprot(cur: seq<Seg>, start: int, end: int, prot: Prot, j: nat)
    requires Sorted(cur) && start < end && j <= |cur|
    ensures forall v :: var a := At(Reprot(cur[..j], start, end, prot) + cur[j..], v);
              a == At(cur, v) || (start <= v < end && a == Protected(cur, start, end, prot, v))
  {
    assert NonEmpty(cur[..j]);
    assert cur == cur[..j] + cur[j..];
    forall v ensures var a := At(Reprot(cur[..j], start, end, prot) + cur[j..], v);
              a == At(cur, v) || (start <= v < end && a == Protected(cur, start, end, prot, v))
    {
      ReprotView(cur[..j], start, end, prot, v);
      AtConcat(Reprot(cur[..j], start, end, prot), cur[j..], v);
      AtConcat(cur[..j], cur[j..], v);
    }
  }

  lemma ReprottedHead(was: seq<Seg>, cur: seq<Seg>, segs: seq<Seg>, start: int, end: int, prot: Prot, j: nat, i: nat)
    requires Reprotted(cur, segs, start, end, prot, j, i) && Sorted(cur) && start < end
    requires Equiv(was, cur, start, end, prot)
    ensures i < |segs| && segs[i].start < end ==> j < |cur| && segs[i] == cur[j] && cur[j].end > start
    ensures i >= |segs| ==> j == |cur|
    ensures forall v :: At(segs, v) == At(was, v) || (start <= v < end && At(segs, v) == Protected(was, start, end, prot, v))
  {
    hide At, Reprot, AllAllowed;
    PartialReprot(cur, start, end, prot, j);
  }

  lemma LaterStarts(cur: seq<Seg>, j: nat, start: int)
    requires Sorted(cur)
    ensures j < |cur| && cur[j].end >= start ==> forall k :: j + 1 <= k < |cur| ==> cur[k].start >= start
  {
  }

  lemma Refusal(was: seq<Seg>, cur: seq<Seg>, start: int, end: int, prot: Prot, j: nat)
    requires Equiv(was, cur, start, end, prot) && j < |cur| && !Apart(cur[j], start, end)
    requires !CutAllowed(cur[j], start) || !CutAllowed(cur[j], end) || !ProtAllowed(cur[j].kind, prot)
    ensures !AllAllowed(was, start, end, prot)
  {
    hide At, Reprot;
  }

  lemma ReprottedCut(cur: seq<Seg>, segs: seq<Seg>, start: int, end: int, prot: Prot, j: nat, i: nat)
    requires Reprotted(cur, segs, start, end, prot, j, i) && j < |cur| && i < |segs| && segs[i].start < end
    requires cur[j].start < start < cur[j].end && cur[j].kind.canSplit && start < end
    ensures segs[i] == cur[j]
    ensures var two := [LeftOf(cur[j], start), RightOf(cur[j], start)];
      && Reprotted(Splice(cur, j, two), Splice(segs, i, two), start, end, prot, j + 1, i + 1)
      && j < |Splice(cur, j, two)| && Splice(cur, j, two)[j] == two[0]
  {
    hide Reprot;
    var l, r := LeftOf(cur[j], start), RightOf(cur[j], start);
    var c := Splice(cur, j, [l, r]);
    ReprotSnoc(cur[..j], l, start, end, prot);
    assert c[..j + 1] == cur[..j] + [l] && c[j] == l && c[j + 1] == r;
    assert ReprotOne(l, start, end, prot) == [l];
    assert c[j + 1..] == [r] + cur[j + 1..];
    forall k | j + 1 < k < |c| ensures c[k] == cur[k - 1] { }
  }

  lemma ReprotSnoc(a: seq<Seg>, g: Seg, start: int, end: int, prot: Prot)
    ensures Reprot(a + [g], start, end, prot) == Reprot(a, start, end, prot) + ReprotOne(g, start, end, prot)
  {
    assert (a + [g])[..|a|] == a;
  }

  lemma ReprottedStep(cur: seq<Seg>, segs: seq<Seg>, start: int, end: int, prot: Prot, j: nat, i: nat)
    requires Reprotted(cur, segs, start, end, prot, j, i) && Sorted(cur) && j < |cur| && i < |segs|
    requires segs[i].start < end && start <= cur[j].start && start < end
    requires CutAllowed(cur[j], end) && ProtAllowed(cur[j].kind, prot)
    ensures segs[i] == cur[j]
    ensures Reprotted(cur, Splice(segs, i, ReprotOne(cur[j], start, end, prot)), start, end, prot, j + 1, i + 1)
  {
    hide Reprot, Legal;
    var g := cur[j];
    ReprotSnoc(cur[..j], g, start, end, prot);
    assert cur[..j + 1] == cur[..j] + [g];
    assert ReprotOne(g, start, end, prot) == [Middle(g, start, end).(prot := prot)] + After(g, end);
  }

  lemma ReprottedEnd(was: seq<Seg>, cur: seq<Seg>, segs: seq<Seg>, start: int, end: int, prot: Prot, j: nat, i: nat)
    requires Reprotted(cur, segs, start, end, prot, j, i) && Sorted(cur) && Sorted(was) && start < end
    requires Equiv(was, cur, start, end, prot) && (i < |segs| ==> segs[i].start >= end)
    ensures segs == Reprot(was, start, end, prot) && AllAllowed(was, start, end, prot)
    ensures forall v :: At(segs, v) == Protected(was, start, end, prot, v)
    ensures forall v :: At(segs, v) == At(was, v) || start <= v < end
  {
    hide At, Reprot;
    forall k | j <= k < |cur| ensures cur[k].start >= end {
      assert segs[|Reprot(cur[..j], start, end, prot)|] == cur[j];
      if k > j { assert cur[j].end <= cur[k].start && cur[j].start < cur[j].end; }
    }
    ReprotApart(cur[j..], start, end, prot);
    ReprotConcat(cur[..j], cur[j..], start, end, prot);
    assert cur == cur[..j] + cur[j..];
    assert AllAllowed(cur, start, end, prot);
    forall v ensures At(segs, v) == Protected(was, start, end, prot, v) { ReprotView(was, start, end, prot, v); }
  }

  // ---- mapping ----

  ghost predicate Bounded(segs: seq<Seg>) { forall i :: 0 <= i < |segs| ==> 0 <= segs[i].start && segs[i].end < WRAP }

  /** `n` pages from `a` on are unmapped. */
  ghost predicate FreeRun(segs: seq<Seg>, a: int, n: int) { forall v :: a <= v < a + n ==> At(segs, v) == None }

  ghost predicate IsLowestGap(segs: seq<Seg>, size: int, a: int) {
    a >= BASE && FreeRun(segs, a, size) && forall b :: BASE <= b < a ==> !FreeRun(segs, b, size)
  }

  /** The wrap-around does no harm: no segment starts below the base, or the base itself is free. */
  ghost predicate GapSafe(segs: seq<Seg>, size: int) {
    segs == [] || segs[0].start >= BASE || FreeRun(segs, BASE, size)
  }

  /** The search without wrap-around: the first address from `a` with `size` pages before the next
      segment. */
  function LowestGap(segs: seq<Seg>, size: int, a: int): int {
    if segs == [] then a
    else if segs[0].start < a then a
    else if segs[0].start - a >= size then a
    else LowestGap(segs[1..], size, segs[0].end)
  }

  lemma NoneFront(segs: seq<Seg>, v: int)
    requires Sorted(segs) && (segs == [] || v < segs[0].start)
    ensures At(segs, v) == None
  {
    AtSome(segs, v);
    forall i | 0 <= i < |segs| ensures !Holds(segs[i], v) { if i > 0 { assert segs[0].end <= segs[i].start; } }
  }

  lemma AtTail(segs: seq<Seg>, v: int)
    requires Sorted(segs) && segs != []
    ensures At(segs, v) == if Holds(segs[0], v) then Some(InfoAt(segs[0], v)) else At(segs[1..], v)
  {
    assert segs == [segs[0]] + segs[1..];
    AtConcat([segs[0]], segs[1..], v);
    OneSeg(segs[0], v, Total);
    if Holds(segs[0], v) { AtIndex(segs, 0, v); }
  }

  /** The search finds the lowest run of free pages from `a` on. */
  lemma {:induction false} LowestGapOk(segs: seq<Seg>, size: int, a: int)
    requires Sorted(segs) && size > 0 && (segs == [] || a <= segs[0].start)
    ensures var r := LowestGap(segs, size, a);
      r >= a && FreeRun(segs, r, size) && forall b :: a <= b < r ==> !FreeRun(segs, b, size)
  {
    if segs == [] || segs[0].start - a >= size {
      forall v | a <= v < a + size ensures At(segs, v) == None { NoneFront(segs, v); }
    } else {
      var g, rest := segs[0], segs[1..];
      LowestGapOk(rest, size, g.end);
      var r := LowestGap(rest, size, g.end);
      forall v | r <= v < r + size ensures At(segs, v) == None { AtTail(segs, v); }
      forall b | a <= b < r ensures !FreeRun(segs, b, size) {
        if b < g.end {
          var v := if b < g.start then g.start else b;
          AtIndex(segs, 0, v);
          assert b <= v < b + size;
        } else {
          assert !FreeRun(rest, b, size);
          var v :| b <= v < b + size && At(rest, v) != None;
          AtTail(segs, v);
        }
      }
    }
  }

  lemma GapStart(segs: seq<Seg>, size: int)
    requires Sorted(segs) && Bounded(segs) && 0 < size <= WRAP - BASE
    ensures segs != [] && segs[0].start < BASE ==> (segs[0].start - BASE) % WRAP >= size
  {
    if segs != [] && segs[0].start < BASE {
      var x := segs[0].start - BASE;
      assert x % WRAP == x + WRAP;
    }
  }

  lemma GapStep(segs: seq<Seg>, size: int, i: nat, a: int)
    requires Sorted(segs) && Bounded(segs) && 0 < size && i < |segs| && (segs[i].start - a) % WRAP < size <= WRAP - BASE
    requires if i == 0 then a == BASE else a == segs[i - 1].end
    ensures segs[i].start >= a && LowestGap(segs[i..], size, a) == LowestGap(segs[i + 1..], size, segs[i].end)
  {
    if i == 0 { GapStart(segs, size); }
    assert 0 <= segs[i].start - a < WRAP;
    assert segs[i..][1..] == segs[i + 1..];
  }

  lemma GapEnd(segs: seq<Seg>, size: int, i: nat, a: int)
    requires Sorted(segs) && Bounded(segs) && 0 < size <= WRAP - BASE && i <= |segs|
    requires if i == 0 then a == BASE else a == segs[i - 1].end && segs[0].start >= BASE
    requires i > 0 ==> LowestGap(segs[i..], size, a) == LowestGap(segs, size, BASE)
    requires i < |segs| ==> (segs[i].start - a) % WRAP >= size
    ensures a == if GapSafe(segs, size) then LowestGap(segs, size, BASE) else BASE
    ensures GapSafe(segs, size) <==> IsLowestGap(segs, size, a)
  {
    assert segs[0..] == segs;
    if segs == [] || segs[0].start >= BASE {
      LowestGapOk(segs, size, BASE);
      if i < |segs| { assert 0 <= segs[i].start - a < WRAP; }
      assert LowestGap(segs[i..], size, a) == a;
    } else {
      assert i == 0;
    }
  }

  lemma GapIsFree(segs: seq<Seg>, size: int, a: int)
    requires GapSafe(segs, size) <==> IsLowestGap(segs, size, a)
    requires !GapSafe(segs, size) ==> a == BASE
    ensures GapSafe(segs, size) <==> FreeRun(segs, a, size)
  {
    hide At;
  }

  lemma EmptyRun(segs: seq<Seg>, a: int, size: int)
    requires forall v :: a <= v < a + size ==> At(segs, v) == None
    ensures FreeRun(segs, a, size)
  {
  }

  lemma InsertOk(segs: seq<Seg>, g: Seg, p: nat)
    requires Sorted(segs) && g.start < g.end && p <= |segs|
    requires (forall i :: 0 <= i < p ==> g.end > segs[i].start) && (p < |segs| ==> g.end <= segs[p].start)
    ensures var r := segs[..p] + [g] + segs[p..];
      && (Sorted(r) <==> FreeRun(segs, g.start, g.end - g.start))
      && (Sorted(r) ==> forall v :: At(r, v) == if Holds(g, v) then Some(InfoAt(g, v)) else At(segs, v))
      && forall c :: Sum(r, c) == Sum(segs, c) + SizeOf(g, c)
  {
    var r := segs[..p] + [g] + segs[p..];
    InsertSorted(segs, g, p);
    hide Sorted, At, Sum, FreeRun;
    if Sorted(r) {
      forall v ensures At(r, v) == if Holds(g, v) then Some(InfoAt(g, v)) else At(segs, v) {
        InsertView(segs, g, p, v);
      }
    }
    forall c ensures Sum(r, c) == Sum(segs, c) + SizeOf(g, c) { InsertSum(segs, g, p, c); }
  }

  lemma InsertSum(segs: seq<Seg>, g: Seg, p: nat, c: Class)
    requires p <= |segs|
    ensures Sum(segs[..p] + [g] + segs[p..], c) == Sum(segs, c) + SizeOf(g, c)
  {
    hide Sum;
    SumConcat(segs[..p] + [g], segs[p..], c);
    SumConcat(segs[..p], [g], c);
    SumConcat(segs[..p], segs[p..], c);
    assert segs == segs[..p] + segs[p..];
    OneSeg(g, 0, c);
  }

  lemma InsertView(segs: seq<Seg>, g: Seg, p: nat, v: int)
    requires p <= |segs| && Sorted(segs[..p] + [g] + segs[p..])
    ensures At(segs[..p] + [g] + segs[p..], v) == if Holds(g, v) then Some(InfoAt(g, v)) else At(segs, v)
  {
    hide At;
    var r := segs[..p] + [g] + segs[p..];
    assert r[p] == g && r[..p] == segs[..p] && r[p + 1..] == segs[p..];
    if Holds(g, v) { AtIndex(r, p, v); }
    AtConcat(segs[..p] + [g], segs[p..], v);
    AtConcat(segs[..p], [g], v);
    AtConcat(segs[..p], segs[p..], v);
    assert segs == segs[..p] + segs[p..];
    OneSeg(g, v, Total);
  }

  lemma InsertSorted(segs: seq<Seg>, g: Seg, p: nat)
    requires Sorted(segs) && g.start < g.end && p <= |segs|
    requires (forall i :: 0 <= i < p ==> g.end > segs[i].start) && (p < |segs| ==> g.end <= segs[p].start)
    ensures Sorted(segs[..p] + [g] + segs[p..]) <==> FreeRun(segs, g.start, g.end - g.start)
  {
    var r := segs[..p] + [g] + segs[p..];
    forall i | 0 <= i < |r| ensures r[i] == if i < p then segs[i] else if i == p then g else segs[i - 1] { }
    forall i | p <= i < |segs| ensures g.end <= segs[i].start { if i > p { assert segs[p].end <= segs[i].start; } }
    if FreeRun(segs, g.start, g.end - g.start) { FreeBelow(segs, g, p); }
    if Sorted(r) {
      forall i | 0 <= i < p ensures segs[i].end <= g.start { assert r[i].end <= r[p].start; }
      BelowFree(segs, g, p);
    }
  }

  lemma FreeBelow(segs: seq<Seg>, g: Seg, p: nat)
    requires Sorted(segs) && g.start < g.end && p <= |segs| && forall i :: 0 <= i < p ==> g.end > segs[i].start
    requires FreeRun(segs, g.start, g.end - g.start)
    ensures forall i :: 0 <= i < p ==> segs[i].end <= g.start
  {
    hide At;
    forall i | 0 <= i < p ensures segs[i].end <= g.start {
      var v := if segs[i].start > g.start then segs[i].start else g.start;
      if segs[i].end > g.start { AtIndex(segs, i, v); }
    }
  }

  lemma BelowFree(segs: seq<Seg>, g: Seg, p: nat)
    requires p <= |segs| && (forall i :: 0 <= i < p ==> segs[i].end <= g.start)
    requires forall i :: p <= i < |segs| ==> g.end <= segs[i].start
    ensures FreeRun(segs, g.start, g.end - g.start)
  {
    hide At;
    forall v | g.start <= v < g.end ensures At(segs, v) == None { AtSome(segs, v); }
  }

  /** A segment below the base makes the search hand out pages that are in use. */
  lemma GapSearchCounterexample(kind: Kind, prot: Prot)
    ensures var segs := [Seg(100, 110, prot, kind, 0), Seg(128, 130, prot, kind, 0)];
      Sorted(segs) && Bounded(segs) && !GapSafe(segs, 1) && !FreeRun(segs, BASE, 1)
  {
    var segs := [Seg(100, 110, prot, kind, 0), Seg(128, 130, prot, kind, 0)];
    AtIndex(segs, 1, 128);
  }

  lemma InsertLegal(segs: seq<Seg>, p: nat, g: Seg)
    requires AllLegal(segs) && p <= |segs| && Legal(InfoAt(g, g.start))
    ensures AllLegal(segs[..p] + [g] + segs[p..])
  {
  }

  ghost predicate Untouched(was: seq<Seg>, segs: seq<Seg>, address: int, size: int, v: int) {
    At(segs, v) == At(was, v) || (address != 0 && address <= v < address + size && At(segs, v) == None)
  }

  class Space {
    var segs: seq<Seg>
    var total: int
    var privateSize: int
    var sharedSize: int
    var fileSize: int
    var anonSize: int
    var peak: int

    ghost predicate Valid()
      reads this
    {
      && Sorted(segs) && AllLegal(segs) && peak >= total
      && total == Sum(segs, Total) && privateSize == Sum(segs, Private) && sharedSize == Sum(segs, SharedClass)
      && fileSize == Sum(segs, FileClass) && anonSize == Sum(segs, Anon)
    }

    constructor ()
      ensures Valid() && segs == []
    {
      segs, total, privateSize, sharedSize, fileSize, anonSize, peak := [], 0, 0, 0, 0, 0, 0;
    }

    /** vmm_space_split */
    method Split(i: nat, cut: int) returns (st: Status)
      requires Valid() && i < |segs|
      modifies this`segs
      ensures Valid()
      ensures st == (if cut <= old(segs)[i].start || cut >= old(segs)[i].end then EINVAL
                     else if !old(segs)[i].kind.canSplit then Refused else Ok)
      ensures st != Ok ==> segs == old(segs)
      ensures st == Ok ==> segs == Splice(old(segs), i, [LeftOf(old(segs)[i], cut), RightOf(old(segs)[i], cut)])
      ensures forall v :: At(segs, v) == At(old(segs), v)
    {
      hide Splice, At, Sum, AllLegal;
      var g := segs[i];
      SplitLegal(segs, i, cut);
      SpliceLegal(segs, i, [LeftOf(g, cut), RightOf(g, cut)]);
      if cut <= g.start || cut >= g.end { return EINVAL; }
      if !g.kind.canSplit { return Refused; }
      SplitSame(segs, i, cut);
      segs := Splice(segs, i, [LeftOf(g, cut), RightOf(g, cut)]);
      st := Ok;
    }

    /** avltree_first_superior_or_equal on the sorted segments: the first one that ends above. */
    method FirstAtOrAbove(addr: int) returns (i: nat)
      requires Sorted(segs)
      ensures i <= |segs| && (forall j :: 0 <= j < i ==> segs[j].end <= addr)
      ensures forall j :: i <= j < |segs| ==> segs[j].end > addr
    {
      i := 0;
      while i < |segs| && segs[i].end <= addr
        invariant i <= |segs| && forall j :: 0 <= j < i ==> segs[j].end <= addr
      {
        i := i + 1;
      }
    }

    /** vmm_space_raw_unmap */
    method UnmapSeg(i: nat)
      requires Valid() && i < |segs|
      modifies this
      ensures Valid() && segs == Splice(old(segs), i, []) && peak == old(peak)
    {
      hide At;
      var g := segs[i];
      var n := g.end - g.start;
      SpliceLegal(segs, i, []);
      forall c ensures Sum(Splice(segs, i, []), c) == Sum(segs, c) - SizeOf(g, c) { SpliceSum(segs, i, [], c); }
      SpliceSorted(segs, i, []);
      segs := Splice(segs, i, []);
      total := total - n;
      if g.kind.file.Some? { fileSize := fileSize - n; } else { anonSize := anonSize - n; }
      if g.kind.isPrivate { privateSize := privateSize - n; } else { sharedSize := sharedSize - n; }
    }

    /** The body of the loop of vmm_space_raw_unmap_range: cut segment `i` at both ends of the range
        and unmap the middle.  `next` is where the loop goes on. */
    method UnmapOverlap(i: nat, start: int, end: int) returns (st: Status, next: nat)
      requires Valid() && i < |segs| && start <= end && !Apart(segs[i], start, end)
      modifies this
      ensures Valid()
      ensures var g := old(segs)[i]; st == Ok <==> CutAllowed(g, start) && CutAllowed(g, end) && start < end
      ensures st == Ok ==> segs == Splice(old(segs), i, CarveOne(old(segs)[i], start, end))
      ensures peak == old(peak) && st != EACCES && (st == Ok ==> next == i + |CarveOne(old(segs)[i], start, end)|)
      ensures st != Ok ==> forall v :: At(segs, v) == At(old(segs), v)
    {
      hide At, Sum, Sorted, Splice, AllLegal;
      var k, g := i, segs[i];
      ghost var was := segs;
      if start > g.start {
        st := Split(k, start);
        if st != Ok { return st, 0; }
        SpliceTwice(was, i, LeftOf(g, start), RightOf(g, start), []);
        k := k + 1;
      }
      var m := segs[k];
      ghost var cut := segs;
      next := k;
      if end < m.end {
        st := Split(k, end);
        if st != Ok { return st, 0; }
        EndPiece(cut, k, m, end);
        next := k + 1;
      }
      UnmapSeg(k);
      CarvedPieces(was, i, start, end);
      st := Ok;
    }

    /** vmm_space_raw_unmap_range.  It fails exactly when a cut is refused or when an empty range lies
        strictly inside a segment; pages outside the range never change. */
    method UnmapRange(start: int, end: int) returns (st: Status)
      requires Valid() && start <= end
      modifies this
      ensures Valid()
      ensures st == Ok <==> CutsAllowed(old(segs), start) && CutsAllowed(old(segs), end) &&
                            (start < end || !Inside(old(segs), start))
      ensures peak == old(peak) && st != EACCES && (st == Ok ==> segs == Carve(old(segs), start, end))
      ensures st == Ok ==> forall v :: At(segs, v) == if start <= v < end then None else At(old(segs), v)
      ensures forall v :: At(segs, v) == At(old(segs), v) || (start <= v < end && At(segs, v) == None)
    {
      hide At, Sum, Sorted, Carve, CarveOne, CutAllowed, Unmapped, Splice, AllLegal;
      ghost var was := segs;
      var i: nat := FirstAtOrAbove(start);
      ghost var j: nat := i;
      UnmappedStart(was, start, end, j);
      while i < |segs|
        invariant Unmapped(was, segs, start, end, j, i) && Valid() && j <= |was| && peak == old(peak)
        decreases |was| - j
      {
        UnmappedHead(was, segs, start, end, j, i);
        if segs[i].start >= end { break; }
        ghost var before, at := segs, i;
        st, i := UnmapOverlap(i, start, end);
        if st != Ok {
          FailedCut(was, start, end, j);
          return;
        }
        UnmappedStep(was, before, start, end, j, at);
        j := j + 1;
      }
      UnmappedHead(was, segs, start, end, j, i);
      UnmappedEnd(was, segs, start, end, j, i);
      CarveAll(was, start, end);
      st := Ok;
    }

    /** vmm_space_chprot, on the segment itself. */
    method ProtectSeg(i: nat, prot: Prot) returns (st: Status)
      requires Valid() && i < |segs|
      modifies this`segs
      ensures Valid()
      ensures var g := old(segs)[i];
        st == (if !Legal(InfoAt(g.(prot := prot), g.start)) then EACCES else if !g.kind.canProtect then Refused else Ok)
      ensures segs == if st == Ok then Splice(old(segs), i, [old(segs)[i].(prot := prot)]) else old(segs)
    {
      hide At, Sum, Splice, AllLegal, Sorted;
      var g := segs[i];
      if !HasPerm(g.kind, prot) { return EACCES; }
      if !g.kind.canProtect { return Refused; }
      ReprotSame(segs, i, prot);
      if g.prot != prot { segs := Splice(segs, i, [g.(prot := prot)]); }
      st := Ok;
    }

    /** The end of the loop body of vmm_space_raw_chprot_range, for a segment that starts in the
        range: cut it at the end of the range and protect it. */
    method ProtectOverlap(i: nat, start: int, end: int, prot: Prot) returns (st: Status)
      requires Valid() && i < |segs| && start <= segs[i].start < end
      modifies this`segs
      ensures Valid()
      ensures var g := old(segs)[i]; st == Ok <==> CutAllowed(g, end) && ProtAllowed(g.kind, prot)
      ensures st == Ok ==> segs == Splice(old(segs), i, ReprotOne(old(segs)[i], start, end, prot))
      ensures st != Ok ==> forall v :: At(segs, v) == At(old(segs), v)
    {
      hide At, Sum, Splice, AllLegal;
      var g := segs[i];
      ghost var was := segs;
      if end < g.end {
        st := Split(i, end);
        if st != Ok { return; }
        SpliceTwice(was, i, LeftOf(g, end), RightOf(g, end), [LeftOf(g, end).(prot := prot)]);
      }
      st := ProtectSeg(i, prot);
      assert [] + [Middle(g, start, end).(prot := prot)] + After(g, end) == [Middle(g, start, end).(prot := prot)] + After(g, end);
      assert [g.(prot := prot)] + [] == [g.(prot := prot)];
    }

    /** vmm_space_raw_chprot_range.  It fails exactly when a cut is refused or a touched segment may
        not get the protection; pages outside the range never change. */
    method ProtectRange(start: int, end: int, prot: Prot) returns (st: Status)
      requires Valid() && start < end
      modifies this`segs
      ensures Valid()
      ensures st == Ok <==> AllAllowed(old(segs), start, end, prot)
      ensures st == Ok ==> segs == Reprot(old(segs), start, end, prot)
      ensures st == Ok ==> forall v :: At(segs, v) == Protected(old(segs), start, end, prot, v)
      ensures forall v :: At(segs, v) == At(old(segs), v) ||
                          (start <= v < end && At(segs, v) == Protected(old(segs), start, end, prot, v))
    {
      hide At, Sum, Sorted, Reprot, ReprotOne, AllAllowed, Reprotted, Splice, Protected, Equiv, AllLegal;
      ghost var was, cur := segs, segs;
      var i: nat := FirstAtOrAbove(start);
      ghost var j: nat, first := i, true;
      ReprottedStart(was, start, end, prot, j);
      EquivSelf(was, start, end, prot);
      while i < |segs|
        invariant Valid() && Sorted(cur) && Equiv(was, cur, start, end, prot) && j <= |cur|
        invariant Reprotted(cur, segs, start, end, prot, j, i)
        invariant !first ==> forall k :: j <= k < |cur| ==> cur[k].start >= start
        decreases if first then 1 else 0, |cur| - j
      {
        ReprottedHead(was, cur, segs, start, end, prot, j, i);
        if segs[i].start >= end { break; }
        LaterStarts(cur, j, start);
        if start > segs[i].start {
          ghost var g := cur[j];
          ghost var before := segs;
          st := Split(i, start);
          if st != Ok {
            Refusal(was, cur, start, end, prot, j);
            return;
          }
          StartCut(was, cur, start, end, prot, j);
          ReprottedCut(cur, before, start, end, prot, j, i);
          cur := Splice(cur, j, [LeftOf(g, start), RightOf(g, start)]);
          LaterStarts(cur, j, start);
          i, j, first := i + 1, j + 1, false;
          continue;
        }
        ghost var before := segs;
        st := ProtectOverlap(i, start, end, prot);
        if st != Ok {
          Refusal(was, cur, start, end, prot, j);
          return;
        }
        ReprottedStep(cur, before, start, end, prot, j, i);
        i, j, first := i + 1, j + 1, false;
      }
      ReprottedEnd(was, cur, segs, start, end, prot, j, i);
      st := Ok;
    }

    /** The address search of vmm_space_raw_create_seg, with its unsigned subtraction. */
    method FindGap(size: int) returns (address: int)
      requires Sorted(segs) && Bounded(segs) && 0 < size <= WRAP - BASE
      ensures address == if GapSafe(segs, size) then LowestGap(segs, size, BASE) else BASE
      ensures GapSafe(segs, size) <==> IsLowestGap(segs, size, address)
    {
      hide At, LowestGap, IsLowestGap, GapSafe;
      address := BASE;
      var i := 0;
      GapStart(segs, size);
      while i < |segs|
        invariant 0 <= i <= |segs| && (i > 0 ==> address == segs[i - 1].end && segs[0].start >= BASE)
        invariant i == 0 ==> address == BASE
        invariant i > 0 ==> LowestGap(segs[i..], size, address) == LowestGap(segs, size, BASE)
      {
        if (segs[i].start - address) % WRAP >= size { break; }
        GapStep(segs, size, i, address);
        address := segs[i].end;
        i := i + 1;
      }
      GapEnd(segs, size, i, address);
    }

    /** avltree_insert of a segment: before the first one that lies entirely above it. */
    method InsertSeg(g: Seg) returns (p: nat)
      requires Sorted(segs) && g.start < g.end
      modifies this`segs
      ensures p <= |old(segs)| && segs == old(segs)[..p] + [g] + old(segs)[p..]
      ensures p < |old(segs)| ==> g.end <= old(segs)[p].start
      ensures Sorted(segs) <==> FreeRun(old(segs), g.start, g.end - g.start)
      ensures FreeRun(old(segs), g.start, g.end - g.start) ==>
        forall v :: At(segs, v) == if Holds(g, v) then Some(InfoAt(g, v)) else At(old(segs), v)
      ensures forall c :: Sum(segs, c) == Sum(old(segs), c) + SizeOf(g, c)
    {
      hide At, Sum, FreeRun;
      p := 0;
      while p < |segs| && g.end > segs[p].start
        invariant p <= |segs| && forall i :: 0 <= i < p ==> g.end > segs[i].start
      {
        p := p + 1;
      }
      InsertOk(segs, g, p);
      segs := segs[..p] + [g] + segs[p..];
    }

    /** vmm_space_raw_map: at `address`, replacing what is there, or for address 0 in a gap. */
    method Map(address: int, size: int, prot: Prot, kind: Kind, offset: int) returns (st: Status, at: int)
      requires Valid() && 0 < size <= WRAP - BASE && address >= 0 && (address == 0 ==> Bounded(segs))
      requires if kind.anonymous then kind.file.None? else kind.file.Some?
      modifies this
      ensures st == EACCES <==> !Legal(PageInfo(prot, kind, offset))
      ensures st == Ok <==> Legal(PageInfo(prot, kind, offset)) && (address != 0 ==>
                CutsAllowed(old(segs), address) && CutsAllowed(old(segs), address + size))
      ensures peak == if st == Ok && total > old(peak) then total else old(peak)
      ensures st != Ok ==> Valid() && (forall v :: Untouched(old(segs), segs, address, size, v))
      ensures st == Ok && address != 0 ==> at == address
      ensures st == Ok && address == 0 ==> (GapSafe(old(segs), size) <==> IsLowestGap(old(segs), size, at))
      ensures st == Ok ==> (Valid() <==> address != 0 || GapSafe(old(segs), size))
      ensures st == Ok && (address != 0 || GapSafe(old(segs), size)) ==>
        forall v :: At(segs, v) ==
          if at <= v < at + size then Some(PageInfo(prot, kind, offset + (v - at))) else At(old(segs), v)
    {
      hide At, Sum, GapSafe, IsLowestGap, FreeRun, Sorted, LowestGap, CutsAllowed, Carve, AllLegal, Legal, HasPerm;
      PermIsLegal(kind, prot, offset);
      at := address;
      if !HasPerm(kind, prot) { return EACCES, at; }
      if address != 0 {
        st := UnmapRange(address, address + size);
        if st != Ok { return; }
        EmptyRun(segs, address, size);
      } else {
        at := FindGap(size);
        GapIsFree(segs, size, at);
      }
      var g := Seg(at, at + size, prot, kind, offset);
      ghost var was := segs;
      var p := InsertSeg(g);
      InsertLegal(was, p, g);
      if kind.file.Some? { fileSize := fileSize + size; } else { anonSize := anonSize + size; }
      if kind.isPrivate { privateSize := privateSize + size; } else { sharedSize := sharedSize + size; }
      total := total + size;
      if total > peak { peak := total; }
      st := Ok;
    }

    /** The segment part of vmm_clone: the child gets the sizes and a copy of every segment. */
    method CloneTo(child: Space)
      requires Valid() && child != this && child.segs == []
      modifies child
      ensures child.Valid() && child.segs == segs && child.peak == peak
    {
      hide At, Sum, FreeRun;
      child.total, child.peak := total, peak;
      child.privateSize, child.sharedSize := privateSize, sharedSize;
      child.fileSize, child.anonSize := fileSize, anonSize;
      var i := 0;
      while i < |segs|
        invariant 0 <= i <= |segs| && child.segs == segs[..i]
        modifies child`segs
      {
        var p := child.InsertSeg(segs[i]);
        assert forall k :: 0 <= k < i ==> segs[k].start < segs[k].end <= segs[i].start;
        i := i + 1;
      }
      assert segs[..|segs|] == segs;
    }
  }
}
