/** The sorted segment list of a resource manager: which addresses it covers, which are free, and
    what carving and merging segments do to it. */
module RmanSegs {

  /** A segment; owner 0 stands for no device. */
  datatype Seg = Seg(start: int, size: int, owner: int)

  function End(s: Seg): int { s.start + s.size }

  predicate Inside(s: Seg, a: int) { s.start <= a < End(s) }

  ghost predicate Has(segs: seq<Seg>, a: int) { exists s :: s in segs && Inside(s, a) }

  ghost predicate FreeAt(segs: seq<Seg>, a: int) { exists s :: s in segs && s.owner == 0 && Inside(s, a) }

  /** The allocated segments. */
  ghost function Owned(segs: seq<Seg>): set<Seg> { set s | s in segs && s.owner != 0 }

  ghost predicate Positive(segs: seq<Seg>) { forall s :: s in segs ==> s.size > 0 }

  ghost predicate Ordered(segs: seq<Seg>) { forall i, j :: 0 <= i < j < |segs| ==> End(segs[i]) <= segs[j].start }

  /** Free neighbours do not touch. */
  ghost predicate Coalesced(segs: seq<Seg>) {
    forall i, j :: 0 <= i < j < |segs| && j == i + 1 && segs[i].owner == 0 && segs[j].owner == 0 ==>
      End(segs[i]) < segs[j].start
  }

  ghost predicate Canonical(segs: seq<Seg>) { Positive(segs) && Ordered(segs) && Coalesced(segs) }

  // ---- the list determines and is determined by its addresses ----

  lemma SegIndex(segs: seq<Seg>, s: Seg) returns (i: nat)
    requires s in segs
    ensures i < |segs| && segs[i] == s
  {
    i :| 0 <= i < |segs| && segs[i] == s;
  }

  /** Free segments keep a distance. */
  lemma FreeApart(segs: seq<Seg>, i: nat, j: nat)
    requires Canonical(segs) && i < j < |segs| && segs[i].owner == 0 && segs[j].owner == 0
    ensures End(segs[i]) < segs[j].start && segs[i].size > 0 && segs[j].size > 0
  {
    assert segs[i] in segs && segs[j] in segs && segs[i + 1] in segs;
    assert j > i + 1 ==> End(segs[i]) <= segs[i + 1].start && End(segs[i + 1]) <= segs[j].start;
  }

  /** A free segment begins and ends where free addresses do. */
  lemma FreeRunEnds(segs: seq<Seg>, i: nat)
    requires Canonical(segs) && i < |segs| && segs[i].owner == 0
    ensures !FreeAt(segs, End(segs[i]))
    ensures !FreeAt(segs, segs[i].start - 1)
  {
    forall s | s in segs && s.owner == 0 ensures !Inside(s, End(segs[i])) && !Inside(s, segs[i].start - 1) {
      var j := SegIndex(segs, s);
      if i < j { FreeApart(segs, i, j); }
      if j < i { FreeApart(segs, j, i); }
    }
  }

  ghost predicate Window(segs: seq<Seg>, a: int, n: int) { forall b :: a <= b < a + n ==> FreeAt(segs, b) }

  /** A free window lies inside one free segment. */
  lemma WindowInOne(segs: seq<Seg>, a: int, n: int) returns (i: nat)
    requires Canonical(segs) && n > 0 && Window(segs, a, n)
    ensures i < |segs| && segs[i].owner == 0 && segs[i].start <= a && a + n <= End(segs[i])
  {
    assert FreeAt(segs, a);
    var s :| s in segs && s.owner == 0 && Inside(s, a);
    i := SegIndex(segs, s);
    FreeRunEnds(segs, i);
    assert a <= End(s) < a + n ==> FreeAt(segs, End(s));
  }

  /** The free segments are exactly the maximal runs of free addresses. */
  lemma FreeRuns(segs: seq<Seg>, a: int, n: int)
    requires Canonical(segs)
    ensures Seg(a, n, 0) in segs <==> n > 0 && Window(segs, a, n) && !FreeAt(segs, a - 1) && !FreeAt(segs, a + n)
  {
    var s := Seg(a, n, 0);
    if s in segs {
      var i := SegIndex(segs, s);
      FreeRunEnds(segs, i);
      forall b | a <= b < a + n ensures FreeAt(segs, b) { assert Inside(s, b); }
    } else if n > 0 && Window(segs, a, n) && !FreeAt(segs, a - 1) && !FreeAt(segs, a + n) {
      var i := WindowInOne(segs, a, n);
      var t := segs[i];
      assert t in segs;
      assert t.start < a ==> Inside(t, a - 1);
      assert End(t) > a + n ==> Inside(t, a + n);
    }
  }

  /** Once everything is given back, the segments are the maximal runs of the covered addresses. */
  lemma MaximalRuns(segs: seq<Seg>, a: int, n: int)
    requires Canonical(segs) && Owned(segs) == {}
    ensures Seg(a, n, 0) in segs <==>
      n > 0 && (forall b :: a <= b < a + n ==> Has(segs, b)) && !Has(segs, a - 1) && !Has(segs, a + n)
  {
    AllFree(segs);
    FreeRuns(segs, a, n);
  }

  lemma AllFree(segs: seq<Seg>)
    requires Owned(segs) == {}
    ensures forall s :: s in segs ==> s.owner == 0
    ensures forall a :: Has(segs, a) <==> FreeAt(segs, a)
  {
    forall s | s in segs ensures s.owner == 0 { assert s.owner != 0 ==> s in Owned(segs); }
  }

  // ---- lists put together ----

  ghost predicate Before(x: seq<Seg>, y: seq<Seg>) { forall s, t :: s in x && t in y ==> End(s) <= t.start }

  /** The lists do not meet in two touching free segments. */
  ghost predicate Seam(x: seq<Seg>, y: seq<Seg>) {
    x != [] && y != [] && x[|x| - 1].owner == 0 && y[0].owner == 0 ==> End(x[|x| - 1]) < y[0].start
  }

  lemma OrderedConcat(x: seq<Seg>, y: seq<Seg>)
    ensures Ordered(x + y) <==> Ordered(x) && Ordered(y) && Before(x, y)
  {
    var z := x + y;
    if Ordered(z) {
      forall i, j | 0 <= i < j < |x| ensures End(x[i]) <= x[j].start { assert End(z[i]) <= z[j].start; }
      forall i, j | 0 <= i < j < |y| ensures End(y[i]) <= y[j].start { assert End(z[|x| + i]) <= z[|x| + j].start; }
      forall i, j | 0 <= i < |x| && 0 <= j < |y| ensures End(x[i]) <= y[j].start { assert End(z[i]) <= z[|x| + j].start; }
    }
  }

  lemma CoalescedConcat(x: seq<Seg>, y: seq<Seg>)
    ensures Coalesced(x + y) <==> Coalesced(x) && Coalesced(y) && Seam(x, y)
  {
    var z := x + y;
    if Coalesced(z) {
      forall i, j | 0 <= i < j < |x| && j == i + 1 && x[i].owner == 0 && x[j].owner == 0 ensures End(x[i]) < x[j].start
      {
        assert z[i] == x[i] && z[j] == x[j];
      }
      forall i, j | 0 <= i < j < |y| && j == i + 1 && y[i].owner == 0 && y[j].owner == 0 ensures End(y[i]) < y[j].start
      {
        assert z[|x| + i] == y[i] && z[|x| + j] == y[j];
      }
      if x != [] && y != [] { assert z[|x| - 1] == x[|x| - 1] && z[|x|] == y[0]; }
    }
  }

  lemma PositiveConcat(x: seq<Seg>, y: seq<Seg>)
    ensures Positive(x + y) <==> Positive(x) && Positive(y)
  {
    assert forall s :: s in x + y <==> s in x || s in y;
  }

  lemma CanonicalConcat(x: seq<Seg>, y: seq<Seg>)
    ensures Canonical(x + y) <==> Canonical(x) && Canonical(y) && Before(x, y) && Seam(x, y)
  {
    OrderedConcat(x, y);
    CoalescedConcat(x, y);
    PositiveConcat(x, y);
  }

  lemma HasConcat(x: seq<Seg>, y: seq<Seg>, a: int)
    ensures Has(x + y, a) <==> Has(x, a) || Has(y, a)
    ensures FreeAt(x + y, a) <==> FreeAt(x, a) || FreeAt(y, a)
    ensures Owned(x + y) == Owned(x) + Owned(y)
  {
    assert forall s :: s in x + y <==> s in x || s in y;
  }

  lemma HasOne(s: Seg, a: int)
    ensures Has([s], a) <==> Inside(s, a)
    ensures FreeAt([s], a) <==> Inside(s, a) && s.owner == 0
    ensures Owned([s]) == if s.owner == 0 then {} else {s}
    ensures Canonical([s]) <==> s.size > 0
  {
    assert s in [s];
    assert s.owner != 0 ==> s in Owned([s]);
  }

  // ---- merging ----

  function DropLast(x: seq<Seg>): seq<Seg>
    requires x != []
  {
    x[..|x| - 1]
  }

  predicate JoinsPrev(x: seq<Seg>, s: Seg) { x != [] && End(x[|x| - 1]) == s.start && x[|x| - 1].owner == 0 }

  predicate JoinsNext(s: Seg, y: seq<Seg>) { y != [] && End(s) == y[0].start && y[0].owner == 0 }

  /** rman_merge with the segment before. */
  function MergePrev(x: seq<Seg>, s: Seg): (seq<Seg>, Seg) {
    if JoinsPrev(x, s) then (DropLast(x), Seg(x[|x| - 1].start, s.size + x[|x| - 1].size, s.owner)) else (x, s)
  }

  function MergeNext(s: Seg, y: seq<Seg>): (Seg, seq<Seg>) {
    if JoinsNext(s, y) then (Seg(s.start, s.size + y[0].size, s.owner), y[1..]) else (s, y)
  }

  function Merged(x: seq<Seg>, s: Seg, y: seq<Seg>): seq<Seg> {
    var (x', s') := MergePrev(x, s);
    var (s'', y') := MergeNext(s', y);
    x' + [s''] + y'
  }

  /** Canonical around a free segment that may touch free neighbours, or be empty. */
  ghost predicate Loose(x: seq<Seg>, s: Seg, y: seq<Seg>) {
    && Canonical(x) && Canonical(y) && s.owner == 0 && s.size >= 0
    && Before(x, [s]) && Before([s], y) && Before(x, y)
  }

  /** The same addresses, free ones and owners. */
  ghost predicate SameCover(u: seq<Seg>, v: seq<Seg>) {
    && (forall a :: (Has(u, a) <==> Has(v, a)) && (FreeAt(u, a) <==> FreeAt(v, a)))
    && Owned(u) == Owned(v)
  }

  lemma PairCover(l: Seg, s: Seg)
    requires l.owner == s.owner == 0 && End(l) == s.start && l.size >= 0 && s.size >= 0
    ensures SameCover([l] + [s], [Seg(l.start, l.size + s.size, 0)])
  {
    hide Has, FreeAt, Owned;
    var m := Seg(l.start, l.size + s.size, 0);
    forall a
      ensures Has([l] + [s], a) <==> Has([m], a)
      ensures FreeAt([l] + [s], a) <==> FreeAt([m], a)
      ensures Owned([l] + [s]) == Owned([m])
    {
      HasConcat([l], [s], a);
      HasOne(l, a);
      HasOne(s, a);
      HasOne(m, a);
    }
  }

  lemma CoverWithin(x: seq<Seg>, u: seq<Seg>, v: seq<Seg>, y: seq<Seg>)
    requires SameCover(u, v)
    ensures SameCover(x + u + y, x + v + y)
  {
    hide Has, FreeAt, Owned;
    forall a ensures (Has(x + u + y, a) <==> Has(x + v + y, a)) && (FreeAt(x + u + y, a) <==> FreeAt(x + v + y, a)) {
      HasConcat(x + u, y, a);
      HasConcat(x, u, a);
      HasConcat(x + v, y, a);
      HasConcat(x, v, a);
    }
    HasConcat(x + u, y, 0);
    HasConcat(x, u, 0);
    HasConcat(x + v, y, 0);
    HasConcat(x, v, 0);
  }

  lemma MergePrevFacts(x: seq<Seg>, s: Seg, y: seq<Seg>)
    requires Loose(x, s, y)
    ensures var (x', s') := MergePrev(x, s);
      && Loose(x', s', y) && Seam(x', [s']) && End(s') == End(s)
      && SameCover(x + [s] + y, x' + [s'] + y) && (s'.size > 0 <==> s.size > 0 || JoinsPrev(x, s))
  {
    hide Canonical, Before, SameCover;
    if JoinsPrev(x, s) {
      var w, l := DropLast(x), x[|x| - 1];
      var s' := MergePrev(x, s).1;
      assert x == w + [l];
      CanonicalConcat(w, [l]);
      HasOne(l, 0);
      BeforeConcat(w, [l], y);
      BeforeSameStart(w, l, s');
      BeforeSameEnd(s, s', y);
      PairCover(l, s);
      CoverWithin(w, [l] + [s], [s'], y);
      assert w + ([l] + [s]) + y == x + [s] + y;
    } else {
      SameCoverRefl(x + [s] + y);
      if x != [] {
        assert x == DropLast(x) + [x[|x| - 1]];
        BeforeConcat(DropLast(x), [x[|x| - 1]], [s]);
        BeforeAdjacent(x[|x| - 1], s);
      }
    }
  }

  lemma MergeNextFacts(x: seq<Seg>, s: Seg, y: seq<Seg>)
    requires Loose(x, s, y) && Seam(x, [s])
    ensures var (s', y') := MergeNext(s, y);
      && Loose(x, s', y') && Seam(x, [s']) && Seam([s'], y')
      && SameCover(x + [s] + y, x + [s'] + y') && (s'.size > 0 <==> s.size > 0 || JoinsNext(s, y))
  {
    hide Canonical, Before, SameCover;
    if JoinsNext(s, y) {
      var f, w := y[0], y[1..];
      var s' := MergeNext(s, y).0;
      assert y == [f] + w;
      CanonicalConcat([f], w);
      HasOne(f, 0);
      BeforeConcat([f], w, x);
      BeforeSameEnd(f, s', w);
      BeforeSameStart(x, s, s');
      PairCover(s, f);
      CoverWithin(x, [s] + [f], [s'], w);
      assert x + ([s] + [f]) + w == x + [s] + y;
    } else {
      SameCoverRefl(x + [s] + y);
      if y != [] {
        assert y == [y[0]] + y[1..];
        BeforeConcat([y[0]], y[1..], [s]);
        BeforeAdjacent(s, y[0]);
      }
    }
  }

  lemma SameCoverRefl(u: seq<Seg>)
    ensures SameCover(u, u)
  {
  }

  lemma BeforeAdjacent(s: Seg, t: Seg)
    requires Before([s], [t])
    ensures End(s) <= t.start
  {
    assert s in [s] && t in [t];
  }

  lemma BeforeSameStart(w: seq<Seg>, l: Seg, s': Seg)
    requires Before(w, [l]) && s'.start == l.start
    ensures Before(w, [s'])
  {
    assert l in [l];
  }

  lemma BeforeSameEnd(s: Seg, s': Seg, y: seq<Seg>)
    requires Before([s], y) && End(s') == End(s)
    ensures Before([s'], y)
  {
    assert s in [s];
  }

  /** Merging changes no address, and gives a canonical list unless an empty segment stays alone. */
  lemma MergedFacts(x: seq<Seg>, s: Seg, y: seq<Seg>)
    requires Loose(x, s, y)
    ensures SameCover(x + [s] + y, Merged(x, s, y))
    ensures Canonical(Merged(x, s, y)) <==> s.size > 0 || JoinsPrev(x, s) || JoinsNext(s, y)
  {
    hide Canonical, Has, FreeAt, Owned, Before;
    MergePrevFacts(x, s, y);
    var (x', s') := MergePrev(x, s);
    MergeNextFacts(x', s', y);
    var (s'', y') := MergeNext(s', y);
    CanonicalThree(x', s'', y');
  }

  lemma CanonicalThree(x: seq<Seg>, s: Seg, y: seq<Seg>)
    requires Loose(x, s, y) && Seam(x, [s]) && Seam([s], y)
    ensures Canonical(x + [s] + y) <==> s.size > 0
  {
    hide Canonical, Before;
    HasOne(s, 0);
    CanonicalConcat(x + [s], y);
    CanonicalConcat(x, [s]);
    BeforeConcat(x, [s], y);
    assert (x + [s])[|x|] == s;
  }

  lemma BeforeConcat(x: seq<Seg>, z: seq<Seg>, y: seq<Seg>)
    ensures Before(x + z, y) <==> Before(x, y) && Before(z, y)
    ensures Before(y, x + z) <==> Before(y, x) && Before(y, z)
  {
    assert forall s :: s in x + z <==> s in x || s in z;
  }

  // ---- carving a window out of a free segment ----

  function FreePart(a: int, n: int): seq<Seg> { if n > 0 then [Seg(a, n, 0)] else [] }

  function Pieces(s: Seg, a: int, n: int, owner: int): seq<Seg> {
    FreePart(s.start, a - s.start) + [Seg(a, n, owner)] + FreePart(a + n, End(s) - (a + n))
  }

  lemma PiecesCover(s: Seg, a: int, n: int, owner: int, b: int)
    requires s.owner == 0 && s.start <= a && n > 0 && a + n <= End(s) && owner != 0
    ensures var p := Pieces(s, a, n, owner);
      && (Has(p, b) <==> Inside(s, b)) && (FreeAt(p, b) <==> Inside(s, b) && !(a <= b < a + n))
      && Owned(p) == {Seg(a, n, owner)}
  {
    hide Has, FreeAt, Owned;
    var u, m, v := FreePart(s.start, a - s.start), Seg(a, n, owner), FreePart(a + n, End(s) - (a + n));
    HasConcat(u + [m], v, b);
    HasConcat(u, [m], b);
    HasOne(m, b);
    HasPart(s.start, a - s.start, b);
    HasPart(a + n, End(s) - (a + n), b);
  }

  lemma HasPart(a: int, n: int, b: int)
    ensures Has(FreePart(a, n), b) <==> a <= b < a + n
    ensures FreeAt(FreePart(a, n), b) <==> a <= b < a + n
    ensures Owned(FreePart(a, n)) == {}
  {
    if n > 0 { HasOne(Seg(a, n, 0), b); }
  }

  /** The pieces stand in for the segment between the same neighbours. */
  lemma PiecesOrder(x: seq<Seg>, s: Seg, y: seq<Seg>, a: int, n: int, owner: int)
    requires Canonical(x + [s] + y) && s.owner == 0 && s.start <= a && n > 0 && a + n <= End(s) && owner != 0
    ensures Canonical(x + Pieces(s, a, n, owner) + y)
  {
    hide Canonical, Before, Seam;
    var u, m, v := FreePart(s.start, a - s.start), Seg(a, n, owner), FreePart(a + n, End(s) - (a + n));
    var p := Pieces(s, a, n, owner);
    CanonicalConcat(x + [s], y);
    CanonicalConcat(x, [s]);
    BeforeConcat(x, [s], y);
    CanonicalConcat(u + [m], v);
    CanonicalConcat(u, [m]);
    CanonicalConcat(x + p, y);
    CanonicalConcat(x, p);
    BeforeConcat(x, p, y);
    PartCanonical(s.start, a - s.start);
    PartCanonical(a + n, End(s) - (a + n));
    HasOne(m, 0);
    PiecesInner(s, a, n, owner);
    PiecesOuter(x, s, y, a, n, owner);
  }

  lemma PartCanonical(a: int, n: int)
    ensures Canonical(FreePart(a, n))
  {
  }

  lemma PiecesInner(s: Seg, a: int, n: int, owner: int)
    requires owner != 0 && n > 0
    ensures var u, m, v := FreePart(s.start, a - s.start), Seg(a, n, owner), FreePart(a + n, End(s) - (a + n));
      && Before(u, [m]) && Seam(u, [m]) && Before(u + [m], v) && Seam(u + [m], v)
  {
  }

  lemma PiecesOuter(x: seq<Seg>, s: Seg, y: seq<Seg>, a: int, n: int, owner: int)
    requires Before(x, [s]) && Before([s], y) && Seam(x, [s]) && Seam(x + [s], y)
    requires s.owner == 0 && s.start <= a && n > 0 && a + n <= End(s) && owner != 0
    ensures var p := Pieces(s, a, n, owner);
      && Before(x, p) && Before(p, y) && Seam(x, p) && Seam(x + p, y)
  {
    var p := Pieces(s, a, n, owner);
    assert s in [s] && (x + [s])[|x|] == s;
    assert forall t :: t in p ==> s.start <= t.start && End(t) <= End(s);
    assert (x + p)[|x + p| - 1] == p[|p| - 1];
  }

  // ---- the list is determined by free addresses and owners ----

  lemma HeadApart(u: seq<Seg>, s: Seg)
    requires u != [] && Positive(u) && Ordered(u) && s in u
    ensures s == u[0] || (s in u[1..] && u[0].start < s.start)
    ensures u[0] !in u[1..] && (s in u[1..] ==> s != u[0])
    ensures Positive(u[1..]) && Ordered(u[1..])
  {
    assert u == [u[0]] + u[1..];
    OrderedConcat([u[0]], u[1..]);
    PositiveConcat([u[0]], u[1..]);
    assert u[0] in [u[0]] && u[0] in u;
  }

  lemma {:induction false} SameMembers(u: seq<Seg>, v: seq<Seg>)
    requires Positive(u) && Ordered(u) && Positive(v) && Ordered(v) && forall s :: s in u <==> s in v
    ensures u == v
  {
    assert v == [] || v[0] in v;
    if u != [] {
      hide Positive, Ordered;
      assert u[0] in u && u[0] in v;
      assert v != [] && v[0] in v;
      HeadApart(u, v[0]);
      HeadApart(v, u[0]);
      forall s ensures s in u[1..] <==> s in v[1..] {
        assert s in u[1..] ==> s in u;
        assert s in v[1..] ==> s in v;
        if s in u { HeadApart(u, s); HeadApart(v, s); }
      }
      SameMembers(u[1..], v[1..]);
    }
  }

  /** A canonical list is determined by its free addresses and its allocated segments. */
  lemma Determined(u: seq<Seg>, v: seq<Seg>)
    requires Canonical(u) && Canonical(v) && SameCover(u, v)
    ensures u == v
  {
    hide Canonical, Has, FreeAt, Owned;
    forall s ensures s in u <==> s in v {
      if s.owner == 0 {
        FreeRuns(u, s.start, s.size);
        FreeRuns(v, s.start, s.size);
        WindowSame(u, v, s.start, s.size);
      } else {
        OwnedIn(u, s);
        OwnedIn(v, s);
      }
    }
    CanonicalParts(u);
    CanonicalParts(v);
    SameMembers(u, v);
  }

  lemma WindowSame(u: seq<Seg>, v: seq<Seg>, a: int, n: int)
    requires SameCover(u, v)
    ensures Window(u, a, n) <==> Window(v, a, n)
  {
    hide Has, FreeAt, Owned;
  }

  lemma OwnedIn(u: seq<Seg>, s: Seg)
    ensures s.owner != 0 ==> (s in u <==> s in Owned(u))
  {
  }

  lemma CanonicalParts(u: seq<Seg>)
    requires Canonical(u)
    ensures Positive(u) && Ordered(u)
  {
  }
}
