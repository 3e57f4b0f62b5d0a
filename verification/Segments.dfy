/** The address-space manager's segments as a sorted sequence, seen as a map from pages to what
    backs them.  Addresses and offsets are counted in pages. */
module Segments {

  datatype Option<+T> = None | Some(value: T)

  datatype Prot = Prot(read: bool, write: bool, exec: bool)

  datatype File = File(id: int, writeOnly: bool, readWrite: bool)

  /** Kind holds what never changes in a segment: the VMM flags, the file and whether the segment's
      operations allow splitting and protection changes (can_split, can_mprotect). */
  datatype Kind = Kind(anonymous: bool, isPrivate: bool, shared: bool, file: Option<File>,
                       canSplit: bool, canProtect: bool)

  datatype Seg = Seg(start: int, end: int, prot: Prot, kind: Kind, offset: int)

  /** What one page is: protection, kind and the page of the file behind it. */
  datatype PageInfo = PageInfo(prot: Prot, kind: Kind, offset: int)

  datatype Status = Ok | EINVAL | EACCES | ENOMEM | Refused

  predicate Holds(g: Seg, v: int) { g.start <= v < g.end }

  function InfoAt(g: Seg, v: int): PageInfo { PageInfo(g.prot, g.kind, g.offset + (v - g.start)) }

  /** The page map. */
  function At(segs: seq<Seg>, v: int): Option<PageInfo> {
    if segs == [] then None
    else
      var g := segs[|segs| - 1];
      if Holds(g, v) then Some(InfoAt(g, v)) else At(segs[..|segs| - 1], v)
  }

  /** Segments are non-empty, sorted and disjoint. */
  ghost predicate Sorted(segs: seq<Seg>) {
    && (forall i :: 0 <= i < |segs| ==> segs[i].start < segs[i].end)
    && forall i, j :: 0 <= i < j < |segs| ==> segs[i].end <= segs[j].start
  }

  lemma {:induction false} AtConcat(a: seq<Seg>, b: seq<Seg>, v: int)
    ensures At(a + b, v) == if At(b, v).Some? then At(b, v) else At(a, v)
    decreases |b|
  {
    if b == [] {
      assert a + b == a;
    } else {
      assert (a + b)[..|a + b| - 1] == a + b[..|b| - 1];
      AtConcat(a, b[..|b| - 1], v);
    }
  }

  lemma {:induction false} AtSome(segs: seq<Seg>, v: int)
    ensures At(segs, v).Some? <==> exists i :: 0 <= i < |segs| && Holds(segs[i], v)
  {
    if segs != [] {
      var n := |segs| - 1;
      AtSome(segs[..n], v);
      if At(segs[..n], v).Some? {
        var i :| 0 <= i < n && Holds(segs[..n][i], v);
        assert Holds(segs[i], v);
      }
      if exists i :: 0 <= i < |segs| && Holds(segs[i], v) {
        var i :| 0 <= i < |segs| && Holds(segs[i], v);
        if i < n { assert Holds(segs[..n][i], v); }
      }
    }
  }

  /** No later and no earlier segment holds a page of segment `i`. */
  lemma NotAfter(segs: seq<Seg>, i: nat, v: int)
    requires Sorted(segs) && i < |segs| && Holds(segs[i], v)
    ensures At(segs[i + 1..], v) == None && At(segs[..i], v) == None
  {
    var a, b := segs[..i], segs[i + 1..];
    AtSome(a, v);
    AtSome(b, v);
    forall j | 0 <= j < |b| ensures !Holds(b[j], v) { assert b[j] == segs[i + 1 + j]; }
    forall j | 0 <= j < |a| ensures !Holds(a[j], v) { assert a[j] == segs[j]; }
  }

  /** In a sorted sequence the page map is read off the one segment that holds the page. */
  lemma AtIndex(segs: seq<Seg>, i: nat, v: int)
    requires Sorted(segs) && i < |segs| && Holds(segs[i], v)
    ensures At(segs, v) == Some(InfoAt(segs[i], v))
  {
    var a, b := segs[..i], segs[i + 1..];
    assert segs == a + [segs[i]] + b;
    AtConcat(a + [segs[i]], b, v);
    AtConcat(a, [segs[i]], v);
    NotAfter(segs, i, v);
    OneSeg(segs[i], v, Total);
  }

  // ---- sizes ----

  datatype Class = Total | Private | SharedClass | FileClass | Anon

  predicate Counts(g: Seg, c: Class) {
    match c
    case Total => true
    case Private => g.kind.isPrivate
    case SharedClass => !g.kind.isPrivate
    case FileClass => g.kind.file.Some?
    case Anon => g.kind.file.None?
  }

  function SizeOf(g: Seg, c: Class): int { if Counts(g, c) then g.end - g.start else 0 }

  function Sum(segs: seq<Seg>, c: Class): int {
    if segs == [] then 0 else Sum(segs[..|segs| - 1], c) + SizeOf(segs[|segs| - 1], c)
  }

  lemma {:induction false} SumConcat(a: seq<Seg>, b: seq<Seg>, c: Class)
    ensures Sum(a + b, c) == Sum(a, c) + Sum(b, c)
    decreases |b|
  {
    if b == [] {
      assert a + b == a;
    } else {
      assert (a + b)[..|a + b| - 1] == a + b[..|b| - 1];
      SumConcat(a, b[..|b| - 1], c);
    }
  }

  // ---- replacing one segment by several ----

  /** Segments `i` replaced by `with`. */
  function Splice(segs: seq<Seg>, i: nat, with: seq<Seg>): seq<Seg>
    requires i < |segs|
  {
    segs[..i] + with + segs[i + 1..]
  }

  ghost predicate Within(with: seq<Seg>, g: Seg) {
    forall j :: 0 <= j < |with| ==> g.start <= with[j].start && with[j].end <= g.end
  }

  lemma SpliceView(segs: seq<Seg>, i: nat, with: seq<Seg>, v: int)
    requires Sorted(segs) && i < |segs| && Within(with, segs[i])
    ensures At(Splice(segs, i, with), v) == if Holds(segs[i], v) then At(with, v) else At(segs, v)
  {
    hide At, Sorted;
    var a, g, b := segs[..i], segs[i], segs[i + 1..];
    assert segs == a + [g] + b;
    AtConcat(a + [g], b, v);
    AtConcat(a, [g], v);
    AtConcat(a + with, b, v);
    AtConcat(a, with, v);
    OneSeg(g, v, Total);
    if Holds(g, v) { NotAfter(segs, i, v); } else { AtSome(with, v); }
  }

  lemma SpliceSum(segs: seq<Seg>, i: nat, with: seq<Seg>, c: Class)
    requires i < |segs|
    ensures Sum(Splice(segs, i, with), c) == Sum(segs, c) - SizeOf(segs[i], c) + Sum(with, c)
  {
    hide Sum;
    var a, g, b := segs[..i], segs[i], segs[i + 1..];
    assert segs == a + [g] + b;
    SumConcat(a + [g], b, c);
    SumConcat(a, [g], c);
    SumConcat(a + with, b, c);
    SumConcat(a, with, c);
    OneSeg(g, 0, c);
  }

  lemma SpliceSorted(segs: seq<Seg>, i: nat, with: seq<Seg>)
    requires Sorted(segs) && i < |segs| && Sorted(with) && Within(with, segs[i])
    ensures Sorted(Splice(segs, i, with))
  {
    var r, n := Splice(segs, i, with), |with|;
    forall j | 0 <= j < |r| ensures r[j] == if j < i then segs[j] else if j < i + n then with[j - i] else segs[j - n + 1] { }
  }

  lemma OneSeg(g: Seg, v: int, c: Class)
    ensures At([g], v) == if Holds(g, v) then Some(InfoAt(g, v)) else None
    ensures Sum([g], c) == SizeOf(g, c)
  {
    assert [g][..0] == [];
  }

  lemma TwoSegs(g: Seg, h: Seg, v: int, c: Class)
    ensures At([g, h], v) == if Holds(h, v) then Some(InfoAt(h, v)) else if Holds(g, v) then Some(InfoAt(g, v)) else None
    ensures Sum([g, h], c) == SizeOf(g, c) + SizeOf(h, c)
  {
    assert [g, h][..1] == [g];
    OneSeg(g, v, c);
  }

  // ---- split ----

  function LeftOf(g: Seg, cut: int): Seg { g.(end := cut) }

  function RightOf(g: Seg, cut: int): Seg { g.(start := cut, offset := g.offset + (cut - g.start)) }

  /** Splitting a segment changes neither the page map nor any size. */
  lemma SplitSame(segs: seq<Seg>, i: nat, cut: int)
    requires Sorted(segs) && i < |segs| && segs[i].start < cut < segs[i].end
    ensures var r := Splice(segs, i, [LeftOf(segs[i], cut), RightOf(segs[i], cut)]);
      Sorted(r) && (forall v :: At(r, v) == At(segs, v)) && forall c :: Sum(r, c) == Sum(segs, c)
  {
    hide At, Sum, Splice;
    var g := segs[i];
    var two := [LeftOf(g, cut), RightOf(g, cut)];
    var r := Splice(segs, i, two);
    SpliceSorted(segs, i, two);
    forall v ensures At(r, v) == At(segs, v) {
      SpliceView(segs, i, two, v);
      TwoSegs(two[0], two[1], v, Total);
      if Holds(g, v) { AtIndex(segs, i, v); }
    }
    forall c ensures Sum(r, c) == Sum(segs, c) {
      SpliceSum(segs, i, two, c);
      TwoSegs(two[0], two[1], 0, c);
    }
  }

  // ---- what unmapping and protecting a range leave ----

  predicate Apart(g: Seg, start: int, end: int) { g.end <= start || g.start >= end }

  /** The parts of a segment before and after the range. */
  function Before(g: Seg, start: int): seq<Seg> { if g.start < start then [LeftOf(g, start)] else [] }

  function After(g: Seg, end: int): seq<Seg> { if end < g.end then [RightOf(g, end)] else [] }

  /** The part of a segment inside the range. */
  function Middle(g: Seg, start: int, end: int): Seg {
    var h := if g.start < start then RightOf(g, start) else g;
    if end < h.end then LeftOf(h, end) else h
  }

  function CarveOne(g: Seg, start: int, end: int): seq<Seg> {
    if Apart(g, start, end) then [g] else Before(g, start) + After(g, end)
  }

  function ReprotOne(g: Seg, start: int, end: int, prot: Prot): seq<Seg> {
    if Apart(g, start, end) then [g]
    else Before(g, start) + [Middle(g, start, end).(prot := prot)] + After(g, end)
  }

  /** The segments left by unmapping [start, end). */
  function Carve(segs: seq<Seg>, start: int, end: int): seq<Seg> {
    if segs == [] then [] else Carve(segs[..|segs| - 1], start, end) + CarveOne(segs[|segs| - 1], start, end)
  }

  /** The segments after protecting [start, end). */
  function Reprot(segs: seq<Seg>, start: int, end: int, prot: Prot): seq<Seg> {
    if segs == [] then []
    else Reprot(segs[..|segs| - 1], start, end, prot) + ReprotOne(segs[|segs| - 1], start, end, prot)
  }

  lemma CarveOneView(g: Seg, start: int, end: int, v: int)
    requires g.start < g.end && start <= end
    ensures At(CarveOne(g, start, end), v) == if Holds(g, v) && !(start <= v < end) then Some(InfoAt(g, v)) else None
  {
    OneSeg(g, v, Total);
    if !Apart(g, start, end) {
      AtConcat(Before(g, start), After(g, end), v);
      if g.start < start { OneSeg(LeftOf(g, start), v, Total); }
      if end < g.end { OneSeg(RightOf(g, end), v, Total); }
    }
  }

  lemma ReprotOneView(g: Seg, start: int, end: int, prot: Prot, v: int)
    requires g.start < g.end && start < end
    ensures At(ReprotOne(g, start, end, prot), v) ==
            if !Holds(g, v) then None
            else if start <= v < end then Some(InfoAt(g, v).(prot := prot)) else Some(InfoAt(g, v))
  {
    OneSeg(g, v, Total);
    if !Apart(g, start, end) {
      var m := Middle(g, start, end).(prot := prot);
      AtConcat(Before(g, start) + [m], After(g, end), v);
      AtConcat(Before(g, start), [m], v);
      OneSeg(m, v, Total);
      if g.start < start { OneSeg(LeftOf(g, start), v, Total); }
      if end < g.end { OneSeg(RightOf(g, end), v, Total); }
    }
  }

  ghost predicate NonEmpty(segs: seq<Seg>) { forall i :: 0 <= i < |segs| ==> segs[i].start < segs[i].end }

  /** Unmapping removes exactly the pages of the range. */
  lemma {:induction false} CarveView(segs: seq<Seg>, start: int, end: int, v: int)
    requires NonEmpty(segs) && start <= end
    ensures At(Carve(segs, start, end), v) == if start <= v < end then None else At(segs, v)
  {
    if segs != [] {
      var n := |segs| - 1;
      CarveView(segs[..n], start, end, v);
      CarveOneView(segs[n], start, end, v);
      AtConcat(Carve(segs[..n], start, end), CarveOne(segs[n], start, end), v);
    }
  }

  /** Protecting rewrites the protection of exactly the mapped pages of the range. */
  lemma {:induction false} ReprotView(segs: seq<Seg>, start: int, end: int, prot: Prot, v: int)
    requires NonEmpty(segs) && start < end
    ensures At(Reprot(segs, start, end, prot), v) ==
            if start <= v < end && At(segs, v).Some? then Some(At(segs, v).value.(prot := prot)) else At(segs, v)
  {
    if segs != [] {
      var n := |segs| - 1;
      ReprotView(segs[..n], start, end, prot, v);
      ReprotOneView(segs[n], start, end, prot, v);
      AtConcat(Reprot(segs[..n], start, end, prot), ReprotOne(segs[n], start, end, prot), v);
    }
  }

  lemma {:induction false} CarveApart(segs: seq<Seg>, start: int, end: int)
    requires forall i :: 0 <= i < |segs| ==> Apart(segs[i], start, end)
    ensures Carve(segs, start, end) == segs
  {
    if segs != [] { CarveApart(segs[..|segs| - 1], start, end); }
  }

  lemma {:induction false} CarveConcat(a: seq<Seg>, b: seq<Seg>, start: int, end: int)
    ensures Carve(a + b, start, end) == Carve(a, start, end) + Carve(b, start, end)
    decreases |b|
  {
    hide CarveOne;
    if b == [] {
      assert a + b == a;
    } else {
      assert (a + b)[..|a + b| - 1] == a + b[..|b| - 1] && (a + b)[|a + b| - 1] == b[|b| - 1];
      CarveConcat(a, b[..|b| - 1], start, end);
    }
  }

  lemma {:induction false} ReprotApart(segs: seq<Seg>, start: int, end: int, prot: Prot)
    requires forall i :: 0 <= i < |segs| ==> Apart(segs[i], start, end)
    ensures Reprot(segs, start, end, prot) == segs
  {
    if segs != [] { ReprotApart(segs[..|segs| - 1], start, end, prot); }
  }

  lemma {:induction false} ReprotConcat(a: seq<Seg>, b: seq<Seg>, start: int, end: int, prot: Prot)
    ensures Reprot(a + b, start, end, prot) == Reprot(a, start, end, prot) + Reprot(b, start, end, prot)
    decreases |b|
  {
    hide ReprotOne;
    if b == [] {
      assert a + b == a;
    } else {
      assert (a + b)[..|a + b| - 1] == a + b[..|b| - 1] && (a + b)[|a + b| - 1] == b[|b| - 1];
      ReprotConcat(a, b[..|b| - 1], start, end, prot);
    }
  }
}
