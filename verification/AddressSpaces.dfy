/** Whole system operations on copy-on-write memory, as loops over page ranges, and the refinement
    over every run: each address space sees exactly what it would see if fork copied every page. */
module AddressSpaces {
  import opened CopyOnWrite

  // ---- ranges ----

  ghost function RangeKeys(space: int, start: int, n: nat): set<Key> {
    if n == 0 then {} else RangeKeys(space, start, n - 1) + {Key(space, start + n - 1)}
  }

  predicate InRange(k: Key, space: int, start: int, n: nat) { k.space == space && start <= k.page < start + n }

  lemma {:induction false} RangeIsInRange(space: int, start: int, n: nat)
    ensures forall k :: k in RangeKeys(space, start, n) <==> InRange(k, space, start, n)
  {
    if n > 0 { RangeIsInRange(space, start, n - 1); }
  }

  /** The loops skip entries that are not present. */
  predicate Present(s: State, k: Key) { k in s.pt && HasFrame(s, s.pt[k].frame) }

  lemma InvPresent(s: State, pending: set<Key>, k: Key)
    requires InvBut(s, pending) && k in s.pt
    ensures Present(s, k)
  {
  }

  // ---- chprot and unmap over a range ----

  function ChprotRange(s: State, space: int, start: int, n: nat, prot: Prot): State {
    if n == 0 then s
    else
      var t, k := ChprotRange(s, space, start, n - 1, prot), Key(space, start + n - 1);
      if Present(t, k) then ChprotOne(t, k, prot) else t
  }

  function UnmapRange(s: State, space: int, start: int, n: nat): State {
    if n == 0 then s
    else
      var t, k := UnmapRange(s, space, start, n - 1), Key(space, start + n - 1);
      if Present(t, k) then UnmapOne(t, k) else t
  }

  ghost function EagerChprotRange(a: Eager, space: int, start: int, n: nat, prot: Prot): Eager {
    Eager(map k | k in a.pt :: if InRange(k, space, start, n) then a.pt[k].(prot := prot) else a.pt[k], a.objects)
  }

  ghost function EagerUnmapRange(a: Eager, space: int, start: int, n: nat): Eager {
    EagerCollect(Eager(map k | k in a.pt && !InRange(k, space, start, n) :: a.pt[k], a.objects))
  }

  lemma {:induction false} ChprotRangeKeeps(s: State, space: int, start: int, n: nat, prot: Prot)
    requires Inv(s)
    ensures Inv(ChprotRange(s, space, start, n, prot))
    ensures View(ChprotRange(s, space, start, n, prot)) == EagerChprotRange(View(s), space, start, n, prot)
  {
    hide InvBut, View;
    var a := View(s);
    if n == 0 {
      assert EagerChprotRange(a, space, start, 0, prot).pt == a.pt;
    } else {
      ChprotRangeKeeps(s, space, start, n - 1, prot);
      var t, k := ChprotRange(s, space, start, n - 1, prot), Key(space, start + n - 1);
      ViewKeys(t);
      if k in t.pt {
        InvPresent(t, {}, k);
        ChprotKeeps(t, k, prot);
      }
      assert View(ChprotRange(s, space, start, n, prot)).pt == EagerChprotRange(a, space, start, n, prot).pt;
    }
  }

  lemma ViewKeys(s: State)
    ensures View(s).pt.Keys == s.pt.Keys
  {
  }

  /** An unreferenced object collected early or late is collected all the same. */
  lemma CollectStep(a: Eager, space: int, start: int, n: nat)
    ensures var k := Key(space, start + n); var u := EagerUnmapRange(a, space, start, n);
            EagerUnmapRange(a, space, start, n + 1) == if k in u.pt then EagerUnmap(u, k) else u
  {
    var k, u, v := Key(space, start + n), EagerUnmapRange(a, space, start, n), EagerUnmapRange(a, space, start, n + 1);
    assert v.pt == u.pt - {k};
    if k !in u.pt {
      assert v.pt == u.pt;
    } else {
      var w := EagerUnmap(u, k);
      forall f | f in EagerUsed(v.pt) ensures f in EagerUsed(u.pt) {
        var l :| l in v.pt && v.pt[l].Shared? && v.pt[l].obj == f;
        assert l in u.pt && u.pt[l] == v.pt[l];
      }
      assert w.objects == v.objects;
    }
  }

  lemma {:induction false} UnmapRangeKeeps(s: State, space: int, start: int, n: nat)
    requires Inv(s)
    ensures Inv(UnmapRange(s, space, start, n))
    ensures View(UnmapRange(s, space, start, n)) == EagerUnmapRange(View(s), space, start, n)
  {
    hide InvBut, View, EagerUnmapRange, EagerUnmap;
    if n == 0 {
      CollectNothing(s, space, start);
    } else {
      UnmapRangeKeeps(s, space, start, n - 1);
      var t, k := UnmapRange(s, space, start, n - 1), Key(space, start + n - 1);
      ViewKeys(t);
      if k in t.pt {
        InvPresent(t, {}, k);
        UnmapKeeps(t, k);
      }
      CollectStep(View(s), space, start, n - 1);
    }
  }

  /** Every object of a view is in use. */
  lemma CollectNothing(s: State, space: int, start: int)
    ensures EagerUnmapRange(View(s), space, start, 0) == View(s)
  {
    var a := View(s);
    var u := EagerUnmapRange(a, space, start, 0);
    assert u.pt == a.pt;
    forall f | f in a.objects ensures f in EagerUsed(a.pt) {
      var l :| l in s.pt && !s.pt[l].isPrivate && s.pt[l].frame == f;
      assert l in a.pt && a.pt[l] == Shared(f, s.pt[l].prot);
    }
    assert u.objects == a.objects;
  }

  // ---- map over a range ----

  function MapZeroRange(s: State, space: int, start: int, n: nat, prot: Prot): State {
    if n == 0 then s
    else
      var t := MapZeroRange(s, space, start, n - 1, prot);
      if HasFrame(t, t.zero) then MapZeroOne(t, Key(space, start + n - 1), prot) else t
  }

  /** pmm_get_zero_page leaves one reference behind for each mapping call. */
  function PinZero(s: State): State
    requires HasFrame(s, s.zero)
  {
    AddRef(s, s.zero, 1).(pins := s.pins[s.zero := s.pins[s.zero] + 1])
  }

  function MapPrivate(s: State, space: int, start: int, n: nat, prot: Prot): State {
    var t := UnmapRange(s, space, start, n);
    if HasFrame(t, t.zero) then MapZeroRange(PinZero(t), space, start, n, prot) else t
  }

  function MapShared(s: State, space: int, start: int, frames: seq<Frame>, prot: Prot): State {
    if frames == [] then s
    else
      var n := |frames| - 1;
      MapSharedOne(MapShared(s, space, start, frames[..n], prot), Key(space, start + n), prot, frames[n])
  }

  ghost function EagerMapRange(a: Eager, space: int, start: int, n: nat, prot: Prot): Eager {
    Eager(map k | k in a.pt.Keys + RangeKeys(space, start, n) ::
            if k in RangeKeys(space, start, n) then Own(Zeros(), prot) else a.pt[k], a.objects)
  }

  ghost function EagerMapShared(a: Eager, space: int, start: int, frames: seq<Frame>, prot: Prot): Eager {
    if frames == [] then a
    else
      var n := |frames| - 1;
      var b := EagerMapShared(a, space, start, frames[..n], prot);
      Eager(b.pt[Key(space, start + n) := Shared(frames[n], prot)], b.objects[frames[n] := Zeros()])
  }

  lemma PinZeroKeeps(s: State)
    requires Inv(s)
    ensures HasFrame(s, s.zero) && Inv(PinZero(s)) && View(PinZero(s)) == View(s) && PinZero(s).pt == s.pt
  {
    hide Maps, View;
    var s' := PinZero(s);
    forall k | k in s.pt && s.pt[k].isPrivate && s.pt[k].writable ensures s.pt[k].frame != s.zero {
      ZeroNotStored(s, k);
    }
    PinView(s, s');
  }

  lemma PinView(s: State, s': State)
    requires s'.mem == s.mem && s'.pt == s.pt
    ensures View(s') == View(s)
  {
  }

  lemma EagerMapStep(a: Eager, space: int, start: int, n: nat, prot: Prot)
    ensures var b := EagerMapRange(a, space, start, n, prot);
            EagerMapRange(a, space, start, n + 1, prot) ==
              b.(pt := b.pt[Key(space, start + n) := Own(Zeros(), prot)])
    ensures EagerMapRange(a, space, start, 0, prot) == a
    ensures EagerMapRange(a, space, start, n, prot).pt.Keys == a.pt.Keys + RangeKeys(space, start, n)
  {
    hide Zeros;
    var b, c := EagerMapRange(a, space, start, n, prot), EagerMapRange(a, space, start, n + 1, prot);
    assert RangeKeys(space, start, n + 1) == RangeKeys(space, start, n) + {Key(space, start + n)};
    assert c.pt == b.pt[Key(space, start + n) := Own(Zeros(), prot)];
    assert EagerMapRange(a, space, start, 0, prot).pt == a.pt;
  }

  lemma {:induction false} MapZeroRangeKeeps(s: State, space: int, start: int, n: nat, prot: Prot)
    requires Inv(s) && forall k :: InRange(k, space, start, n) ==> k !in s.pt
    ensures Inv(MapZeroRange(s, space, start, n, prot))
    ensures View(MapZeroRange(s, space, start, n, prot)) == EagerMapRange(View(s), space, start, n, prot)
  {
    hide InvBut, View, EagerMapRange, Zeros, MapZeroOne;
    EagerMapStep(View(s), space, start, if n == 0 then 0 else n - 1, prot);
    if n > 0 {
      MapZeroRangeKeeps(s, space, start, n - 1, prot);
      var t, k := MapZeroRange(s, space, start, n - 1, prot), Key(space, start + n - 1);
      ViewKeys(s);
      ViewKeys(t);
      RangeIsInRange(space, start, n - 1);
      ZeroPresent(t);
      MapZeroKeeps(t, k, prot);
    }
  }

  lemma ZeroPresent(s: State)
    requires Inv(s)
    ensures HasFrame(s, s.zero)
  {
  }

  /** A fixed private mapping replaces whatever was in the range by zeros. */
  lemma MapPrivateKeeps(s: State, space: int, start: int, n: nat, prot: Prot)
    requires Inv(s)
    ensures Inv(MapPrivate(s, space, start, n, prot))
    ensures View(MapPrivate(s, space, start, n, prot)) ==
            EagerMapRange(EagerUnmapRange(View(s), space, start, n), space, start, n, prot)
  {
    hide InvBut, View, EagerMapRange;
    UnmapRangeKeeps(s, space, start, n);
    var t := UnmapRange(s, space, start, n);
    PinZeroKeeps(t);
    ViewKeys(t);
    MapZeroRangeKeeps(PinZero(t), space, start, n, prot);
  }

  ghost predicate Spares(s: State, frames: seq<Frame>) {
    && (forall i :: 0 <= i < |frames| ==> IsFree(s, frames[i]))
    && forall i, j :: 0 <= i < j < |frames| ==> frames[i] != frames[j]
  }

  lemma {:induction false} MapSharedRangeKeeps(s: State, space: int, start: int, frames: seq<Frame>, prot: Prot)
    requires Inv(s) && Spares(s, frames) && forall k :: InRange(k, space, start, |frames|) ==> k !in s.pt
    ensures Inv(MapShared(s, space, start, frames, prot))
    ensures View(MapShared(s, space, start, frames, prot)) == EagerMapShared(View(s), space, start, frames, prot)
    ensures forall k :: k in MapShared(s, space, start, frames, prot).pt ==> k in s.pt || InRange(k, space, start, |frames|)
    ensures forall f :: IsFree(s, f) && f !in frames ==> IsFree(MapShared(s, space, start, frames, prot), f)
  {
    hide InvBut, View;
    if frames != [] {
      var n := |frames| - 1;
      MapSharedRangeKeeps(s, space, start, frames[..n], prot);
      MapSharedKeeps(MapShared(s, space, start, frames[..n], prot), Key(space, start + n), prot, frames[n]);
    }
  }

  // ---- fork ----

  /** vmm_clone_seg, first loop over the pages of one segment. */
  function ShareSeg(s: State, p: int, c: int, pages: seq<int>): State {
    if pages == [] then s
    else
      var n := |pages| - 1;
      var t := ShareSeg(s, p, c, pages[..n]);
      if Present(t, Key(p, pages[n])) then ShareOne(t, Key(p, pages[n]), Key(c, pages[n])) else t
  }

  /** vmm_clone_seg, second loop. */
  function ProtectSeg(s: State, p: int, pages: seq<int>): State {
    if pages == [] then s
    else
      var n := |pages| - 1;
      var t := ProtectSeg(s, p, pages[..n]);
      if Present(t, Key(p, pages[n])) then ProtectOne(t, Key(p, pages[n])) else t
  }

  function ForkSeg(s: State, p: int, c: int, pages: seq<int>): State {
    ProtectSeg(ShareSeg(s, p, c, pages), p, pages)
  }

  /** vmm_clone: one segment after the other. */
  function Fork(s: State, p: int, c: int, segs: seq<seq<int>>): State {
    if segs == [] then s
    else ForkSeg(Fork(s, p, c, segs[..|segs| - 1]), p, c, segs[|segs| - 1])
  }

  ghost function SegKeys(space: int, pages: seq<int>): set<Key> {
    if pages == [] then {}
    else SegKeys(space, pages[..|pages| - 1]) + {Key(space, pages[|pages| - 1])}
  }

  ghost function PagesOf(pages: seq<int>): set<int> { set v | v in pages }

  ghost function AllPages(segs: seq<seq<int>>): set<int> {
    set seg, v | seg in segs && v in seg :: v
  }

  /** A copy of every listed page of `p` for `c`. */
  ghost function EagerFork(a: Eager, p: int, c: int, pages: set<int>): Eager {
    Eager(map k | k in a.pt.Keys + (set v | v in pages && Key(p, v) in a.pt :: Key(c, v)) ::
            if k.space == c && k.page in pages && Key(p, k.page) in a.pt then a.pt[Key(p, k.page)] else a.pt[k],
          a.objects)
  }

  lemma EagerForkKeys(a: Eager, p: int, c: int, pages: set<int>)
    requires p != c
    ensures forall k :: k in EagerFork(a, p, c, pages).pt <==>
              k in a.pt || (k.space == c && k.page in pages && Key(p, k.page) in a.pt)
    ensures forall k :: k in a.pt && k.space != c ==> EagerFork(a, p, c, pages).pt[k] == a.pt[k]
  {
    var b := EagerFork(a, p, c, pages);
    forall k ensures k in b.pt <==> k in a.pt || (k.space == c && k.page in pages && Key(p, k.page) in a.pt) {
      if k.space == c && k.page in pages && Key(p, k.page) in a.pt {
        assert k == Key(c, k.page);
      }
    }
  }

  lemma EagerForkStep(a: Eager, p: int, c: int, pages: set<int>, v: int)
    requires p != c
    ensures var b := EagerFork(a, p, c, pages);
            EagerFork(a, p, c, pages + {v}) ==
              if Key(p, v) in b.pt then b.(pt := b.pt[Key(c, v) := b.pt[Key(p, v)]]) else b
  {
    var b, d := EagerFork(a, p, c, pages), EagerFork(a, p, c, pages + {v});
    EagerForkKeys(a, p, c, pages);
    EagerForkKeys(a, p, c, pages + {v});
    if Key(p, v) in b.pt {
      assert d.pt == b.pt[Key(c, v) := b.pt[Key(p, v)]];
    } else {
      assert d.pt == b.pt;
    }
  }

  lemma EagerForkNone(a: Eager, p: int, c: int)
    requires p != c
    ensures EagerFork(a, p, c, {}) == a
  {
    EagerForkKeys(a, p, c, {});
    assert EagerFork(a, p, c, {}).pt == a.pt;
  }

  lemma EagerForkTwice(a: Eager, p: int, c: int, x: set<int>, y: set<int>)
    requires p != c
    ensures EagerFork(EagerFork(a, p, c, x), p, c, y) == EagerFork(a, p, c, x + y)
  {
    var b := EagerFork(a, p, c, x);
    EagerForkKeys(a, p, c, x);
    EagerForkKeys(b, p, c, y);
    EagerForkKeys(a, p, c, x + y);
    assert EagerFork(b, p, c, y).pt == EagerFork(a, p, c, x + y).pt;
  }

  ghost predicate NoDup(pages: seq<int>) { forall i, j :: 0 <= i < j < |pages| ==> pages[i] != pages[j] }

  lemma {:induction false} ShareSegKeeps(s: State, p: int, c: int, pages: seq<int>)
    requires Inv(s) && p != c && NoDup(pages) && forall v :: v in pages ==> Key(c, v) !in s.pt
    ensures InvBut(ShareSeg(s, p, c, pages), SegKeys(p, pages))
    ensures View(ShareSeg(s, p, c, pages)) == EagerFork(View(s), p, c, PagesOf(pages))
  {
    hide InvBut, View, EagerFork;
    if pages == [] {
      EagerForkNone(View(s), p, c);
      assert PagesOf(pages) == {};
    } else {
      var n := |pages| - 1;
      var t, v := ShareSeg(s, p, c, pages[..n]), pages[n];
      ShareSegKeeps(s, p, c, pages[..n]);
      assert PagesOf(pages) == PagesOf(pages[..n]) + {v};
      EagerForkStep(View(s), p, c, PagesOf(pages[..n]), v);
      EagerForkKeys(View(s), p, c, PagesOf(pages[..n]));
      ViewKeys(s);
      ViewKeys(t);
      if Key(p, v) in t.pt {
        InvPresent(t, SegKeys(p, pages[..n]), Key(p, v));
        ShareKeeps(t, SegKeys(p, pages[..n]), Key(p, v), Key(c, v));
      } else {
        MorePending(t, SegKeys(p, pages[..n]), SegKeys(p, pages));
      }
    }
  }

  lemma MorePending(s: State, a: set<Key>, b: set<Key>)
    requires InvBut(s, a) && forall k :: k in a && k in s.pt ==> k in b
    ensures InvBut(s, b)
  {
  }

  lemma {:induction false} ProtectSegKeeps(s: State, p: int, pages: seq<int>, pending: set<Key>)
    requires InvBut(s, pending)
    ensures InvBut(ProtectSeg(s, p, pages), pending - SegKeys(p, pages))
    ensures View(ProtectSeg(s, p, pages)) == View(s)
  {
    hide InvBut, View;
    if pages == [] {
      assert pending - SegKeys(p, pages) == pending;
    } else {
      var n := |pages| - 1;
      var t, k := ProtectSeg(s, p, pages[..n]), Key(p, pages[n]);
      ProtectSegKeeps(s, p, pages[..n], pending);
      var left := pending - SegKeys(p, pages[..n]);
      assert pending - SegKeys(p, pages) == left - {k};
      if k in t.pt {
        InvPresent(t, left, k);
        ProtectKeeps(t, left, k);
      } else {
        MorePending(t, left, left - {k});
      }
    }
  }

  lemma ForkSegKeeps(s: State, p: int, c: int, pages: seq<int>)
    requires Inv(s) && p != c && NoDup(pages) && forall v :: v in pages ==> Key(c, v) !in s.pt
    ensures Inv(ForkSeg(s, p, c, pages))
    ensures View(ForkSeg(s, p, c, pages)) == EagerFork(View(s), p, c, PagesOf(pages))
  {
    hide InvBut, View, EagerFork;
    ShareSegKeeps(s, p, c, pages);
    ProtectSegKeeps(ShareSeg(s, p, c, pages), p, pages, SegKeys(p, pages));
    assert SegKeys(p, pages) - SegKeys(p, pages) == {};
  }

  ghost predicate DisjointSegs(segs: seq<seq<int>>) {
    && (forall i :: 0 <= i < |segs| ==> NoDup(segs[i]))
    && forall i, j, v :: 0 <= i < j < |segs| && v in segs[i] ==> v !in segs[j]
  }

  lemma {:induction false} ForkKeeps(s: State, p: int, c: int, segs: seq<seq<int>>)
    requires Inv(s) && p != c && DisjointSegs(segs) && forall k :: k in s.pt ==> k.space != c
    ensures Inv(Fork(s, p, c, segs)) && View(Fork(s, p, c, segs)) == EagerFork(View(s), p, c, AllPages(segs))
  {
    hide InvBut, View, EagerFork, ForkSeg;
    if segs == [] {
      EagerForkNone(View(s), p, c);
      assert AllPages(segs) == {};
    } else {
      var n := |segs| - 1;
      var t, seg := Fork(s, p, c, segs[..n]), segs[n];
      ForkKeeps(s, p, c, segs[..n]);
      EagerForkKeys(View(s), p, c, AllPages(segs[..n]));
      ViewKeys(s);
      ViewKeys(t);
      forall v | v in seg ensures Key(c, v) !in t.pt && v !in AllPages(segs[..n]) { }
      ForkSegKeeps(t, p, c, seg);
      EagerForkTwice(View(s), p, c, AllPages(segs[..n]), PagesOf(seg));
      AllPagesSplit(segs);
    }
  }

  lemma AllPagesSplit(segs: seq<seq<int>>)
    requires segs != []
    ensures AllPages(segs) == AllPages(segs[..|segs| - 1]) + PagesOf(segs[|segs| - 1])
  {
    var n := |segs| - 1;
    forall v ensures v in AllPages(segs) <==> v in AllPages(segs[..n]) + PagesOf(segs[n]) {
      if v in AllPages(segs[..n]) {
        var g :| g in segs[..n] && v in g;
        assert g in segs;
      }
      if v in PagesOf(segs[n]) { assert segs[n] in segs && v in segs[n]; }
      if v in AllPages(segs) {
        var g :| g in segs && v in g;
        assert g in segs[..n] || g == segs[n];
      }
    }
  }

  // ---- a user store, with its write fault ----

  datatype Outcome = Done | Segv | Sigbus

  /** Copy-on-write cannot proceed: a shared frame and no memory. */
  predicate CowFails(s: State, k: Key, spare: Option<Frame>) {
    Present(s, k) && s.refs[s.pt[k].frame] > 1 && spare == None
  }

  /** The loop of vmm_handle_fault over the faulting page and the predicted pages after it. */
  function FaultRange(s: State, k: Key, spares: seq<Option<Frame>>): State
    decreases |spares|
  {
    if spares == [] || CowFails(s, k, spares[0]) then s
    else
      var t := if Present(s, k) then CowOne(s, k, spares[0]) else s;
      FaultRange(t, Key(k.space, k.page + 1), spares[1..])
  }

  /** A store: through the entry if it is writable, else after the fault handler. */
  function Write(s: State, k: Key, off: int, b: int, spares: seq<Option<Frame>>): (State, Outcome)
    requires 0 <= off < PAGE_SIZE
  {
    if !Present(s, k) then (s, Segv)
    else if s.pt[k].writable then (StoreAt(s, k, off, b), Done)
    else if !s.pt[k].prot.write then (s, Segv)
    else
      var t := FaultRange(s, k, spares);
      if Present(t, k) && t.pt[k].writable then (StoreAt(t, k, off, b), Done) else (t, Sigbus)
  }

  function StoreAt(s: State, k: Key, off: int, b: int): State
    requires Present(s, k)
  {
    if 0 <= off < |s.mem[s.pt[k].frame]| then StoreOne(s, k, off, b) else s
  }

  /** The predicted pages belong to the segment of the first one. */
  ghost predicate SameSegment(s: State, k: Key, n: nat) {
    k in s.pt && forall l :: l in s.pt && InRange(l, k.space, k.page, n) ==> s.pt[l].isPrivate && s.pt[l].prot.write
  }

  ghost predicate SparesOk(s: State, spares: seq<Option<Frame>>) {
    && (forall i :: 0 <= i < |spares| && spares[i].Some? ==> IsFree(s, spares[i].value))
    && forall i, j :: 0 <= i < j < |spares| && spares[i].Some? ==> spares[i] != spares[j]
  }

  lemma CowFrame(s: State, k: Key, spare: Option<Frame>)
    requires Inv(s) && k in s.pt && s.pt[k].isPrivate && s.pt[k].prot.write
    requires spare.Some? ==> IsFree(s, spare.value)
    ensures var t := CowOne(s, k, spare);
      && t.pt.Keys == s.pt.Keys
      && (forall l :: l in s.pt ==> t.pt[l].isPrivate == s.pt[l].isPrivate && t.pt[l].prot == s.pt[l].prot)
      && (forall l :: l in s.pt && s.pt[l].writable ==> t.pt[l].writable)
      && (forall f :: IsFree(s, f) && spare != Some(f) ==> IsFree(t, f))
  {
    hide Maps;
    forall f | IsFree(s, f) ensures s.pt[k].frame != f { FreeUnmapped(s, f, k); }
  }

  /** Handling a write fault, with any amount of prediction, is invisible. */
  lemma {:induction false} FaultRangeKeeps(s: State, k: Key, spares: seq<Option<Frame>>)
    requires Inv(s) && SparesOk(s, spares)
    requires forall l :: l in s.pt && InRange(l, k.space, k.page, |spares|) ==> s.pt[l].isPrivate && s.pt[l].prot.write
    ensures Inv(FaultRange(s, k, spares)) && View(FaultRange(s, k, spares)) == View(s)
    ensures FaultRange(s, k, spares).pt.Keys == s.pt.Keys
    ensures forall l :: l in s.pt && s.pt[l].writable ==> FaultRange(s, k, spares).pt[l].writable
    ensures spares != [] && k in s.pt && !CowFails(s, k, spares[0]) ==> FaultRange(s, k, spares).pt[k].writable
    decreases |spares|
  {
    hide InvBut, View, IsFree;
    if spares != [] && !CowFails(s, k, spares[0]) {
      var t := if Present(s, k) then CowOne(s, k, spares[0]) else s;
      if k in s.pt {
        InvPresent(s, {}, k);
        CowKeeps(s, k, spares[0]);
        CowFrame(s, k, spares[0]);
      }
      FaultRangeKeeps(t, Key(k.space, k.page + 1), spares[1..]);
    }
  }

  lemma StoreAtKeeps(s: State, k: Key, off: int, b: int)
    requires Inv(s) && k in s.pt && s.pt[k].writable && 0 <= off < PAGE_SIZE
    ensures Present(s, k) && Inv(StoreAt(s, k, off, b))
    ensures CanStore(View(s), k) && 0 <= off < |EagerBytes(View(s), k)|
    ensures View(StoreAt(s, k, off, b)) == EagerStore(View(s), k, off, b)
  {
    hide Maps, SharedFrames;
    InvPresent(s, {}, k);
    StoreKeeps(s, k, off, b);
  }

  ghost predicate CanStore(a: Eager, k: Key) {
    k in a.pt && a.pt[k].prot.write && (a.pt[k].Shared? ==> a.pt[k].obj in a.objects)
  }

  /** A store succeeds, faults or fails exactly as the eager machine says, except that it may run
      out of memory, in which case nothing changes. */
  lemma WriteKeeps(s: State, k: Key, off: int, b: int, spares: seq<Option<Frame>>)
    requires Inv(s) && 0 <= off < PAGE_SIZE && spares != [] && SparesOk(s, spares)
    requires k in s.pt && s.pt[k].isPrivate && s.pt[k].prot.write ==> SameSegment(s, k, |spares|)
    ensures var (t, r) := Write(s, k, off, b, spares);
      && Inv(t)
      && (r.Done? ==> CanStore(View(s), k) && 0 <= off < |EagerBytes(View(s), k)| && View(t) == EagerStore(View(s), k, off, b))
      && (!r.Done? ==> View(t) == View(s))
      && (r.Segv? <==> !(k in View(s).pt && View(s).pt[k].prot.write))
      && (r.Sigbus? ==> CowFails(s, k, spares[0]))
  {
    hide InvBut, SharedFrames, Maps, View, CowOne, FaultRange;
    ViewKeys(s);
    if k in s.pt {
      InvPresent(s, {}, k);
      ViewAt(s, k);
      WriteBits(s, k);
      if s.pt[k].writable {
        StoreAtKeeps(s, k, off, b);
      } else if s.pt[k].prot.write {
        FaultRangeKeeps(s, k, spares);
        var t := FaultRange(s, k, spares);
        InvPresent(t, {}, k);
        if t.pt[k].writable { StoreAtKeeps(t, k, off, b); }
      }
    }
  }

  lemma WriteBits(s: State, k: Key)
    requires Inv(s) && k in s.pt
    ensures s.pt[k].writable ==> s.pt[k].prot.write
    ensures !s.pt[k].writable && s.pt[k].prot.write ==> s.pt[k].isPrivate
  {
  }

  /** A load returns the eager machine's bytes. */
  lemma ReadSees(s: State, k: Key)
    requires Inv(s) && k in s.pt
    ensures s.pt[k].frame in s.mem && (View(s).pt[k].Shared? ==> View(s).pt[k].obj in View(s).objects)
    ensures s.mem[s.pt[k].frame] == EagerBytes(View(s), k)
  {
    if !s.pt[k].isPrivate { SharedIn(s.pt, k); }
  }

  // ---- what is copied, and when ----

  /** Something besides this page holds its frame: another page, or a pin. */
  ghost predicate Others(s: State, k: Key)
    requires k in s.pt
  {
    (s.pt[k].frame in s.pins && s.pins[s.pt[k].frame] > 0) || exists l :: l in s.pt && l != k && s.pt[l].frame == s.pt[k].frame
  }

  lemma OthersCounted(s: State, k: Key)
    requires Inv(s) && k in s.pt
    ensures Present(s, k) && (s.refs[s.pt[k].frame] > 1 <==> Others(s, k))
    ensures s.pt[k].isPrivate && s.pt[k].writable ==> !Others(s, k)
  {
    var f := s.pt[k].frame;
    var m := Maps(s.pt, f);
    assert k in m;
    assert |m - {k}| == |m| - 1;
    if Others(s, k) && s.pins[f] == 0 {
      var l :| l in s.pt && l != k && s.pt[l].frame == f;
      assert l in m - {k};
      assert m - {k} != {};
    }
    if s.refs[f] > 1 && s.pins[f] == 0 {
      assert |m - {k}| > 0;
      var l :| l in m - {k};
      assert l in s.pt && l != k && s.pt[l].frame == f;
    }
  }

  /** A fault touches no page outside its range. */
  lemma {:induction false} FaultOutside(s: State, k: Key, spares: seq<Option<Frame>>, l: Key)
    requires l in s.pt && !InRange(l, k.space, k.page, |spares|)
    ensures l in FaultRange(s, k, spares).pt && FaultRange(s, k, spares).pt[l] == s.pt[l]
    decreases |spares|
  {
    if spares != [] && !CowFails(s, k, spares[0]) {
      var t := if Present(s, k) then CowOne(s, k, spares[0]) else s;
      assert l != k && t.pt[l] == s.pt[l];
      FaultOutside(t, Key(k.space, k.page + 1), spares[1..], l);
    }
  }

  /** A store fails for lack of memory exactly if there is none and something else holds the frame; otherwise
      the page keeps its frame if nothing else does, and a private one gets the spare frame if something does. */
  lemma CopiesOnlyWhenHeld(s: State, k: Key, off: int, b: int, spares: seq<Option<Frame>>)
    requires Inv(s) && 0 <= off < PAGE_SIZE && spares != [] && SparesOk(s, spares) && k in s.pt
    requires s.pt[k].isPrivate && s.pt[k].prot.write ==> SameSegment(s, k, |spares|)
    ensures var (t, r) := Write(s, k, off, b, spares); var e := s.pt[k];
      && (r.Sigbus? <==> e.prot.write && e.isPrivate && Others(s, k) && spares[0] == None)
      && (r.Done? ==> k in t.pt && Some(t.pt[k].frame) == if e.isPrivate && Others(s, k) then spares[0] else Some(e.frame))
  {
    hide InvBut, Maps, View, Others, FaultRange;
    OthersCounted(s, k);
    WriteBits(s, k);
    if !s.pt[k].writable && s.pt[k].prot.write {
      FaultRangeKeeps(s, k, spares);
      FaultFirst(s, k, spares);
      InvPresent(FaultRange(s, k, spares), {}, k);
    }
  }

  lemma FaultFirst(s: State, k: Key, spares: seq<Option<Frame>>)
    requires spares != [] && Present(s, k) && !s.pt[k].writable
    ensures var t := FaultRange(s, k, spares);
      && k in t.pt && (t.pt[k].writable <==> !CowFails(s, k, spares[0]))
      && t.pt[k].frame == if s.refs[s.pt[k].frame] <= 1 || spares[0] == None then s.pt[k].frame else spares[0].value
  {
    if !CowFails(s, k, spares[0]) {
      FaultOutside(CowOne(s, k, spares[0]), Key(k.space, k.page + 1), spares[1..], k);
    }
  }

  /** Of the pages that `share` lists, the child has the parent's frame; no frame and no byte changes. */
  ghost predicate SharesFrames(s: State, t: State, p: int, c: int, pages: set<int>) {
    && t.mem == s.mem && t.refs.Keys == s.refs.Keys && t.pins == s.pins
    && (forall k :: k in s.pt && k.space == p ==> k in t.pt && t.pt[k].frame == s.pt[k].frame)
    && (forall v :: v in pages && Present(s, Key(p, v)) ==>
          Key(c, v) in t.pt && t.pt[Key(c, v)].frame == s.pt[Key(p, v)].frame)
  }

  lemma {:induction false} ShareSegShares(s: State, t: State, p: int, c: int, pages: seq<int>, done: set<int>)
    requires p != c && SharesFrames(s, t, p, c, done)
    ensures SharesFrames(s, ShareSeg(t, p, c, pages), p, c, done + PagesOf(pages))
  {
    if pages == [] {
      assert done + PagesOf(pages) == done;
    } else {
      var n := |pages| - 1;
      ShareSegShares(s, t, p, c, pages[..n], done);
      assert PagesOf(pages) == PagesOf(pages[..n]) + {pages[n]};
      assert pages[n] in PagesOf(pages);
    }
  }

  lemma {:induction false} ProtectSegShares(s: State, t: State, p: int, c: int, pages: seq<int>, done: set<int>)
    requires p != c && SharesFrames(s, t, p, c, done)
    ensures SharesFrames(s, ProtectSeg(t, p, pages), p, c, done)
  {
    if pages != [] { ProtectSegShares(s, t, p, c, pages[..|pages| - 1], done); }
  }

  /** Fork copies no byte: parent and child map the same frames. */
  lemma {:induction false} ForkCopiesNothing(s: State, p: int, c: int, segs: seq<seq<int>>)
    requires p != c
    ensures SharesFrames(s, Fork(s, p, c, segs), p, c, AllPages(segs))
  {
    hide SharesFrames;
    if segs == [] {
      SharesNothing(s, p, c);
      assert AllPages(segs) == {};
    } else {
      var n := |segs| - 1;
      ForkCopiesNothing(s, p, c, segs[..n]);
      AllPagesSplit(segs);
      var t := Fork(s, p, c, segs[..n]);
      ShareSegShares(s, t, p, c, segs[n], AllPages(segs[..n]));
      ProtectSegShares(s, ShareSeg(t, p, c, segs[n]), p, c, segs[n], AllPages(segs));
    }
  }

  lemma SharesNothing(s: State, p: int, c: int)
    ensures SharesFrames(s, s, p, c, {})
  {
  }

  /** Every byte of a new mapping reads as 0. */
  ghost predicate ReadsZero(s: State, k: Key) {
    && k in s.pt && s.pt[k].frame in s.mem && |s.mem[s.pt[k].frame]| == 4096
    && forall i :: 0 <= i < 4096 ==> s.mem[s.pt[k].frame][i] == 0
  }

  lemma NewPagesReadZero(s: State, space: int, start: int, n: nat, prot: Prot, k: Key)
    requires Inv(s) && InRange(k, space, start, n)
    ensures ReadsZero(MapPrivate(s, space, start, n, prot), k)
  {
    hide InvBut;
    var t := MapPrivate(s, space, start, n, prot);
    MapPrivateKeeps(s, space, start, n, prot);
    RangeIsInRange(space, start, n);
    ViewKeys(t);
    ReadSees(t, k);
  }

  lemma {:induction false} NewSharedReadZero(s: State, space: int, start: int, frames: seq<Frame>, prot: Prot, i: nat)
    requires Spares(s, frames) && i < |frames|
    ensures ReadsZero(MapShared(s, space, start, frames, prot), Key(space, start + i))
    ensures MapShared(s, space, start, frames, prot).pt[Key(space, start + i)].frame == frames[i]
    decreases |frames|
  {
    var n := |frames| - 1;
    if i < n { NewSharedReadZero(s, space, start, frames[..n], prot, i); }
  }

  // ---- runs ----

  datatype Op =
    | OpMap(space: int, start: int, n: nat, prot: Prot)
    | OpMapShared(space: int, start: int, frames: seq<Frame>, prot: Prot)
    | OpFork(parent: int, child: int, segs: seq<seq<int>>)
    | OpChprot(space: int, start: int, n: nat, prot: Prot)
    | OpUnmap(space: int, start: int, n: nat)
    | OpWrite(key: Key, off: int, byte: int, spares: seq<Option<Frame>>)

  /** What the callers and the page allocator guarantee: free distinct frames, a new empty child
      space, and for fork the pages of the parent listed segment by segment. */
  ghost predicate Enabled(s: State, op: Op) {
    match op
    case OpMap(_, _, _, _) => true
    case OpMapShared(space, start, frames, _) => Spares(UnmapRange(s, space, start, |frames|), frames)
    case OpFork(p, c, segs) =>
      && p != c && DisjointSegs(segs) && (forall k :: k in s.pt ==> k.space != c)
      && forall k :: k in s.pt && k.space == p ==> k.page in AllPages(segs)
    case OpChprot(_, _, _, _) => true
    case OpUnmap(_, _, _) => true
    case OpWrite(k, off, _, spares) =>
      && 0 <= off < PAGE_SIZE && spares != [] && SparesOk(s, spares)
      && (k in s.pt && s.pt[k].isPrivate && s.pt[k].prot.write ==> SameSegment(s, k, |spares|))
  }

  function Apply(s: State, op: Op): (State, Outcome) {
    match op
    case OpMap(space, start, n, prot) => (MapPrivate(s, space, start, n, prot), Done)
    case OpMapShared(space, start, frames, prot) =>
      (MapShared(UnmapRange(s, space, start, |frames|), space, start, frames, prot), Done)
    case OpFork(p, c, segs) => (Fork(s, p, c, segs), Done)
    case OpChprot(space, start, n, prot) => (ChprotRange(s, space, start, n, prot), Done)
    case OpUnmap(space, start, n) => (UnmapRange(s, space, start, n), Done)
    case OpWrite(k, off, b, spares) => if 0 <= off < PAGE_SIZE then Write(s, k, off, b, spares) else (s, Segv)
  }

  /** The eager machine; a store that runs out of memory (`failed`) changes nothing. */
  ghost function EagerApply(a: Eager, op: Op, failed: bool): Eager {
    match op
    case OpMap(space, start, n, prot) =>
      EagerMapRange(EagerUnmapRange(a, space, start, n), space, start, n, prot)
    case OpMapShared(space, start, frames, prot) =>
      EagerMapShared(EagerUnmapRange(a, space, start, |frames|), space, start, frames, prot)
    case OpFork(p, c, _) => EagerFork(a, p, c, set k | k in a.pt && k.space == p :: k.page)
    case OpChprot(space, start, n, prot) => EagerChprotRange(a, space, start, n, prot)
    case OpUnmap(space, start, n) => EagerUnmapRange(a, space, start, n)
    case OpWrite(k, off, b, _) =>
      if !failed && CanStore(a, k) && 0 <= off < |EagerBytes(a, k)| then EagerStore(a, k, off, b) else a
  }

  lemma ForkAll(a: Eager, p: int, c: int, pages: set<int>)
    requires p != c && forall k :: k in a.pt && k.space == p ==> k.page in pages
    ensures EagerFork(a, p, c, pages) == EagerFork(a, p, c, set k | k in a.pt && k.space == p :: k.page)
  {
    var all := set k | k in a.pt && k.space == p :: k.page;
    forall v | Key(p, v) in a.pt ensures v in all { assert Key(p, v).page == v; }
    EagerForkKeys(a, p, c, pages);
    EagerForkKeys(a, p, c, all);
    assert EagerFork(a, p, c, pages).pt == EagerFork(a, p, c, all).pt;
  }

  /** One operation refines its eager form. */
  lemma StepRefines(s: State, op: Op)
    requires Inv(s) && Enabled(s, op)
    ensures var (t, r) := Apply(s, op); Inv(t) && View(t) == EagerApply(View(s), op, r == Sigbus)
    ensures Apply(s, op).1 == Sigbus ==> op.OpWrite? && op.spares != [] && CowFails(s, op.key, op.spares[0])
  {
    hide InvBut, View, EagerFork, EagerMapRange, EagerMapShared, EagerChprotRange, EagerStore;
    ViewKeys(s);
    match op
    case OpMap(space, start, n, prot) => MapPrivateKeeps(s, space, start, n, prot);
    case OpMapShared(space, start, frames, prot) =>
      UnmapRangeKeeps(s, space, start, |frames|);
      ViewKeys(UnmapRange(s, space, start, |frames|));
      MapSharedRangeKeeps(UnmapRange(s, space, start, |frames|), space, start, frames, prot);
    case OpFork(p, c, segs) =>
      ForkKeeps(s, p, c, segs);
      ForkAll(View(s), p, c, AllPages(segs));
    case OpChprot(space, start, n, prot) => ChprotRangeKeeps(s, space, start, n, prot);
    case OpUnmap(space, start, n) => UnmapRangeKeeps(s, space, start, n);
    case OpWrite(k, off, b, spares) =>
      WriteKeeps(s, k, off, b, spares);
      ViewAtKey(s, k);
  }

  lemma ViewAtKey(s: State, k: Key)
    requires Inv(s)
    ensures CanStore(View(s), k) <==> k in View(s).pt && View(s).pt[k].prot.write
  {
    if k in s.pt { ReadSees(s, k); }
  }

  /** A machine that has booted: the zero page and nothing mapped. */
  ghost predicate Boot(s: State) {
    && s.pt == map[] && s.mem.Keys == s.refs.Keys == s.pins.Keys && s.refs == s.pins
    && (forall f :: f in s.mem ==> |s.mem[f]| == PAGE_SIZE && s.pins[f] >= 0)
    && s.zero in s.mem && s.mem[s.zero] == Zeros() && s.pins[s.zero] >= 1
  }

  ghost predicate IsRun(trace: seq<State>, ops: seq<Op>) {
    && |trace| == |ops| + 1 && Boot(trace[0])
    && forall i :: 0 <= i < |ops| ==> Enabled(trace[i], ops[i]) && trace[i + 1] == Apply(trace[i], ops[i]).0
  }

  /** The eager machine on the same operations, where `failed` marks stores without memory. */
  ghost function EagerRun(a: Eager, ops: seq<Op>, failed: seq<bool>): Eager
    requires |ops| == |failed|
  {
    if ops == [] then a
    else
      var n := |ops| - 1;
      EagerApply(EagerRun(a, ops[..n], failed[..n]), ops[n], failed[n])
  }

  ghost function Failures(trace: seq<State>, ops: seq<Op>): (failed: seq<bool>)
    requires |trace| == |ops| + 1
  {
    seq(|ops|, i requires 0 <= i < |ops| => Apply(trace[i], ops[i]).1 == Sigbus)
  }

  lemma BootInv(s: State)
    requires Boot(s)
    ensures Inv(s) && View(s) == Eager(map[], map[])
  {
    forall f ensures Maps(s.pt, f) == {} { }
  }

  /** Copy-on-write refines eager copying, over every run of any number of address spaces: each
      space sees the bytes and protections it would see if fork had copied every private page. */
  lemma {:induction false} CowRefinesEagerCopy(trace: seq<State>, ops: seq<Op>)
    requires IsRun(trace, ops)
    ensures Inv(trace[|ops|])
    ensures View(trace[|ops|]) == EagerRun(Eager(map[], map[]), ops, Failures(trace, ops))
    decreases |ops|
  {
    hide InvBut, View, EagerApply, Apply, Enabled;
    if ops == [] {
      BootInv(trace[0]);
    } else {
      var n := |ops| - 1;
      CowRefinesEagerCopy(trace[..n + 1], ops[..n]);
      StepRefines(trace[n], ops[n]);
      assert Failures(trace, ops)[..n] == Failures(trace[..n + 1], ops[..n]);
    }
  }

  /** The two invariants behind it, in every reachable state: a reference count is the number of
      mappings plus the pins, and a writable private entry is the only reference to its frame. */
  lemma CountsInEveryRun(trace: seq<State>, ops: seq<Op>)
    requires IsRun(trace, ops)
    ensures var s := trace[|ops|];
      && (forall f :: f in s.refs ==> f in s.pins && s.refs[f] == |Maps(s.pt, f)| + s.pins[f])
      && (forall k :: k in s.pt && s.pt[k].isPrivate && s.pt[k].writable ==>
            s.pt[k].frame in s.refs && s.refs[s.pt[k].frame] == 1)
  {
    hide Maps;
    CowRefinesEagerCopy(trace, ops);
  }
}
