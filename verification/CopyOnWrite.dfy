/** Copy-on-write memory of any number of address spaces: page-table entries over reference-counted
    frames, as changed page by page by map, fork, write faults, protection changes and unmap.  The
    specification is a machine in which fork copies every private page at once. */
module CopyOnWrite {

  const PAGE_SIZE: int := 4096

  datatype Option<+T> = None | Some(value: T)

  type Frame = int
  type Bytes = seq<int>

  function Zeros(): Bytes { seq(PAGE_SIZE, _ => 0) }

  datatype Prot = Prot(read: bool, write: bool, exec: bool)

  /** A virtual page of one address space. */
  datatype Key = Key(space: int, page: int)

  /** A mapped page: the frame and write bit of its page-table entry, the protection of its segment
      and whether the segment is private (VMM_FLAG_PRIVATE) or shared. */
  datatype Page = Page(frame: Frame, writable: bool, prot: Prot, isPrivate: bool)

  /** `pins` counts the references that are not mappings, such as the ones on the zero page. */
  datatype State = State(mem: map<Frame, Bytes>, refs: map<Frame, int>, pins: map<Frame, int>,
                         zero: Frame, pt: map<Key, Page>)

  // ---- the operations on one page ----

  predicate HasFrame(s: State, f: Frame) { f in s.refs && f in s.mem && f in s.pins }

  /** pmm_retain and pmm_release_page, on the count alone */
  function AddRef(s: State, f: Frame, d: int): State
    requires HasFrame(s, f)
  {
    s.(refs := s.refs[f := s.refs[f] + d])
  }

  /** vmm_clone_seg, first loop: the child gets the parent's frame, write-protected when private. */
  function ShareOne(s: State, p: Key, c: Key): State
    requires p in s.pt && HasFrame(s, s.pt[p].frame)
  {
    var e := s.pt[p];
    AddRef(s, e.frame, 1).(pt := s.pt[c := e.(writable := e.prot.write && !e.isPrivate)])
  }

  /** vmm_clone_seg, second loop: write-protect the parent's entry of a private segment. */
  function ProtectOne(s: State, p: Key): State
    requires p in s.pt
  {
    if s.pt[p].isPrivate then s.(pt := s.pt[p := s.pt[p].(writable := false)]) else s
  }

  /** A frame from the page allocator: count 1, arbitrary old contents replaced by `bytes`. */
  predicate IsFree(s: State, f: Frame) { HasFrame(s, f) && s.refs[f] == 0 }

  function TakeFrame(s: State, f: Frame, bytes: Bytes): State {
    s.(refs := s.refs[f := 1], mem := s.mem[f := bytes])
  }

  /** vmm_cow; `spare` is the frame the allocator hands out, or none. */
  function CowOne(s: State, k: Key, spare: Option<Frame>): State
    requires k in s.pt && HasFrame(s, s.pt[k].frame)
  {
    var e := s.pt[k];
    if s.refs[e.frame] <= 1 then s.(pt := s.pt[k := e.(writable := true)])
    else if spare == None then s
    else
      var d := TakeFrame(s, spare.value, s.mem[e.frame]);
      d.(refs := d.refs[e.frame := s.refs[e.frame] - 1], pt := s.pt[k := e.(frame := spare.value, writable := true)])
  }

  /** vmm_space_chprot for one entry of the segment. */
  function ChprotOne(s: State, k: Key, prot: Prot): State
    requires k in s.pt && HasFrame(s, s.pt[k].frame)
  {
    var e := s.pt[k];
    if e.prot == prot then s
    else
      var w := prot.write && !(e.isPrivate && s.refs[e.frame] > 1);
      s.(pt := s.pt[k := e.(prot := prot, writable := w)])
  }

  /** mmu_unmap_and_release_pages for one entry. */
  function UnmapOne(s: State, k: Key): State
    requires k in s.pt && HasFrame(s, s.pt[k].frame)
  {
    AddRef(s, s.pt[k].frame, -1).(pt := s.pt - {k})
  }

  /** The anonymous private mapping loop: one more reference to the zero page. */
  function MapZeroOne(s: State, k: Key, prot: Prot): State
    requires HasFrame(s, s.zero)
  {
    AddRef(s, s.zero, 1).(pt := s.pt[k := Page(s.zero, false, prot, true)])
  }

  /** mmu_allocate_zero_and_map_pages for one page of an anonymous shared mapping. */
  function MapSharedOne(s: State, k: Key, prot: Prot, f: Frame): State {
    TakeFrame(s, f, Zeros()).(pt := s.pt[k := Page(f, prot.write, prot, false)])
  }

  /** A store by the processor through a writable entry. */
  function StoreOne(s: State, k: Key, off: int, b: int): State
    requires k in s.pt && s.pt[k].frame in s.mem && 0 <= off < |s.mem[s.pt[k].frame]|
  {
    var f := s.pt[k].frame;
    s.(mem := s.mem[f := s.mem[f][off := b]])
  }

  // ---- the machine that copies at fork ----

  /** A private page owns its bytes; a shared one names the object it shares. */
  datatype EagerPage = Own(bytes: Bytes, prot: Prot) | Shared(obj: Frame, prot: Prot)

  datatype Eager = Eager(pt: map<Key, EagerPage>, objects: map<Frame, Bytes>)

  ghost function SharedFrames(pt: map<Key, Page>): set<Frame> {
    set k | k in pt && !pt[k].isPrivate :: pt[k].frame
  }

  ghost function ViewPage(mem: map<Frame, Bytes>, e: Page): EagerPage {
    if e.isPrivate then Own(if e.frame in mem then mem[e.frame] else [], e.prot) else Shared(e.frame, e.prot)
  }

  /** What the address spaces see. */
  ghost function View(s: State): Eager {
    Eager(map k | k in s.pt :: ViewPage(s.mem, s.pt[k]), map f | f in SharedFrames(s.pt) && f in s.mem :: s.mem[f])
  }

  // ---- the invariant ----

  ghost function Maps(pt: map<Key, Page>, f: Frame): set<Key> {
    set k | k in pt && pt[k].frame == f
  }

  /** Reference counts are mappings plus pins. */
  ghost predicate Counted(s: State) {
    && s.mem.Keys == s.refs.Keys == s.pins.Keys
    && (forall f :: f in s.refs ==> s.pins[f] >= 0 && s.refs[f] == |Maps(s.pt, f)| + s.pins[f])
    && (forall k :: k in s.pt ==> s.pt[k].frame in s.refs)
    && (forall f :: f in s.mem ==> |s.mem[f]| == PAGE_SIZE)
  }

  /** A write bit never exceeds the segment's protection, and shared entries carry it exactly. */
  ghost predicate ProtOk(pt: map<Key, Page>) {
    forall k :: k in pt ==>
      (pt[k].writable ==> pt[k].prot.write) && (!pt[k].isPrivate ==> pt[k].writable == pt[k].prot.write)
  }

  /** Private and shared mappings never meet in one frame. */
  ghost predicate KindsOk(pt: map<Key, Page>) {
    forall k, l :: k in pt && l in pt && pt[k].frame == pt[l].frame ==> pt[k].isPrivate == pt[l].isPrivate
  }

  /** A writable private entry owns its frame alone; `pending` are entries still to be protected. */
  ghost predicate SoleWriters(s: State, pending: set<Key>) {
    forall k :: k in s.pt && k !in pending && s.pt[k].isPrivate && s.pt[k].writable ==>
      s.pt[k].frame in s.refs && s.refs[s.pt[k].frame] == 1
  }

  ghost predicate ZeroOk(s: State) {
    && s.zero in s.mem && s.mem[s.zero] == Zeros() && s.zero in s.pins && s.pins[s.zero] >= 1
    && forall k :: k in s.pt && s.pt[k].frame == s.zero ==> s.pt[k].isPrivate
  }

  ghost predicate InvBut(s: State, pending: set<Key>) {
    Counted(s) && ProtOk(s.pt) && KindsOk(s.pt) && SoleWriters(s, pending) && ZeroOk(s)
  }

  ghost predicate Inv(s: State) { InvBut(s, {}) }

  // ---- mapping sets ----

  lemma MapsSet(pt: map<Key, Page>, k: Key, e: Page, f: Frame)
    ensures Maps(pt[k := e], f) == if e.frame == f then Maps(pt, f) + {k} else Maps(pt, f) - {k}
  {
  }

  lemma MapsRemove(pt: map<Key, Page>, k: Key, f: Frame)
    ensures Maps(pt - {k}, f) == Maps(pt, f) - {k}
  {
  }

  /** An entry whose frame has count 1 is its only mapping. */
  lemma OnlyMapping(s: State, k: Key, l: Key)
    requires Counted(s) && k in s.pt && l in s.pt && s.pt[k].frame == s.pt[l].frame && s.refs[s.pt[k].frame] == 1
    ensures k == l && s.pins[s.pt[k].frame] == 0
  {
    var m := Maps(s.pt, s.pt[k].frame);
    assert k in m && l in m;
    assert |m - {k}| == |m| - 1;
    assert m - {k} == {};
    assert l !in m - {k};
  }

  lemma FreeUnmapped(s: State, f: Frame, k: Key)
    requires Counted(s) && IsFree(s, f) && k in s.pt
    ensures s.pt[k].frame != f && s.pins[f] == 0
  {
    assert Maps(s.pt, f) == {};
    assert k !in Maps(s.pt, f);
  }

  // ---- the same steps on the eager machine ----

  ghost function EagerUsed(pt: map<Key, EagerPage>): set<Frame> {
    set k | k in pt && pt[k].Shared? :: pt[k].obj
  }

  /** Shared objects disappear with their last mapping. */
  ghost function EagerCollect(a: Eager): Eager {
    Eager(a.pt, map f | f in a.objects && f in EagerUsed(a.pt) :: a.objects[f])
  }

  ghost function EagerUnmap(a: Eager, k: Key): Eager { EagerCollect(a.(pt := a.pt - {k})) }

  ghost function EagerCopy(a: Eager, p: Key, c: Key): Eager
    requires p in a.pt
  {
    a.(pt := a.pt[c := a.pt[p]])
  }

  ghost function EagerChprot(a: Eager, k: Key, prot: Prot): Eager
    requires k in a.pt
  {
    a.(pt := a.pt[k := a.pt[k].(prot := prot)])
  }

  ghost function EagerStore(a: Eager, k: Key, off: int, b: int): Eager
    requires k in a.pt && (a.pt[k].Shared? ==> a.pt[k].obj in a.objects)
    requires 0 <= off < |EagerBytes(a, k)|
  {
    match a.pt[k]
    case Own(bytes, prot) => a.(pt := a.pt[k := Own(bytes[off := b], prot)])
    case Shared(f, prot) => a.(objects := a.objects[f := a.objects[f][off := b]])
  }

  ghost function EagerBytes(a: Eager, k: Key): Bytes
    requires k in a.pt && (a.pt[k].Shared? ==> a.pt[k].obj in a.objects)
  {
    match a.pt[k]
    case Own(bytes, prot) => bytes
    case Shared(f, prot) => a.objects[f]
  }

  // ---- each step refines its eager counterpart and keeps the invariant ----

  /** Counting survives a change of entries when each frame's count moves with its mappings. */
  lemma CountedAfter(s: State, s': State)
    requires Counted(s) && s'.mem.Keys == s.mem.Keys && s'.refs.Keys == s.refs.Keys && s'.pins == s.pins
    requires forall f :: f in s.refs ==> s'.refs[f] - s.refs[f] == |Maps(s'.pt, f)| - |Maps(s.pt, f)|
    requires forall k :: k in s'.pt ==> s'.pt[k].frame in s.refs
    requires forall f :: f in s'.mem ==> |s'.mem[f]| == PAGE_SIZE
    ensures Counted(s')
  {
    hide Maps;
  }

  lemma AddEntryCounted(s: State, c: Key, e: Page)
    requires Counted(s) && c !in s.pt && e.frame in s.refs
    ensures Counted(s.(refs := s.refs[e.frame := s.refs[e.frame] + 1], pt := s.pt[c := e]))
  {
    var s' := s.(refs := s.refs[e.frame := s.refs[e.frame] + 1], pt := s.pt[c := e]);
    forall f | f in s.refs ensures s'.refs[f] - s.refs[f] == |Maps(s'.pt, f)| - |Maps(s.pt, f)| {
      MapsSet(s.pt, c, e, f);
      assert c !in Maps(s.pt, f);
    }
    hide Maps;
    CountedAfter(s, s');
  }

  /** Changing an entry without changing its frame leaves the counts alone. */
  lemma EditEntryCounted(s: State, k: Key, e: Page)
    requires Counted(s) && k in s.pt && e.frame == s.pt[k].frame
    ensures Counted(s.(pt := s.pt[k := e]))
  {
    var s' := s.(pt := s.pt[k := e]);
    forall f | f in s.refs ensures |Maps(s'.pt, f)| == |Maps(s.pt, f)| {
      assert Maps(s'.pt, f) == Maps(s.pt, f);
    }
    hide Maps;
    CountedAfter(s, s');
  }

  lemma RemoveEntryCounted(s: State, k: Key)
    requires Counted(s) && k in s.pt
    ensures Counted(UnmapOne(s, k)) && s.refs[s.pt[k].frame] >= 1
  {
    var s' := UnmapOne(s, k);
    assert k in Maps(s.pt, s.pt[k].frame);
    forall f | f in s.refs ensures s'.refs[f] - s.refs[f] == |Maps(s'.pt, f)| - |Maps(s.pt, f)| {
      MapsRemove(s.pt, k, f);
      assert k in Maps(s.pt, f) <==> s.pt[k].frame == f;
    }
    CountedAfter(s, s');
  }

  /** The entries of one frame determine whether it backs a shared object. */
  lemma SharedSet(pt: map<Key, Page>, k: Key, e: Page)
    requires KindsOk(pt[k := e])
    ensures e.isPrivate && (k !in pt || pt[k].isPrivate) ==> SharedFrames(pt[k := e]) == SharedFrames(pt)
    ensures !e.isPrivate && (k !in pt || pt[k].frame == e.frame) ==>
              SharedFrames(pt[k := e]) == SharedFrames(pt) + {e.frame}
  {
    var pt' := pt[k := e];
    if e.isPrivate && (k !in pt || pt[k].isPrivate) {
      forall f ensures f in SharedFrames(pt') <==> f in SharedFrames(pt) {
        if f in SharedFrames(pt) {
          var l :| l in pt && !pt[l].isPrivate && pt[l].frame == f;
          assert l in pt' && pt'[l] == pt[l];
        }
      }
    }
    if !e.isPrivate && (k !in pt || pt[k].frame == e.frame) {
      forall f ensures f in SharedFrames(pt') <==> f in SharedFrames(pt) + {e.frame} {
        if f in SharedFrames(pt) && f != e.frame {
          var l :| l in pt && !pt[l].isPrivate && pt[l].frame == f;
          assert l in pt' && pt'[l] == pt[l];
        }
        assert k in pt' && pt'[k] == e;
      }
    }
  }

  lemma SharedIn(pt: map<Key, Page>, k: Key)
    requires k in pt && !pt[k].isPrivate
    ensures pt[k].frame in SharedFrames(pt)
  {
  }

  lemma ViewSet(s: State, k: Key, e: Page)
    requires KindsOk(s.pt[k := e]) && e.frame in s.mem
    requires k !in s.pt || (s.pt[k].frame == e.frame && s.pt[k].isPrivate == e.isPrivate) || (s.pt[k].isPrivate && e.isPrivate)
    requires !e.isPrivate ==> e.frame in SharedFrames(s.pt)
    ensures View(s.(pt := s.pt[k := e])) == View(s).(pt := View(s).pt[k := ViewPage(s.mem, e)])
  {
    var s' := s.(pt := s.pt[k := e]);
    SharedSet(s.pt, k, e);
    assert SharedFrames(s'.pt) == SharedFrames(s.pt);
    hide SharedFrames;
    assert View(s').pt == View(s).pt[k := ViewPage(s.mem, e)];
  }

  /** A new or changed entry whose kind agrees with the other entries of its frame. */
  lemma EntryOk(s: State, k: Key, e: Page)
    requires ProtOk(s.pt) && KindsOk(s.pt) && ZeroOk(s)
    requires (e.writable ==> e.prot.write) && (!e.isPrivate ==> e.writable == e.prot.write)
    requires forall l :: l in s.pt && l != k && s.pt[l].frame == e.frame ==> s.pt[l].isPrivate == e.isPrivate
    requires e.frame == s.zero ==> e.isPrivate
    ensures ProtOk(s.pt[k := e]) && KindsOk(s.pt[k := e]) && ZeroOk(s.(pt := s.pt[k := e]))
  {
  }

  lemma SameKind(s: State, p: Key)
    requires KindsOk(s.pt) && ZeroOk(s) && ProtOk(s.pt) && p in s.pt
    ensures forall l :: l in s.pt && s.pt[l].frame == s.pt[p].frame ==> s.pt[l].isPrivate == s.pt[p].isPrivate
    ensures s.pt[p].frame == s.zero ==> s.pt[p].isPrivate
    ensures !s.pt[p].isPrivate ==> s.pt[p].writable == s.pt[p].prot.write
  {
  }

  lemma ZeroRefs(s: State, s': State)
    requires ZeroOk(s) && s'.mem == s.mem && s'.pins == s.pins && s'.zero == s.zero && s'.pt == s.pt
    ensures ZeroOk(s')
  {
  }

  lemma ViewAt(s: State, k: Key)
    requires k in s.pt
    ensures k in View(s).pt && View(s).pt[k] == ViewPage(s.mem, s.pt[k])
  {
  }

  lemma ViewRefs(s: State, refs: map<Frame, int>)
    ensures View(s.(refs := refs)) == View(s)
  {
  }

  lemma ShareSole(s: State, pending: set<Key>, p: Key, c: Key)
    requires InvBut(s, pending) && p in s.pt && c !in s.pt
    ensures SoleWriters(ShareOne(s, p, c), pending + {p})
  {
    hide Maps, ProtOk, KindsOk, ZeroOk;
    var s' := ShareOne(s, p, c);
    forall k | k in s'.pt && k !in pending + {p} && s'.pt[k].isPrivate && s'.pt[k].writable
      ensures s'.pt[k].frame in s'.refs && s'.refs[s'.pt[k].frame] == 1
    {
      assert k in s.pt && s.refs[s.pt[k].frame] == 1;
      if s.pt[k].frame == s.pt[p].frame { OnlyMapping(s, k, p); }
    }
  }

  /** Fork, first loop: the child sees what the parent sees. */
  lemma ShareKeeps(s: State, pending: set<Key>, p: Key, c: Key)
    requires InvBut(s, pending) && p in s.pt && c !in s.pt
    ensures InvBut(ShareOne(s, p, c), pending + {p})
    ensures View(ShareOne(s, p, c)) == EagerCopy(View(s), p, c)
  {
    hide Maps, SharedFrames, SoleWriters, KindsOk, ProtOk, ZeroOk, View;
    var e := s.pt[p].(writable := s.pt[p].prot.write && !s.pt[p].isPrivate);
    var s' := ShareOne(s, p, c);
    AddEntryCounted(s, c, e);
    ShareSole(s, pending, p, c);
    SameKind(s, p);
    EntryOk(s, c, e);
    if !e.isPrivate { SharedIn(s.pt, p); }
    ViewAt(s, p);
    ViewSet(s, c, e);
    ZeroRefs(s.(pt := s.pt[c := e]), s');
    ViewRefs(s.(pt := s.pt[c := e]), s'.refs);
    assert s.(pt := s.pt[c := e]).(refs := s'.refs) == s';
  }

  /** Fork, second loop: protecting an entry is invisible. */
  lemma ProtectKeeps(s: State, pending: set<Key>, p: Key)
    requires InvBut(s, pending) && p in s.pt
    ensures InvBut(ProtectOne(s, p), pending - {p})
    ensures View(ProtectOne(s, p)) == View(s)
  {
    hide Maps, SharedFrames;
    if s.pt[p].isPrivate {
      var e := s.pt[p].(writable := false);
      EditEntryCounted(s, p, e);
      ViewSet(s, p, e);
      assert View(s).pt[p := ViewPage(s.mem, e)] == View(s).pt;
    }
  }

  lemma SoleEdit(s: State, k: Key, e: Page)
    requires SoleWriters(s, {}) && k in s.pt && e.frame in s.refs
    requires e.isPrivate && e.writable ==> s.refs[e.frame] == 1
    ensures SoleWriters(s.(pt := s.pt[k := e]), {})
  {
  }

  /** Editing the write bit or the protection of an entry. */
  lemma EditKeeps(s: State, k: Key, e: Page)
    requires Inv(s) && k in s.pt && e.frame == s.pt[k].frame && e.isPrivate == s.pt[k].isPrivate
    requires (e.writable ==> e.prot.write) && (!e.isPrivate ==> e.writable == e.prot.write)
    requires e.isPrivate && e.writable ==> s.refs[e.frame] == 1
    ensures Inv(s.(pt := s.pt[k := e]))
    ensures View(s.(pt := s.pt[k := e])) == View(s).(pt := View(s).pt[k := View(s).pt[k].(prot := e.prot)])
    ensures e.prot == s.pt[k].prot ==> View(s.(pt := s.pt[k := e])) == View(s)
  {
    hide Maps, SharedFrames, SoleWriters, KindsOk, ProtOk, ZeroOk, View;
    EditEntryCounted(s, k, e);
    SoleEdit(s, k, e);
    SameKind(s, k);
    EntryOk(s, k, e);
    if !e.isPrivate { SharedIn(s.pt, k); }
    ViewAt(s, k);
    ViewSet(s, k, e);
    assert View(s).pt[k := View(s).pt[k]] == View(s).pt;
  }

  /** chprot changes the protection that the segment's page shows and nothing else. */
  lemma ChprotKeeps(s: State, k: Key, prot: Prot)
    requires Inv(s) && k in s.pt
    ensures Inv(ChprotOne(s, k, prot)) && View(ChprotOne(s, k, prot)) == EagerChprot(View(s), k, prot)
  {
    hide SharedFrames, SoleWriters, KindsOk, ProtOk, ZeroOk, View;
    ViewAt(s, k);
    var e := s.pt[k];
    if e.prot == prot {
      assert View(s).pt[k := View(s).pt[k].(prot := prot)] == View(s).pt;
    } else {
      assert k in Maps(s.pt, e.frame);
      EditKeeps(s, k, e.(prot := prot, writable := prot.write && !(e.isPrivate && s.refs[e.frame] > 1)));
    }
  }

  lemma ZeroShared(s: State, k: Key)
    requires Counted(s) && ZeroOk(s) && k in s.pt && s.pt[k].frame == s.zero
    ensures s.refs[s.zero] >= 2
  {
    assert k in Maps(s.pt, s.zero);
  }

  /** The frame behind a copied entry loses one mapping, the new frame gets its only one. */
  lemma MoveEntryCounted(s: State, k: Key, g: Frame)
    requires Counted(s) && k in s.pt && IsFree(s, g) && s.refs[s.pt[k].frame] > 1
    ensures Counted(CowOne(s, k, Some(g))) && s.pt[k].frame != g
  {
    hide Maps;
    var e, s' := s.pt[k], CowOne(s, k, Some(g));
    FreeUnmapped(s, g, k);
    forall f | f in s.refs ensures |Maps(s'.pt, f)| - |Maps(s.pt, f)| == (if f == g then 1 else if f == e.frame then -1 else 0) {
      MovedMaps(s.pt, k, g, f);
    }
    assert s'.refs == s.refs[g := 1][e.frame := s.refs[e.frame] - 1];
    CountedAfter(s, s');
  }

  lemma MovedMaps(pt: map<Key, Page>, k: Key, g: Frame, f: Frame)
    requires k in pt && pt[k].frame != g
    ensures |Maps(pt[k := pt[k].(frame := g, writable := true)], f)| - |Maps(pt, f)| ==
            if f == g then 1 else if f == pt[k].frame then -1 else 0
  {
    MapsSet(pt, k, pt[k].(frame := g, writable := true), f);
    assert k in Maps(pt, f) <==> f == pt[k].frame;
  }

  lemma MoveSole(s: State, k: Key, g: Frame)
    requires Counted(s) && SoleWriters(s, {}) && k in s.pt && IsFree(s, g) && s.refs[s.pt[k].frame] > 1
    ensures SoleWriters(CowOne(s, k, Some(g)), {})
  {
    hide Maps;
    var s' := CowOne(s, k, Some(g));
    forall l | l in s'.pt && s'.pt[l].isPrivate && s'.pt[l].writable
      ensures s'.pt[l].frame in s'.refs && s'.refs[s'.pt[l].frame] == 1
    {
      FreeUnmapped(s, g, k);
      FreeUnmapped(s, g, if l in s.pt then l else k);
    }
  }

  lemma ZeroNotFree(s: State, g: Frame)
    requires Counted(s) && ZeroOk(s) && IsFree(s, g)
    ensures g != s.zero
  {
  }

  /** Taking a free frame is invisible: nothing maps it. */
  lemma TakeInvisible(s: State, g: Frame, bytes: Bytes)
    requires Counted(s) && IsFree(s, g)
    ensures View(TakeFrame(s, g, bytes)) == View(s)
  {
    var s' := TakeFrame(s, g, bytes);
    forall k | k in s.pt ensures s.pt[k].frame != g { FreeUnmapped(s, g, k); }
    assert g !in SharedFrames(s.pt);
    assert View(s').pt == View(s).pt;
    assert View(s').objects == View(s).objects;
  }

  lemma MoveRest(s: State, k: Key, g: Frame)
    requires Counted(s) && ProtOk(s.pt) && KindsOk(s.pt) && ZeroOk(s) && k in s.pt && IsFree(s, g)
    requires s.pt[k].isPrivate && s.pt[k].prot.write && s.refs[s.pt[k].frame] > 1
    ensures var s' := CowOne(s, k, Some(g)); ProtOk(s'.pt) && KindsOk(s'.pt) && ZeroOk(s')
  {
    hide Maps, SharedFrames;
    forall l | l in s.pt ensures s.pt[l].frame != g { FreeUnmapped(s, g, l); }
    ZeroNotFree(s, g);
    EntryOk(s, k, s.pt[k].(frame := g, writable := true));
  }

  lemma MoveView(s: State, k: Key, g: Frame)
    requires Counted(s) && KindsOk(s.pt) && k in s.pt && IsFree(s, g)
    requires s.pt[k].isPrivate && s.refs[s.pt[k].frame] > 1 && KindsOk(CowOne(s, k, Some(g)).pt)
    ensures View(CowOne(s, k, Some(g))) == View(s)
  {
    hide Maps, SharedFrames, KindsOk, View;
    var e := s.pt[k];
    var t := TakeFrame(s, g, s.mem[e.frame]);
    var e' := e.(frame := g, writable := true);
    FreeUnmapped(s, g, k);
    TakeInvisible(s, g, s.mem[e.frame]);
    ViewAt(s, k);
    ViewSet(t, k, e');
    assert View(s).pt[k := ViewPage(t.mem, e')] == View(s).pt;
    ViewRefs(t.(pt := t.pt[k := e']), CowOne(s, k, Some(g)).refs);
  }

  /** A copy-on-write fault is invisible and, unless memory ran out, makes the entry writable. */
  lemma CowKeeps(s: State, k: Key, spare: Option<Frame>)
    requires Inv(s) && k in s.pt && s.pt[k].isPrivate && s.pt[k].prot.write
    requires spare.Some? ==> IsFree(s, spare.value)
    ensures Inv(CowOne(s, k, spare)) && View(CowOne(s, k, spare)) == View(s)
    ensures CowOne(s, k, spare).pt.Keys == s.pt.Keys
    ensures spare.Some? || s.refs[s.pt[k].frame] <= 1 ==> CowOne(s, k, spare).pt[k].writable
  {
    hide SharedFrames, SoleWriters, KindsOk, ProtOk, ZeroOk, View;
    var e := s.pt[k];
    assert k in Maps(s.pt, e.frame);
    if s.refs[e.frame] <= 1 {
      EditKeeps(s, k, e.(writable := true));
    } else if spare.Some? {
      MoveEntryCounted(s, k, spare.value);
      MoveSole(s, k, spare.value);
      MoveRest(s, k, spare.value);
      MoveView(s, k, spare.value);
    }
  }

  // ---- map, unmap and store ----

  lemma UnmapSole(s: State, k: Key)
    requires Counted(s) && SoleWriters(s, {}) && k in s.pt
    ensures SoleWriters(UnmapOne(s, k), {})
  {
    hide Maps;
    var s' := UnmapOne(s, k);
    forall l | l in s'.pt && s'.pt[l].isPrivate && s'.pt[l].writable
      ensures s'.pt[l].frame in s'.refs && s'.refs[s'.pt[l].frame] == 1
    {
      assert l in s.pt && l != k;
      if s.pt[l].frame == s.pt[k].frame { OnlyMapping(s, l, k); }
    }
  }

  lemma UnmapShared(s: State, k: Key)
    requires k in s.pt
    ensures forall f :: f in SharedFrames(s.pt - {k}) ==> f in SharedFrames(s.pt)
    ensures SharedFrames(s.pt - {k}) == EagerUsed(View(s).pt - {k})
  {
    var pt' := s.pt - {k};
    forall f | f in SharedFrames(pt') ensures f in SharedFrames(s.pt) {
      var l :| l in pt' && !pt'[l].isPrivate && pt'[l].frame == f;
      assert l in s.pt && s.pt[l] == pt'[l];
    }
    var v := View(s).pt - {k};
    forall f ensures f in SharedFrames(pt') <==> f in EagerUsed(v) {
      if f in SharedFrames(pt') {
        var l :| l in pt' && !pt'[l].isPrivate && pt'[l].frame == f;
        assert l in v && v[l] == Shared(f, pt'[l].prot);
      }
      if f in EagerUsed(v) {
        var l :| l in v && v[l].Shared? && v[l].obj == f;
        assert l in pt' && !pt'[l].isPrivate && pt'[l].frame == f;
      }
    }
  }

  lemma UnmapView(s: State, k: Key)
    requires k in s.pt && HasFrame(s, s.pt[k].frame)
    ensures View(UnmapOne(s, k)) == EagerUnmap(View(s), k)
  {
    hide SharedFrames, EagerUsed;
    var s', v := UnmapOne(s, k), EagerUnmap(View(s), k);
    UnmapShared(s, k);
    assert View(s').pt == v.pt;
    forall f ensures f in View(s').objects <==> f in v.objects {
      assert f in SharedFrames(s'.pt) <==> f in EagerUsed(v.pt);
    }
    assert View(s').objects == v.objects;
  }

  lemma UnmapKeeps(s: State, k: Key)
    requires Inv(s) && k in s.pt
    ensures Inv(UnmapOne(s, k)) && View(UnmapOne(s, k)) == EagerUnmap(View(s), k)
  {
    hide Maps, View, SoleWriters, EagerUnmap;
    RemoveEntryCounted(s, k);
    UnmapSole(s, k);
    UnmapView(s, k);
  }

  /** A private anonymous page starts as zeros. */
  lemma MapZeroKeeps(s: State, k: Key, prot: Prot)
    requires Inv(s) && k !in s.pt
    ensures Inv(MapZeroOne(s, k, prot))
    ensures View(MapZeroOne(s, k, prot)) == View(s).(pt := View(s).pt[k := Own(Zeros(), prot)])
  {
    hide Maps, SharedFrames, SoleWriters, KindsOk, ProtOk, View;
    var e := Page(s.zero, false, prot, true);
    var s' := MapZeroOne(s, k, prot);
    AddEntryCounted(s, k, e);
    MapZeroSole(s, k, prot);
    EntryOk(s, k, e);
    ViewSet(s, k, e);
    ViewRefs(s.(pt := s.pt[k := e]), s'.refs);
    ZeroRefs(s.(pt := s.pt[k := e]), s');
  }

  lemma MapZeroSole(s: State, k: Key, prot: Prot)
    requires Counted(s) && ZeroOk(s) && SoleWriters(s, {}) && k !in s.pt
    ensures SoleWriters(MapZeroOne(s, k, prot), {})
  {
    hide Maps;
    var s' := MapZeroOne(s, k, prot);
    forall l | l in s'.pt && s'.pt[l].isPrivate && s'.pt[l].writable
      ensures s'.pt[l].frame in s'.refs && s'.refs[s'.pt[l].frame] == 1
    {
      assert l in s.pt && l != k;
      if s.pt[l].frame == s.zero { ZeroShared(s, l); }
    }
  }

  lemma MapSharedCounted(s: State, k: Key, prot: Prot, f: Frame)
    requires Counted(s) && k !in s.pt && IsFree(s, f)
    ensures Counted(MapSharedOne(s, k, prot, f)) && s.pins[f] == 0
  {
    var e, s' := Page(f, prot.write, prot, false), MapSharedOne(s, k, prot, f);
    forall g | g in s.refs ensures s'.refs[g] - s.refs[g] == |Maps(s'.pt, g)| - |Maps(s.pt, g)| {
      MapsSet(s.pt, k, e, g);
      assert k !in Maps(s.pt, g);
    }
    CountedAfter(s, s');
  }

  /** A shared anonymous page is a new object of zeros. */
  lemma MapSharedKeeps(s: State, k: Key, prot: Prot, f: Frame)
    requires Inv(s) && k !in s.pt && IsFree(s, f)
    ensures Inv(MapSharedOne(s, k, prot, f)) && f !in View(s).objects
    ensures View(MapSharedOne(s, k, prot, f)) ==
            Eager(View(s).pt[k := Shared(f, prot)], View(s).objects[f := Zeros()])
  {
    hide Maps, View, SharedFrames, KindsOk, ProtOk;
    var e, s' := Page(f, prot.write, prot, false), MapSharedOne(s, k, prot, f);
    MapSharedCounted(s, k, prot, f);
    forall l | l in s.pt ensures s.pt[l].frame != f { FreeUnmapped(s, f, l); }
    ZeroNotFree(s, f);
    EntryOk(s, k, e);
    MapSharedView(s, k, prot, f);
  }

  lemma MapSharedView(s: State, k: Key, prot: Prot, f: Frame)
    requires k !in s.pt && f in s.mem && forall l :: l in s.pt ==> s.pt[l].frame != f
    requires KindsOk(s.pt[k := Page(f, prot.write, prot, false)])
    ensures f !in View(s).objects
    ensures View(MapSharedOne(s, k, prot, f)) ==
            Eager(View(s).pt[k := Shared(f, prot)], View(s).objects[f := Zeros()])
  {
    hide KindsOk;
    var s' := MapSharedOne(s, k, prot, f);
    SharedSet(s.pt, k, Page(f, prot.write, prot, false));
    assert f !in SharedFrames(s.pt);
    assert View(s').pt == View(s).pt[k := Shared(f, prot)];
    assert View(s').objects == View(s).objects[f := Zeros()];
  }

  /** A store through a writable entry is the eager store: nobody else sees a private one. */
  lemma StoreKeeps(s: State, k: Key, off: int, b: int)
    requires Inv(s) && k in s.pt && s.pt[k].writable && 0 <= off < PAGE_SIZE
    ensures s.pt[k].frame in s.mem && |s.mem[s.pt[k].frame]| == PAGE_SIZE
    ensures Inv(StoreOne(s, k, off, b))
    ensures s.pt[k].isPrivate || s.pt[k].frame in View(s).objects
    ensures |EagerBytes(View(s), k)| == PAGE_SIZE
    ensures View(StoreOne(s, k, off, b)) == EagerStore(View(s), k, off, b)
  {
    hide Maps, SharedFrames;
    var f, s' := s.pt[k].frame, StoreOne(s, k, off, b);
    if !s.pt[k].isPrivate { SharedIn(s.pt, k); }
    ZeroNotStored(s, k);
    StoreOthers(s, k);
    assert Counted(s');
    var v := EagerStore(View(s), k, off, b);
    assert View(s').pt == v.pt;
    assert View(s').objects == v.objects;
  }

  lemma ZeroNotStored(s: State, k: Key)
    requires Inv(s) && k in s.pt && s.pt[k].writable
    ensures s.pt[k].frame != s.zero
  {
    hide Maps;
    if s.pt[k].frame == s.zero { ZeroShared(s, k); }
  }

  lemma StoreOthers(s: State, k: Key)
    requires Inv(s) && k in s.pt && s.pt[k].writable
    ensures forall l :: l in s.pt && s.pt[l].frame == s.pt[k].frame && l != k ==> !s.pt[k].isPrivate && !s.pt[l].isPrivate
    ensures s.pt[k].isPrivate ==> s.pt[k].frame !in SharedFrames(s.pt)
  {
    hide Maps;
    forall l | l in s.pt && s.pt[l].frame == s.pt[k].frame && l != k
      ensures !s.pt[k].isPrivate && !s.pt[l].isPrivate
    {
      if s.pt[k].isPrivate { OnlyMapping(s, k, l); }
    }
  }
}
