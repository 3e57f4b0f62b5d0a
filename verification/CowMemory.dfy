/** The copy-on-write operations in place: an object that holds the frames, their counts and all
    page-table entries, with the loops of the kernel.  Every method is tied to the function of
    module AddressSpaces about which the refinement is proved. */
module CowMemory {
  import opened CopyOnWrite
  import opened AddressSpaces

  /** Every entry's frame exists, which is all the loops need. */
  ghost predicate Framed(s: State) {
    && s.mem.Keys == s.refs.Keys == s.pins.Keys && s.zero in s.refs
    && forall k :: k in s.pt ==> s.pt[k].frame in s.refs
  }

  class Memory {
    var mem: map<Frame, Bytes>
    var refs: map<Frame, int>
    ghost var pins: map<Frame, int>
    const zero: Frame
    var pt: map<Key, Page>

    ghost function St(): State
      reads this
    {
      State(mem, refs, pins, zero, pt)
    }

    ghost predicate Valid()
      reads this
    {
      Framed(St())
    }

    constructor (m: map<Frame, Bytes>, z: Frame)
      requires z in m && m[z] == Zeros() && forall f :: f in m ==> |m[f]| == PAGE_SIZE
      ensures Valid() && Boot(St()) && mem == m && zero == z
    {
      mem, zero, pt := m, z, map[];
      refs := map f | f in m :: if f == z then 1 else 0;
      pins := map f | f in m :: if f == z then 1 else 0;
    }

    /** vmm_space_chprot over the entries of a range. */
    method Chprot(space: int, start: int, n: nat, prot: Prot)
      requires Valid()
      modifies this`pt
      ensures Valid() && St() == ChprotRange(old(St()), space, start, n, prot)
    {
      var i := 0;
      while i < n
        invariant 0 <= i <= n && Valid() && St() == ChprotRange(old(St()), space, start, i, prot)
      {
        var k := Key(space, start + i);
        if k in pt {
          var e := pt[k];
          if e.prot != prot {
            if e.isPrivate && refs[e.frame] > 1 {
              pt := pt[k := e.(prot := prot, writable := false)];
            } else {
              pt := pt[k := e.(prot := prot, writable := prot.write)];
            }
          }
        }
        i := i + 1;
      }
    }

    /** mmu_unmap_and_release_pages */
    method Unmap(space: int, start: int, n: nat)
      requires Valid()
      modifies this`pt, this`refs
      ensures Valid() && St() == UnmapRange(old(St()), space, start, n)
    {
      var i := 0;
      while i < n
        invariant 0 <= i <= n && Valid() && St() == UnmapRange(old(St()), space, start, i)
      {
        var k := Key(space, start + i);
        if k in pt {
          var f := pt[k].frame;
          pt := pt - {k};
          refs := refs[f := refs[f] - 1];
        }
        i := i + 1;
      }
    }

    /** mmu_entry_map of the zero page, with its reference. */
    method MapZeroEntry(k: Key, prot: Prot)
      requires Valid()
      modifies this`pt, this`refs
      ensures Valid() && HasFrame(old(St()), zero) && St() == MapZeroOne(old(St()), k, prot)
    {
      refs := refs[zero := refs[zero] + 1];
      pt := pt[k := Page(zero, false, prot, true)];
    }

    /** pmm_get_zero_page */
    method GetZeroPage()
      requires Valid()
      modifies this`refs, this`pins
      ensures HasFrame(old(St()), zero) && Valid() && St() == PinZero(old(St()))
    {
      refs := refs[zero := refs[zero] + 1];
      pins := pins[zero := pins[zero] + 1];
    }

    /** The private anonymous branch of vmm_space_raw_map at a fixed address. */
    method MapAnonymous(space: int, start: int, n: nat, prot: Prot)
      requires Valid()
      modifies this`pt, this`refs, this`pins
      ensures Valid() && St() == MapPrivate(old(St()), space, start, n, prot)
    {
      hide Framed, MapZeroOne, PinZero, UnmapRange;
      Unmap(space, start, n);
      GetZeroPage();
      ghost var s0 := St();
      var i := 0;
      while i < n
        invariant 0 <= i <= n && Valid() && St() == MapZeroRange(s0, space, start, i, prot)
      {
        MapZeroEntry(Key(space, start + i), prot);
        i := i + 1;
      }
    }

    /** One turn of the first loop of vmm_clone_seg. */
    method ShareEntry(k: Key, c: Key)
      requires Valid() && k in pt
      modifies this`pt, this`refs
      ensures Valid() && Present(old(St()), k) && St() == ShareOne(old(St()), k, c)
    {
      var e := pt[k];
      refs := refs[e.frame := refs[e.frame] + 1];
      pt := pt[c := e.(writable := e.prot.write && !e.isPrivate)];
    }

    /** One turn of the second loop of vmm_clone_seg. */
    method ProtectEntry(k: Key)
      requires Valid() && k in pt
      modifies this`pt
      ensures Valid() && Present(old(St()), k) && St() == ProtectOne(old(St()), k)
    {
      if pt[k].isPrivate { pt := pt[k := pt[k].(writable := false)]; }
    }

    /** vmm_clone_seg: map the pages in the child, then protect the parent if private. */
    method CloneSeg(p: int, c: int, pages: seq<int>)
      requires Valid()
      modifies this`pt, this`refs
      ensures Valid() && St() == ForkSeg(old(St()), p, c, pages)
    {
      hide Framed, ShareOne, ProtectOne;
      var i := 0;
      while i < |pages|
        invariant 0 <= i <= |pages| && Valid() && St() == ShareSeg(old(St()), p, c, pages[..i])
      {
        assert pages[..i + 1][..i] == pages[..i];
        if Key(p, pages[i]) in pt { ShareEntry(Key(p, pages[i]), Key(c, pages[i])); }
        i := i + 1;
      }
      assert pages[..|pages|] == pages;
      ghost var s1 := St();
      i := 0;
      while i < |pages|
        invariant 0 <= i <= |pages| && Valid() && St() == ProtectSeg(s1, p, pages[..i])
      {
        assert pages[..i + 1][..i] == pages[..i];
        if Key(p, pages[i]) in pt { ProtectEntry(Key(p, pages[i])); }
        i := i + 1;
      }
    }

    /** vmm_clone */
    method Clone(p: int, c: int, segs: seq<seq<int>>)
      requires Valid()
      modifies this`pt, this`refs
      ensures Valid() && St() == Fork(old(St()), p, c, segs)
    {
      var i := 0;
      while i < |segs|
        invariant 0 <= i <= |segs| && Valid() && St() == Fork(old(St()), p, c, segs[..i])
      {
        assert segs[..i + 1][..i] == segs[..i];
        CloneSeg(p, c, segs[i]);
        i := i + 1;
      }
      assert segs[..|segs|] == segs;
    }

    /** vmm_cow; false when no frame is left for the copy. */
    method Cow(k: Key, spare: Option<Frame>) returns (ok: bool)
      requires Valid() && k in pt && (spare.Some? ==> spare.value in refs)
      modifies this`pt, this`refs, this`mem
      ensures Valid() && St() == CowOne(old(St()), k, spare)
      ensures ok <==> !CowFails(old(St()), k, spare)
    {
      var e := pt[k];
      if refs[e.frame] <= 1 {
        pt := pt[k := e.(writable := true)];
        return true;
      }
      if spare == None { return false; }
      var d, r := spare.value, refs[e.frame];
      refs := refs[d := 1];
      mem := mem[d := mem[e.frame]];
      refs := refs[e.frame := r - 1];
      pt := pt[k := e.(frame := d, writable := true)];
      ok := true;
    }

    /** The loop of vmm_handle_fault for a write fault. */
    method HandleFault(k: Key, spares: seq<Option<Frame>>)
      requires Valid() && forall i :: 0 <= i < |spares| && spares[i].Some? ==> spares[i].value in refs
      modifies this`pt, this`refs, this`mem
      ensures Valid() && St() == FaultRange(old(St()), k, spares)
    {
      var i := 0;
      while i < |spares|
        invariant 0 <= i <= |spares| && Valid() && refs.Keys == old(refs.Keys)
        invariant FaultRange(St(), Key(k.space, k.page + i), spares[i..]) == FaultRange(old(St()), k, spares)
      {
        var c := Key(k.space, k.page + i);
        assert spares[i..][1..] == spares[i + 1..];
        if c in pt {
          var ok := Cow(c, spares[i]);
          if !ok { return; }
        }
        i := i + 1;
      }
    }

    /** A store by the processor, with the fault it may raise. */
    method Store(k: Key, off: int, b: int, spares: seq<Option<Frame>>) returns (r: Outcome)
      requires Valid() && 0 <= off < PAGE_SIZE
      requires forall i :: 0 <= i < |spares| && spares[i].Some? ==> spares[i].value in refs
      modifies this`pt, this`refs, this`mem
      ensures Valid() && (St(), r) == Write(old(St()), k, off, b, spares)
    {
      if k !in pt { return Segv; }
      if !pt[k].writable {
        if !pt[k].prot.write { return Segv; }
        HandleFault(k, spares);
        if k !in pt || !pt[k].writable { return Sigbus; }
      }
      var f := pt[k].frame;
      if off < |mem[f]| { mem := mem[f := mem[f][off := b]]; }
      r := Done;
    }
  }
}
