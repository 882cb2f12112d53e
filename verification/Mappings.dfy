/** Mapping and unmapping fresh memory in any number of address spaces. A page table is its
    4 KiB leaf entries; of the intermediate tables only the frames they occupy are kept. */
module Mappings {

  import opened KernelTypes
  import opened Frames

  datatype Slot = Slot(space: nat, page: nat)

  /** Who holds a frame in use: a leaf entry, an intermediate table, or nobody, when it was
      taken for a page whose mapping then failed. */
  datatype Holder = Entry(slot: Slot) | Table | Lost

  /** The leaf entries of all address spaces, and the holder of every frame in use. */
  datatype World = World(leaf: map<Slot, Frame>, holder: map<Frame, Holder>)

  ghost predicate EntryHolds(w: World, s: Slot) {
    s in w.leaf ==> w.leaf[s] in w.holder && w.holder[w.leaf[s]] == Entry(s)
  }

  ghost predicate HolderHas(w: World, f: Frame) {
    f in w.holder && w.holder[f].Entry? ==> w.holder[f].slot in w.leaf && w.leaf[w.holder[f].slot] == f
  }

  /** Leaf entries and their frames are in bijection, and mapped frames are in use. */
  ghost predicate Owned(w: World) {
    && (forall s {:trigger EntryHolds(w, s)} :: EntryHolds(w, s))
    && (forall f {:trigger HolderHas(w, f)} :: HolderHas(w, f))
  }

  /** No frame is mapped at two places, and a mapped frame is not free. */
  lemma MappedOnce(w: World, s: Slot, t: Slot)
    requires Owned(w) && s in w.leaf && t in w.leaf && w.leaf[s] == w.leaf[t]
    ensures s == t && w.leaf[s] in w.holder
  {
    assert EntryHolds(w, s) && EntryHolds(w, t);
  }

  predicate In(s: Slot, space: nat, lo: nat, hi: nat) {
    s.space == space && lo <= s.page < hi
  }

  /** An entry of the page map across a `map_region` that got as far as page `mid`. */
  ghost predicate MapsSlot(w: World, w': World, space: nat, lo: nat, mid: nat, s: Slot) {
    if In(s, space, lo, mid) then
      s !in w.leaf && s in w'.leaf && w'.leaf[s] !in w.holder
      && w'.leaf[s] in w'.holder && w'.holder[w'.leaf[s]] == Entry(s)
    else
      (s in w.leaf <==> s in w'.leaf) && (s in w.leaf ==> w'.leaf[s] == w.leaf[s])
  }

  /** A frame across the same call: nothing in use changes hands, and a frame that an entry
      takes is the frame of a page of the range. */
  ghost predicate MapsFrame(w: World, w': World, space: nat, lo: nat, mid: nat, f: Frame) {
    && (f in w.holder ==> f in w'.holder && w'.holder[f] == w.holder[f])
    && (f in w'.holder && f !in w.holder && w'.holder[f].Entry? ==>
          var s := w'.holder[f].slot;
          In(s, space, lo, mid) && s in w'.leaf && w'.leaf[s] == f)
  }

  ghost predicate MapEffect(w: World, w': World, space: nat, lo: nat, mid: nat) {
    && (forall s {:trigger MapsSlot(w, w', space, lo, mid, s)} :: MapsSlot(w, w', space, lo, mid, s))
    && (forall f {:trigger MapsFrame(w, w', space, lo, mid, f)} :: MapsFrame(w, w', space, lo, mid, f))
  }

  /** An entry across an `unmap_region` that got as far as page `mid`. */
  ghost predicate UnmapsSlot(w: World, w': World, space: nat, lo: nat, mid: nat, s: Slot) {
    if In(s, space, lo, mid) then s in w.leaf && s !in w'.leaf
    else (s in w.leaf <==> s in w'.leaf) && (s in w.leaf ==> w'.leaf[s] == w.leaf[s])
  }

  /** A frame across the same call: it is given back exactly when a page of the range holds it. */
  ghost predicate UnmapsFrame(w: World, w': World, space: nat, lo: nat, mid: nat, f: Frame) {
    && (f in w'.holder <==>
          f in w.holder && !(w.holder[f].Entry? && In(w.holder[f].slot, space, lo, mid)))
    && (f in w'.holder ==> w'.holder[f] == w.holder[f])
  }

  ghost predicate UnmapEffect(w: World, w': World, space: nat, lo: nat, mid: nat) {
    && (forall s {:trigger UnmapsSlot(w, w', space, lo, mid, s)} :: UnmapsSlot(w, w', space, lo, mid, s))
    && (forall f {:trigger UnmapsFrame(w, w', space, lo, mid, f)} :: UnmapsFrame(w, w', space, lo, mid, f))
  }

  /** Calls that follow each other on adjacent pages act as one call. */
  lemma MapEffectsCompose(w: World, w1: World, w2: World, space: nat, lo: nat, mid: nat, hi: nat)
    requires lo <= mid <= hi && MapEffect(w, w1, space, lo, mid) && MapEffect(w1, w2, space, mid, hi)
    ensures MapEffect(w, w2, space, lo, hi)
  {
    forall s ensures MapsSlot(w, w2, space, lo, hi, s) {
      assert MapsSlot(w, w1, space, lo, mid, s) && MapsSlot(w1, w2, space, mid, hi, s);
      if s in w2.leaf {
        assert MapsFrame(w, w1, space, lo, mid, w2.leaf[s]) && MapsFrame(w1, w2, space, mid, hi, w2.leaf[s]);
      }
    }
    forall f ensures MapsFrame(w, w2, space, lo, hi, f) {
      assert MapsFrame(w, w1, space, lo, mid, f) && MapsFrame(w1, w2, space, mid, hi, f);
      if f in w1.holder && w1.holder[f].Entry? {
        assert MapsSlot(w1, w2, space, mid, hi, w1.holder[f].slot);
      }
    }
  }

  lemma UnmapEffectsCompose(w: World, w1: World, w2: World, space: nat, lo: nat, mid: nat, hi: nat)
    requires lo <= mid <= hi && UnmapEffect(w, w1, space, lo, mid) && UnmapEffect(w1, w2, space, mid, hi)
    ensures UnmapEffect(w, w2, space, lo, hi)
  {
    forall s ensures UnmapsSlot(w, w2, space, lo, hi, s) {
      assert UnmapsSlot(w, w1, space, lo, mid, s) && UnmapsSlot(w1, w2, space, mid, hi, s);
    }
    forall f ensures UnmapsFrame(w, w2, space, lo, hi, f) {
      assert UnmapsFrame(w, w1, space, lo, mid, f) && UnmapsFrame(w1, w2, space, mid, hi, f);
    }
  }

  lemma MapKeepsOwned(w: World, w': World, space: nat, lo: nat, mid: nat)
    requires Owned(w) && MapEffect(w, w', space, lo, mid)
    ensures Owned(w')
  {
    forall s ensures EntryHolds(w', s) {
      assert EntryHolds(w, s) && MapsSlot(w, w', space, lo, mid, s);
      if s in w.leaf { assert MapsFrame(w, w', space, lo, mid, w.leaf[s]); }
    }
    forall f ensures HolderHas(w', f) {
      assert HolderHas(w, f) && MapsFrame(w, w', space, lo, mid, f);
      if f in w.holder && w.holder[f].Entry? { assert MapsSlot(w, w', space, lo, mid, w.holder[f].slot); }
    }
  }

  lemma UnmapKeepsOwned(w: World, w': World, space: nat, lo: nat, mid: nat)
    requires Owned(w) && UnmapEffect(w, w', space, lo, mid)
    ensures Owned(w')
  {
    forall s ensures EntryHolds(w', s) {
      assert EntryHolds(w, s) && UnmapsSlot(w, w', space, lo, mid, s);
      if s in w.leaf { assert UnmapsFrame(w, w', space, lo, mid, w.leaf[s]); }
    }
    forall f ensures HolderHas(w', f) {
      assert HolderHas(w, f) && UnmapsFrame(w, w', space, lo, mid, f);
      if f in w.holder && w.holder[f].Entry? { assert UnmapsSlot(w, w', space, lo, mid, w.holder[f].slot); }
    }
  }

  datatype Call = Map(space: nat, lo: nat, mid: nat) | Unmap(space: nat, lo: nat, mid: nat)

  /** A call, successful or not; `mid` is how far it got. */
  ghost predicate Step(w: World, c: Call, w': World) {
    match c
    case Map(space, lo, mid) => MapEffect(w, w', space, lo, mid)
    case Unmap(space, lo, mid) => UnmapEffect(w, w', space, lo, mid)
  }

  ghost predicate IsRun(worlds: seq<World>, calls: seq<Call>) {
    && |worlds| == |calls| + 1
    && forall i :: 0 <= i < |calls| ==> Step(worlds[i], calls[i], worlds[i + 1])
  }

  /** Over every run, failed calls included, every frame keeps a single owner. */
  lemma {:induction false} RunKeepsOwned(worlds: seq<World>, calls: seq<Call>, k: nat)
    requires IsRun(worlds, calls) && k < |worlds| && Owned(worlds[0])
    ensures Owned(worlds[k])
  {
    if k > 0 {
      RunKeepsOwned(worlds, calls, k - 1);
      var w, w' := worlds[k - 1], worlds[k];
      assert Step(w, calls[k - 1], w');
      match calls[k - 1]
      case Map(space, lo, mid) => MapKeepsOwned(w, w', space, lo, mid);
      case Unmap(space, lo, mid) => UnmapKeepsOwned(w, w', space, lo, mid);
    }
  }

  /** A frame of an intermediate table, or a lost one, is never given back. */
  lemma {:induction false} UnmappedHoldersStay(worlds: seq<World>, calls: seq<Call>, i: nat, k: nat, f: Frame)
    requires IsRun(worlds, calls) && i <= k < |worlds|
    requires f in worlds[i].holder && !worlds[i].holder[f].Entry?
    ensures f in worlds[k].holder && worlds[k].holder[f] == worlds[i].holder[f]
    decreases k - i
  {
    if i < k {
      UnmappedHoldersStay(worlds, calls, i, k - 1, f);
      var w, w' := worlds[k - 1], worlds[k];
      assert Step(w, calls[k - 1], w');
      match calls[k - 1]
      case Map(space, lo, mid) => assert MapsFrame(w, w', space, lo, mid, f);
      case Unmap(space, lo, mid) => assert UnmapsFrame(w, w', space, lo, mid, f);
    }
  }

  /** Conservation: whenever a run comes back to the same page map, the same frames are in
      use, up to intermediate tables and frames lost by failed calls. */
  lemma SamePageMapSameFrames(worlds: seq<World>, calls: seq<Call>, i: nat, k: nat, f: Frame)
    requires IsRun(worlds, calls) && Owned(worlds[0]) && i <= k < |worlds|
    requires worlds[k].leaf == worlds[i].leaf
    ensures f in worlds[i].holder ==> f in worlds[k].holder
    ensures f in worlds[k].holder && f !in worlds[i].holder ==> !worlds[k].holder[f].Entry?
  {
    var w, w' := worlds[i], worlds[k];
    RunKeepsOwned(worlds, calls, i);
    RunKeepsOwned(worlds, calls, k);
    assert HolderHas(w, f) && HolderHas(w', f);
    if f in w'.holder && w'.holder[f].Entry? { assert EntryHolds(w, w'.holder[f].slot); }
    if f in w.holder {
      if w.holder[f].Entry? { assert EntryHolds(w', w.holder[f].slot); }
      else { UnmappedHoldersStay(worlds, calls, i, k, f); }
    }
  }

  /** No frame was lost by this call. */
  ghost predicate LosesNothing(w: World, w': World) {
    forall f :: f in w'.holder && w'.holder[f] == Lost ==> f in w.holder
  }

  ghost predicate IsLostNow(w: World, w': World, f: Frame) {
    f in w'.holder && f !in w.holder && w'.holder[f] == Lost
  }

  ghost predicate LosesAtMostOne(w: World, w': World) {
    forall f, g :: IsLostNow(w, w', f) && IsLostNow(w, w', g) ==> f == g
  }

  /** A successful map followed by an unmap of the same range restores the page map and the
      set of free frames, except for the intermediate tables the mapping needed. */
  lemma UnmapUndoesMap(w: World, w1: World, w2: World, space: nat, lo: nat, hi: nat, f: Frame)
    requires Owned(w) && MapEffect(w, w1, space, lo, hi) && LosesNothing(w, w1)
    requires UnmapEffect(w1, w2, space, lo, hi)
    ensures w2.leaf == w.leaf
    ensures f in w.holder ==> f in w2.holder && w2.holder[f] == w.holder[f]
    ensures f in w2.holder && f !in w.holder ==> w2.holder[f] == Table
  {
    forall s ensures s in w2.leaf <==> s in w.leaf
             ensures s in w.leaf ==> w2.leaf[s] == w.leaf[s]
    {
      assert MapsSlot(w, w1, space, lo, hi, s) && UnmapsSlot(w1, w2, space, lo, hi, s);
    }
    assert MapsFrame(w, w1, space, lo, hi, f) && UnmapsFrame(w1, w2, space, lo, hi, f);
    assert HolderHas(w, f);
    if f in w.holder && w.holder[f].Entry? { assert MapsSlot(w, w1, space, lo, hi, w.holder[f].slot); }
  }

  /** The words of every frame in use are what they were. */
  ghost predicate SameWords(w: World, mem: Memory, mem': Memory) {
    mem'.Keys == mem.Keys && forall f :: f in w.holder && f in mem ==> mem'[f] == mem[f]
  }

  /** The entry leads to a frame that holds only zeros. */
  ghost predicate Zeroed(w: World, mem: Memory, s: Slot) {
    s in w.leaf && w.leaf[s] in mem && mem[w.leaf[s]] == ZeroFrame()
  }

  /** What a call that maps pages `lo .. mid` leaves behind, words included. */
  ghost predicate MapsFresh(w: World, w': World, mem: Memory, mem': Memory, space: nat, lo: nat, mid: nat) {
    && MapEffect(w, w', space, lo, mid) && SameWords(w, mem, mem')
    && forall s :: In(s, space, lo, mid) ==> Zeroed(w', mem', s)
  }

  lemma MapsFreshComposes(w: World, w1: World, w2: World, mem: Memory, mem1: Memory, mem2: Memory,
                          space: nat, lo: nat, mid: nat, hi: nat)
    requires lo <= mid <= hi && MapsFresh(w, w1, mem, mem1, space, lo, mid)
    requires MapsFresh(w1, w2, mem1, mem2, space, mid, hi)
    ensures MapsFresh(w, w2, mem, mem2, space, lo, hi)
    ensures LosesNothing(w, w1) && LosesNothing(w1, w2) ==> LosesNothing(w, w2)
    ensures LosesNothing(w, w1) && LosesAtMostOne(w1, w2) ==> LosesAtMostOne(w, w2)
  {
    MapEffectsCompose(w, w1, w2, space, lo, mid, hi);
    forall f ensures f in w.holder ==> f in w1.holder
             ensures f in w1.holder ==> f in w2.holder && w2.holder[f] == w1.holder[f]
    {
      assert MapsFrame(w, w1, space, lo, mid, f) && MapsFrame(w1, w2, space, mid, hi, f);
    }
    assert LosesNothing(w, w1) ==> forall f :: IsLostNow(w, w2, f) ==> IsLostNow(w1, w2, f);
    forall s | In(s, space, lo, hi) ensures Zeroed(w2, mem2, s) {
      assert MapsSlot(w, w1, space, lo, mid, s) && MapsSlot(w1, w2, space, mid, hi, s);
    }
  }

  /** The mapper's `map_to`: missing intermediate tables take frames, and on success the
      entry takes the frame it was called with. */
  ghost predicate MapToEffect(w: World, w': World, slot: Slot, frame: Frame, ok: bool) {
    && (ok ==> slot !in w.leaf)
    && w'.leaf == (if ok then w.leaf[slot := frame] else w.leaf)
    && frame in w'.holder && w'.holder[frame] == (if ok then Entry(slot) else Lost)
    && (forall f :: f in w.holder && f != frame ==> f in w'.holder && w'.holder[f] == w.holder[f])
    && (forall f :: f in w'.holder && f !in w.holder && f != frame ==> w'.holder[f] == Table)
  }

  /** A page mapped with a frame that was free until now. */
  lemma MapToIsMapEffect(w: World, w': World, slot: Slot, frame: Frame, ok: bool)
    requires frame !in w.holder && MapToEffect(World(w.leaf, w.holder[frame := Lost]), w', slot, frame, ok)
    ensures MapEffect(w, w', slot.space, slot.page, if ok then slot.page + 1 else slot.page)
    ensures (ok ==> LosesNothing(w, w')) && LosesAtMostOne(w, w')
  {
    var next := if ok then slot.page + 1 else slot.page;
    forall s ensures MapsSlot(w, w', slot.space, slot.page, next, s) {}
  }

  function FirstPage(start: nat): nat { start / PAGE }

  function EndPage(start: nat, len: nat): nat { AlignUp(start + len) / PAGE }

  class AddressSpaces {
    const alloc: FrameAllocator
    const huge: set<Slot>              // pages that lie in a larger page of their space
    var leaf: map<Slot, Frame>
    ghost var holder: map<Frame, Holder>

    ghost function View(): World
      reads this
    {
      World(leaf, holder)
    }

    /** The frames that have a holder are the frames the allocator has given out. */
    ghost predicate Backed()
      reads this, alloc
    {
      alloc.Valid() && holder.Keys == alloc.inUse
    }

    ghost predicate Valid()
      reads this, alloc
    {
      Backed() && Owned(View())
    }

    constructor (alloc: FrameAllocator, huge: set<Slot>)
      requires alloc.Valid() && alloc.inUse == {}
      ensures Valid() && leaf == map[] && this.alloc == alloc && this.huge == huge
    {
      this.alloc := alloc;
      this.huge := huge;
      leaf := map[];
      holder := map[];
    }

    /** The mapper's `map_to`: takes frames for the intermediate tables that are missing,
        then adds the entry or fails. */
    method MapTo(slot: Slot, frame: Frame) returns (ok: bool)
      requires Backed() && frame in holder && holder[frame] == Lost
      modifies this`leaf, this`holder, alloc
      ensures Backed() && SameWords(old(View()), old(alloc.mem), alloc.mem)
      ensures MapToEffect(old(View()), View(), slot, frame, ok)
      ensures !ok ==> slot in old(leaf) || slot in huge || alloc.Exhausted()
    {
      var missing: nat :| missing <= 3;
      var taken := 0;
      while taken < missing
        invariant Backed() && SameWords(old(View()), old(alloc.mem), alloc.mem) && leaf == old(leaf)
        invariant forall f :: f in old(holder) ==> f in holder && holder[f] == old(holder)[f]
        invariant forall f :: f in holder && f !in old(holder) ==> holder[f] == Table
      {
        var r := alloc.AllocateFrame();
        if r.None? { return false; }
        holder := holder[r.value := Table];
        taken := taken + 1;
      }
      if slot in huge || slot in leaf { return false; }
      leaf := leaf[slot := frame];
      holder := holder[frame := Entry(slot)];
      return true;
    }

    /** One page of the `map_region` loop. */
    method MapPage(slot: Slot) returns (ok: bool)
      requires Valid()
      modifies this`leaf, this`holder, alloc
      ensures Valid()
      ensures MapsFresh(old(View()), View(), old(alloc.mem), alloc.mem, slot.space, slot.page,
                        if ok then slot.page + 1 else slot.page)
      ensures (ok ==> LosesNothing(old(View()), View())) && LosesAtMostOne(old(View()), View())
      ensures !ok ==> slot in old(leaf) || slot in huge || alloc.Exhausted()
    {
      if slot in leaf { return false; }
      var r := alloc.AllocateFrame();
      if r.None? { return false; }
      holder := holder[r.value := Lost];
      ok := MapTo(slot, r.value);
      assert SameWords(old(View()), old(alloc.mem), alloc.mem);
      assert ok ==> Zeroed(View(), alloc.mem, slot);
      MapToIsMapEffect(old(View()), View(), slot, r.value, ok);
      MapKeepsOwned(old(View()), View(), slot.space, slot.page, if ok then slot.page + 1 else slot.page);
    }

    /** Maps new memory at `start .. start + len`. The call fails at the first page that is
        already mapped, lies in a larger page, or finds no frame left; `mid` is that page.
        The pages before it stay mapped. */
    method MapRegion(space: nat, start: nat, len: nat) returns (ok: bool, ghost mid: nat)
      requires Valid()
      modifies this`leaf, this`holder, alloc
      ensures Valid()
      ensures FirstPage(start) <= mid <= EndPage(start, len) && (ok <==> mid == EndPage(start, len))
      ensures MapsFresh(old(View()), View(), old(alloc.mem), alloc.mem, space, FirstPage(start), mid)
      ensures (ok ==> LosesNothing(old(View()), View())) && LosesAtMostOne(old(View()), View())
      ensures !ok ==> Slot(space, mid) in old(leaf) || Slot(space, mid) in huge || alloc.Exhausted()
    {
      var end := EndPage(start, len);
      var page := FirstPage(start);
      ghost var w, mem := View(), alloc.mem;
      while page < end
        invariant FirstPage(start) <= page <= end && Valid()
        invariant MapsFresh(w, View(), mem, alloc.mem, space, FirstPage(start), page)
        invariant LosesNothing(w, View())
      {
        ghost var w1, mem1 := View(), alloc.mem;
        assert MapsSlot(w, w1, space, FirstPage(start), page, Slot(space, page));
        ok := MapPage(Slot(space, page));
        MapsFreshComposes(w, w1, View(), mem, mem1, alloc.mem, space, FirstPage(start), page,
                          if ok then page + 1 else page);
        if !ok { return false, page; }
        page := page + 1;
      }
      return true, end;
    }

    /** Unmaps `start .. start + len` and gives the frames back. The call fails at the first
        page that has no entry, `mid`; the pages before it are gone. */
    method UnmapRegion(space: nat, start: nat, len: nat) returns (ok: bool, ghost mid: nat)
      requires Valid()
      modifies this`leaf, this`holder, alloc
      ensures Valid()
      ensures FirstPage(start) <= mid <= EndPage(start, len) && (ok <==> mid == EndPage(start, len))
      ensures !ok ==> Slot(space, mid) !in old(leaf)
      ensures UnmapEffect(old(View()), View(), space, FirstPage(start), mid)
      ensures SameWords(View(), old(alloc.mem), alloc.mem)
    {
      var end := EndPage(start, len);
      var page := FirstPage(start);
      ghost var w, mem := View(), alloc.mem;
      while page < end
        invariant FirstPage(start) <= page <= end && Valid()
        invariant UnmapEffect(w, View(), space, FirstPage(start), page)
        invariant SameWords(View(), mem, alloc.mem)
      {
        ghost var w1 := View();
        var slot := Slot(space, page);
        assert UnmapsSlot(w, w1, space, FirstPage(start), page, slot);
        if slot !in leaf { return false, page; }
        UnmapPage(slot);
        UnmapEffectsCompose(w, w1, View(), space, FirstPage(start), page, page + 1);
        page := page + 1;
      }
      return true, end;
    }

    /** One page of the `unmap_region` loop: the entry goes, then its frame. */
    method UnmapPage(slot: Slot)
      requires Valid() && slot in leaf
      modifies this`leaf, this`holder, alloc
      ensures Valid()
      ensures UnmapEffect(old(View()), View(), slot.space, slot.page, slot.page + 1)
      ensures SameWords(View(), old(alloc.mem), alloc.mem)
      ensures forall f :: f in holder ==> f in old(holder)
    {
      var frame := leaf[slot];
      assert EntryHolds(View(), slot);
      leaf := leaf - {slot};
      holder := holder - {frame};
      alloc.DeallocateFrame(frame);
      ghost var next := slot.page + 1;
      forall f ensures UnmapsFrame(old(View()), View(), slot.space, slot.page, next, f) {
        assert HolderHas(old(View()), f);
      }
      UnmapKeepsOwned(old(View()), View(), slot.space, slot.page, slot.page + 1);
    }
  }
}
