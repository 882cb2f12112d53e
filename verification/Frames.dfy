/** The physical frame allocator: an intrusive free list whose links live in the first
    word of the free frames, filled in batches from the usable memory regions. */
module Frames {

  import opened KernelTypes

  const PAGE: nat := 4096
  const WORDS: nat := 512           // 64-bit words in a frame
  const BATCH: nat := 10000
  const WORD_LIMIT: nat := 0x1_0000_0000_0000_0000

  /** A frame is known by its number, its physical address divided by the page size. */
  type Frame = nat

  datatype Region = Region(start: nat, length: nat)

  function AlignUp(x: nat): nat { (x + PAGE - 1) / PAGE * PAGE }

  function AlignDown(x: nat): nat { x / PAGE * PAGE }

  function FirstFrame(r: Region): Frame { AlignUp(r.start) / PAGE }

  function EndFrame(r: Region): Frame { AlignDown(r.start + r.length) / PAGE }

  /** The whole frames of a region, in order. */
  function FramesOf(r: Region): seq<Frame> {
    var lo, hi := FirstFrame(r), EndFrame(r);
    if lo < hi then seq(hi - lo, i => lo + i) else []
  }

  /** All frames, region after region. */
  function Enumeration(regions: seq<Region>): seq<Frame> {
    if regions == [] then [] else FramesOf(regions[0]) + Enumeration(regions[1..])
  }

  predicate Apart(r: Region, s: Region) {
    r.start + r.length <= s.start || s.start + s.length <= r.start
  }

  /** What the boot loader promises: usable regions do not overlap. */
  ghost predicate Disjoint(regions: seq<Region>) {
    forall i, j :: 0 <= i < j < |regions| ==> Apart(regions[i], regions[j])
  }

  ghost predicate Differ(s: seq<Frame>, i: int, j: int) {
    0 <= i < j < |s| ==> s[i] != s[j]
  }

  ghost predicate Distinct(s: seq<Frame>) {
    forall i, j {:trigger Differ(s, i, j)} :: Differ(s, i, j)
  }

  /** A frame of a region lies inside it. */
  lemma FramesLieInside(r: Region, f: Frame)
    requires f in FramesOf(r)
    ensures r.start <= f * PAGE && (f + 1) * PAGE <= r.start + r.length
  {
  }

  lemma {:induction false} EnumeratedIsInRegion(regions: seq<Region>, f: Frame) returns (i: nat)
    requires f in Enumeration(regions)
    ensures i < |regions| && f in FramesOf(regions[i])
  {
    if f in FramesOf(regions[0]) { i := 0; }
    else {
      i := EnumeratedIsInRegion(regions[1..], f);
      i := i + 1;
    }
  }

  /** Disjoint regions enumerate every frame once. */
  lemma {:induction false} EnumerationIsDistinct(regions: seq<Region>)
    requires Disjoint(regions)
    ensures Distinct(Enumeration(regions))
  {
    if regions != [] {
      var xs, ys := FramesOf(regions[0]), Enumeration(regions[1..]);
      EnumerationIsDistinct(regions[1..]);
      forall f | f in xs ensures f !in ys {
        if f in ys {
          var j := EnumeratedIsInRegion(regions[1..], f);
          assert Apart(regions[0], regions[j + 1]);
          FramesLieInside(regions[0], f);
          FramesLieInside(regions[j + 1], f);
        }
      }
      forall i, j ensures Differ(xs + ys, i, j) {
        assert Differ(ys, i - |xs|, j - |xs|);
        if 0 <= i < |xs| <= j < |xs + ys| { assert xs[i] in xs && ys[j - |xs|] in ys; }
      }
    }
  }

  /** The element at `k` of a sequence of distinct elements is not among the first `k`. */
  lemma NextIsNew(s: seq<Frame>, k: nat)
    requires k < |s| && Distinct(s)
    ensures s[k] !in s[..k] && s[..k + 1] == s[..k] + [s[k]]
  {
    forall i | 0 <= i < k ensures s[..k][i] != s[k] { assert Differ(s, i, k); }
  }

  lemma TailIsDistinct(s: seq<Frame>)
    requires s != [] && Distinct(s)
    ensures Distinct(s[1..]) && s[0] !in s[1..] && forall f :: f in s <==> f == s[0] || f in s[1..]
  {
    forall i, j ensures Differ(s[1..], i, j) { assert Differ(s, i + 1, j + 1); }
    assert forall i :: 0 <= i < |s| - 1 ==> Differ(s, 0, i + 1) && s[1..][i] == s[i + 1];
    assert s == [s[0]] + s[1..];
  }

  lemma PrependedIsDistinct(f: Frame, s: seq<Frame>)
    requires Distinct(s) && f !in s
    ensures Distinct([f] + s)
  {
    forall i, j ensures Differ([f] + s, i, j) { assert Differ(s, i - 1, j - 1); }
  }

  type Memory = map<Frame, seq<nat>>

  /** The kernel's pointer to a frame in the direct mapping of physical memory. */
  function Pointer(offset: nat, f: Frame): nat {
    f * PAGE + offset
  }

  function FrameAt(offset: nat, ptr: nat): Frame
    requires offset <= ptr
  {
    (ptr - offset) / PAGE
  }

  lemma FrameAtPointer(offset: nat, f: Frame)
    ensures FrameAt(offset, Pointer(offset, f)) == f
  {
  }

  /** Following the links from `ptr` visits exactly `free` and ends in a null pointer. */
  ghost predicate Linked(mem: Memory, offset: nat, ptr: nat, free: seq<Frame>)
    decreases |free|
  {
    if free == [] then ptr == 0
    else
      && free[0] in mem && |mem[free[0]]| == WORDS && ptr == Pointer(offset, free[0])
      && Linked(mem, offset, mem[free[0]][0], free[1..])
  }

  /** The list only depends on the words inside its frames. */
  lemma {:induction false} LinkedFrame(mem: Memory, mem': Memory, offset: nat, ptr: nat, free: seq<Frame>)
    requires Linked(mem, offset, ptr, free)
    requires forall f :: f in free && f in mem ==> f in mem' && mem'[f] == mem[f]
    ensures Linked(mem', offset, ptr, free)
    decreases |free|
  {
    if free != [] { LinkedFrame(mem, mem', offset, mem[free[0]][0], free[1..]); }
  }

  function WithWord(words: seq<nat>, at: nat, word: nat): (r: seq<nat>)
    requires at < |words|
  {
    words[at := word]
  }

  function ZeroFrame(): seq<nat> { seq(WORDS, _ => 0) }

  ghost predicate HasWords(mem: Memory, offset: nat, f: Frame) {
    f in mem && |mem[f]| == WORDS && Pointer(offset, f) < WORD_LIMIT
  }

  class FrameAllocator {
    const regions: seq<Region>
    const offset: nat                // of the direct mapping; never zero
    var head: nat                    // pointer to the first free frame, or null
    var currentBatchEnd: nat
    var mem: Memory                  // the machine's memory, frame by frame
    ghost var free: seq<Frame>
    ghost var inUse: set<Frame>

    ghost function All(): seq<Frame> { Enumeration(regions) }

    /** Every enumerated frame has its 512 words. */
    ghost predicate Backed()
      reads this
    {
      forall f {:trigger HasWords(mem, offset, f)} :: f in All() ==> HasWords(mem, offset, f)
    }

    /** A frame enumerated so far is either free or in use; no other frame is. */
    ghost predicate Placed(f: Frame)
      requires currentBatchEnd <= |All()|
      reads this
    {
      && (f in free || f in inUse <==> f in All()[..currentBatchEnd])
      && !(f in free && f in inUse)
    }

    /** Every frame of the machine is in use. */
    ghost predicate Exhausted()
      reads this
    {
      forall f :: f in All() ==> f in inUse
    }

    /** The links are an acyclic list of distinct frames; free frames and frames in
        use partition exactly the frames enumerated so far. */
    ghost predicate Valid()
      reads this
    {
      && offset > 0 && Distinct(All()) && Backed() && currentBatchEnd <= |All()|
      && Linked(mem, offset, head, free) && Distinct(free)
      && forall f {:trigger Placed(f)} :: Placed(f)
    }

    constructor (regions: seq<Region>, offset: nat, mem: Memory)
      requires offset > 0 && Disjoint(regions)
      requires forall f :: f in Enumeration(regions) ==> HasWords(mem, offset, f)
      ensures Valid() && inUse == {} && this.regions == regions && this.offset == offset
    {
      this.regions := regions;
      this.offset := offset;
      this.mem := mem;
      head := 0;
      currentBatchEnd := 0;
      free := [];
      inUse := {};
      new;
      EnumerationIsDistinct(regions);
      AddBatch();
    }

    /** The shared body of `deallocate_frame`: the frame becomes the head of the list. */
    method PushFrame(frame: Frame)
      requires offset > 0 && Backed() && frame in All() && frame !in free
      requires Linked(mem, offset, head, free) && Distinct(free)
      modifies this`head, this`mem, this`free
      ensures Backed() && Linked(mem, offset, head, free) && free == [frame] + old(free) && Distinct(free)
      ensures mem.Keys == old(mem).Keys && forall f :: f in mem && f != frame ==> mem[f] == old(mem)[f]
    {
      ghost var before := mem;
      assert HasWords(mem, offset, frame);
      mem := mem[frame := WithWord(mem[frame], 0, head)];
      assert forall f :: HasWords(before, offset, f) ==> HasWords(mem, offset, f);
      LinkedFrame(before, mem, offset, head, free);
      head := Pointer(offset, frame);
      PrependedIsDistinct(frame, free);
      free := [frame] + free;
      assert free[1..] == old(free) && free[0] == frame;
    }

    /** One turn of the batch loop: the next enumerated frame becomes free. */
    method TakeNext()
      requires Valid() && currentBatchEnd < |All()|
      modifies this`head, this`mem, this`free, this`currentBatchEnd
      ensures Valid() && currentBatchEnd == old(currentBatchEnd) + 1 && |free| == |old(free)| + 1
      ensures mem.Keys == old(mem).Keys && forall f :: f in inUse && f in mem ==> mem[f] == old(mem)[f]
    {
      var frame := Enumeration(regions)[currentBatchEnd];
      NextIsNew(All(), currentBatchEnd);
      assert Placed(frame);
      PushFrame(frame);
      currentBatchEnd := currentBatchEnd + 1;
      forall f ensures Placed(f) { assert old(Placed(f)); }
    }

    /** Puts the next frames of the enumeration on the list, at most 10000. */
    method AddBatch()
      requires Valid()
      modifies this`head, this`mem, this`free, this`currentBatchEnd
      ensures Valid()
      ensures currentBatchEnd ==
                if old(currentBatchEnd) + BATCH <= |All()| then old(currentBatchEnd) + BATCH else |All()|
      ensures |free| == |old(free)| + currentBatchEnd - old(currentBatchEnd)
      ensures mem.Keys == old(mem).Keys && forall f :: f in inUse && f in mem ==> mem[f] == old(mem)[f]
    {
      var count := |Enumeration(regions)|;
      var taken := 0;
      while currentBatchEnd < count && taken < BATCH
        invariant Valid() && currentBatchEnd == old(currentBatchEnd) + taken && taken <= BATCH
        invariant |free| == |old(free)| + taken
        invariant mem.Keys == old(mem).Keys && forall f :: f in inUse && f in mem ==> mem[f] == old(mem)[f]
        decreases count - currentBatchEnd
      {
        TakeNext();
        taken := taken + 1;
      }
    }

    /** On sets: the frame joins the free frames, and no other frame's words change. */
    method DeallocateFrame(frame: Frame)
      requires Valid() && frame in inUse
      modifies this`head, this`mem, this`free, this`inUse
      ensures Valid() && inUse == old(inUse) - {frame}
      ensures mem.Keys == old(mem).Keys && forall f :: f in inUse && f in mem ==> mem[f] == old(mem)[f]
    {
      assert Placed(frame);
      PushFrame(frame);
      inUse := inUse - {frame};
      forall f ensures Placed(f) { assert old(Placed(f)); }
    }

    /** Unlinks the head of a non-empty list and clears its words. */
    method PopFrame() returns (frame: Frame)
      requires Valid() && free != []
      modifies this`head, this`mem, this`free, this`inUse
      ensures Valid() && frame == old(free)[0] && free == old(free)[1..] && inUse == old(inUse) + {frame}
      ensures mem.Keys == old(mem).Keys && frame in mem && mem[frame] == ZeroFrame()
      ensures forall f :: f in mem && f != frame ==> mem[f] == old(mem)[f]
    {
      FrameAtPointer(offset, free[0]);
      frame := FrameAt(offset, head);
      TailIsDistinct(free);
      ghost var before := mem;
      head := mem[frame][0];
      mem := mem[frame := ZeroFrame()];
      assert forall f :: HasWords(before, offset, f) ==> HasWords(mem, offset, f);
      LinkedFrame(before, mem, offset, head, free[1..]);
      free := free[1..];
      inUse := inUse + {frame};
      forall f ensures Placed(f) { assert old(Placed(f)); }
    }

    lemma InUseIsBacked(f: Frame)
      requires Valid() && f in inUse
      ensures f in All() && HasWords(mem, offset, f)
    {
      assert Placed(f);
    }

    lemma FreeMeansAvailable()
      requires Valid() && free != []
      ensures free[0] in All() && free[0] !in inUse
    {
      assert Placed(free[0]);
    }

    /** An empty list after a batch means that every frame is in use. */
    lemma EmptyMeansExhausted()
      requires Valid() && free == [] && currentBatchEnd == |All()|
      ensures Exhausted()
    {
      forall f | f in All() ensures f in inUse { assert Placed(f); }
    }

    /** On sets: some frame that was not in use comes into use and holds only zeros; the
        answer is None exactly when every frame there is was in use. */
    method AllocateFrame() returns (r: Option<Frame>)
      requires Valid()
      modifies this`head, this`mem, this`free, this`inUse, this`currentBatchEnd
      ensures Valid()
      ensures r.None? <==> old(Exhausted())
      ensures r.None? ==> inUse == old(inUse)
      ensures r.Some? ==> r.value in All() && r.value !in old(inUse) && inUse == old(inUse) + {r.value}
      ensures r.Some? ==> r.value in mem && mem[r.value] == ZeroFrame()
      ensures mem.Keys == old(mem).Keys && forall f :: f in old(inUse) && f in mem ==> mem[f] == old(mem)[f]
    {
      if head == 0 {
        AddBatch();
        if head == 0 {
          EmptyMeansExhausted();
          return None;
        }
      }
      FreeMeansAvailable();
      var frame := PopFrame();
      return Some(frame);
    }

    /** The owner of a frame in use writes a word of it. */
    method StoreWord(frame: Frame, at: nat, word: nat)
      requires Valid() && frame in inUse && at < WORDS && word < WORD_LIMIT
      modifies this`mem
      ensures Valid() && mem.Keys == old(mem).Keys
      ensures HasWords(old(mem), offset, frame) && mem == old(mem)[frame := WithWord(old(mem)[frame], at, word)]
    {
      InUseIsBacked(frame);
      assert Placed(frame);
      ghost var before := mem;
      mem := mem[frame := WithWord(mem[frame], at, word)];
      assert forall f :: HasWords(before, offset, f) ==> HasWords(mem, offset, f);
      LinkedFrame(before, mem, offset, head, free);
      forall f ensures Placed(f) { assert old(Placed(f)); }
    }
  }
}
