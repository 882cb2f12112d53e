/** Kernel and user stacks: equal slots of an area of the address space, the lowest page of
    each left unmapped as a guard. */
module Stacks {

  import opened KernelTypes
  import opened Frames
  import opened Mappings

  datatype Area = KernelStacks | UserStacks

  const KSTACK_AREA_START: nat := 0xffff_f000_c000_0000
  const KSTACK_SIZE: nat := 64 * 1024
  const MAX_KSTACKS: nat := 512
  const USER_STACK_START: nat := 0x1000_0000
  const USER_STACK_SIZE: nat := 1024 * 1024

  function AreaStart(a: Area): nat {
    match a case KernelStacks => KSTACK_AREA_START case UserStacks => USER_STACK_START
  }

  function SlotSize(a: Area): nat {
    match a case KernelStacks => KSTACK_SIZE case UserStacks => USER_STACK_SIZE
  }

  // The slots counted in pages, which is how the page tables see them.

  function SlotPages(a: Area): nat {
    match a case KernelStacks => 16 case UserStacks => 256
  }

  /** The first page of a slot, its guard. */
  function GuardPage(a: Area, i: nat): nat {
    match a case KernelStacks => 0xf_ffff_000c_0000 + 16 * i case UserStacks => 0x1_0000 + 256 * i
  }

  /** The page after the last one of a slot. */
  function EndOfSlot(a: Area, i: nat): nat { GuardPage(a, i) + SlotPages(a) }

  predicate OnStack(a: Area, i: nat, page: nat) {
    GuardPage(a, i) < page < EndOfSlot(a, i)
  }

  /** The initial stack pointer of slot `i`: the highest 16-byte boundary with room below
      the end of the slot. */
  function StackTop(a: Area, i: nat): nat { EndOfSlot(a, i) * 4096 - 16 }

  /** Two stacks share no page, and no stack has the guard page of any slot. */
  lemma StacksAreApart(a: Area, i: nat, j: nat, page: nat)
    requires OnStack(a, i, page)
    ensures OnStack(a, j, page) ==> i == j
    ensures page != GuardPage(a, j)
  {
  }

  lemma AlignedMultiple(x: nat, q: nat)
    requires x == q * 4096
    ensures AlignUp(x) == x && x / 4096 == q
  {
    assert (x + 4095) / 4096 == q;
  }

  lemma RoundedTop(x: nat, q: nat)
    requires x == q * 4096 && q > 0
    ensures (x - 8) / 16 * 16 == x - 16 && AlignUp(x - 16 + 1) == x
  {
    assert (x - 8) / 16 == q * 256 - 1;
    assert (x - 16 + 1 + 4095) / 4096 == q;
  }

  /** The base address of a slot, as it is computed from the index. */
  method BaseOfIndex(a: Area, i: nat) returns (base: nat)
    ensures base == GuardPage(a, i) * 4096
  {
    match a
    case KernelStacks =>
      base := KSTACK_AREA_START + i * KSTACK_SIZE;
      AlignedMultiple(base, GuardPage(a, i));
      base := AlignUp(base);
    case UserStacks =>
      var area, at := USER_STACK_START, i * USER_STACK_SIZE;
      AlignedMultiple(area, 0x1_0000);
      AlignedMultiple(at, 256 * i);
      base := AlignUp(area) + AlignUp(at);
  }

  /** Start, end and initial stack pointer of a slot, as allocating computes them. */
  method PlaceStack(a: Area, i: nat) returns (start: nat, end: nat, top: nat)
    ensures start == (GuardPage(a, i) + 1) * 4096 && end == EndOfSlot(a, i) * 4096 && top == StackTop(a, i)
  {
    var base := BaseOfIndex(a, i);
    start := base + PAGE;
    AlignedMultiple(start, GuardPage(a, i) + 1);
    start := AlignUp(start);
    end := base + SlotSize(a);
    AlignedMultiple(end, EndOfSlot(a, i));
    end := AlignUp(end);
    RoundedTop(end, EndOfSlot(a, i));
    top := (end - 8) / 16 * 16;
  }

  /** Freeing inverts allocating: from the 16-byte aligned top alone it computes exactly the
      start, the end and the index of the slot. */
  method LocateStack(a: Area, top: nat, ghost i: nat) returns (start: nat, end: nat, idx: nat)
    requires top == StackTop(a, i)
    ensures start == (GuardPage(a, i) + 1) * 4096 && end == EndOfSlot(a, i) * 4096 && idx == i
  {
    RoundedTop(EndOfSlot(a, i) * 4096, EndOfSlot(a, i));
    end := AlignUp(top + 1);
    var base := end - SlotSize(a);
    start := base + PAGE;
    AlignedMultiple(start, GuardPage(a, i) + 1);
    start := AlignUp(start);
    idx := (base - AreaStart(a)) / SlotSize(a);
  }

  /** The pages that mapping or unmapping the stack goes through. */
  lemma PagesOfStack(a: Area, i: nat, start: nat, end: nat)
    requires start == (GuardPage(a, i) + 1) * 4096 && end == EndOfSlot(a, i) * 4096
    ensures FirstPage(start) == GuardPage(a, i) + 1 && EndPage(start, end - start) == EndOfSlot(a, i)
  {
    AlignedMultiple(start, GuardPage(a, i) + 1);
    AlignedMultiple(end, EndOfSlot(a, i));
  }

  // ---- stacks in the page map ------------------------------------------------------

  type Leaf = map<Slot, Frame>

  /** Every page of the stack is mapped. */
  ghost predicate IsWhole(leaf: Leaf, a: Area, space: nat, i: nat) {
    forall page :: OnStack(a, i, page) ==> Slot(space, page) in leaf
  }

  /** No page of the stack is mapped. */
  ghost predicate IsBare(leaf: Leaf, a: Area, space: nat, i: nat) {
    forall page :: OnStack(a, i, page) ==> Slot(space, page) !in leaf
  }

  ghost predicate IsGuarded(leaf: Leaf, a: Area, space: nat, i: nat) {
    Slot(space, GuardPage(a, i)) !in leaf
  }

  /** Nothing but the pages of stack `i` differs, in this or any other address space. */
  ghost predicate OnlyStackChanges(leaf: Leaf, leaf': Leaf, a: Area, space: nat, i: nat) {
    forall s: Slot :: !(s.space == space && OnStack(a, i, s.page)) ==>
      (s in leaf <==> s in leaf') && (s in leaf ==> leaf'[s] == leaf[s])
  }

  /** Other stacks, in this or any other area and space, and all guards stay as they are. */
  lemma OtherSlotsStay(leaf: Leaf, leaf': Leaf, a: Area, space: nat, i: nat, b: Area, space': nat, j: nat)
    requires OnlyStackChanges(leaf, leaf', a, space, i) && (space' != space || a == b)
    ensures (space' != space || j != i) && IsWhole(leaf, b, space', j) ==> IsWhole(leaf', b, space', j)
    ensures (space' != space || j != i) && IsBare(leaf, b, space', j) ==> IsBare(leaf', b, space', j)
    ensures IsGuarded(leaf, b, space', j) ==> IsGuarded(leaf', b, space', j)
  {
  }

  lemma MappingStack(w: World, w': World, a: Area, space: nat, i: nat, mid: nat)
    requires MapEffect(w, w', space, GuardPage(a, i) + 1, mid) && mid <= EndOfSlot(a, i)
    ensures OnlyStackChanges(w.leaf, w'.leaf, a, space, i)
    ensures mid == EndOfSlot(a, i) ==> IsBare(w.leaf, a, space, i) && IsWhole(w'.leaf, a, space, i)
  {
    var lo := GuardPage(a, i) + 1;
    forall s: Slot
      ensures !(s.space == space && OnStack(a, i, s.page)) ==>
                (s in w.leaf <==> s in w'.leaf) && (s in w.leaf ==> w'.leaf[s] == w.leaf[s])
    {
      assert MapsSlot(w, w', space, lo, mid, s);
    }
    forall page: nat ensures MapsSlot(w, w', space, lo, mid, Slot(space, page)) {}
  }

  lemma UnmappingStack(w: World, w': World, a: Area, space: nat, i: nat, mid: nat)
    requires UnmapEffect(w, w', space, GuardPage(a, i) + 1, mid) && mid <= EndOfSlot(a, i)
    ensures OnlyStackChanges(w.leaf, w'.leaf, a, space, i)
    ensures IsBare(w.leaf, a, space, i) ==> IsBare(w'.leaf, a, space, i)
    ensures mid == EndOfSlot(a, i) ==> IsWhole(w.leaf, a, space, i) && IsBare(w'.leaf, a, space, i)
  {
    var lo := GuardPage(a, i) + 1;
    forall s: Slot
      ensures !(s.space == space && OnStack(a, i, s.page)) ==>
                (s in w.leaf <==> s in w'.leaf) && (s in w.leaf ==> w'.leaf[s] == w.leaf[s])
    {
      assert UnmapsSlot(w, w', space, lo, mid, s);
    }
    forall page: nat ensures UnmapsSlot(w, w', space, lo, mid, Slot(space, page)) {}
  }

  /** Maps the pages of stack `i` and answers its top. It fails only for want of frames, if
      nothing but stacks lives in the area. */
  method BuildStack(spaces: AddressSpaces, a: Area, space: nat, i: nat) returns (r: Option<nat>)
    requires spaces.Valid()
    modifies spaces, spaces.alloc
    ensures spaces.Valid() && OnlyStackChanges(old(spaces.leaf), spaces.leaf, a, space, i)
    ensures r.Some? ==> r.value == StackTop(a, i)
    ensures r.Some? ==> IsWhole(spaces.leaf, a, space, i) && IsBare(old(spaces.leaf), a, space, i)
    ensures r.None? && IsBare(old(spaces.leaf), a, space, i)
            && (forall s :: s in spaces.huge ==> !OnStack(a, i, s.page))
            ==> spaces.alloc.Exhausted()
  {
    var start, end, top := PlaceStack(a, i);
    PagesOfStack(a, i, start, end);
    ghost var w := spaces.View();
    var ok, mid := spaces.MapRegion(space, start, end - start);
    MappingStack(w, spaces.View(), a, space, i, mid);
    if !ok { return None; }
    return Some(top);
  }

  /** Unmaps the stack with the given top, working from the top alone. It succeeds exactly
      when every page of the stack is there. */
  method DropStack(spaces: AddressSpaces, a: Area, space: nat, top: nat, ghost i: nat)
    returns (ok: bool, idx: nat)
    requires spaces.Valid() && top == StackTop(a, i)
    modifies spaces, spaces.alloc
    ensures spaces.Valid() && OnlyStackChanges(old(spaces.leaf), spaces.leaf, a, space, i)
    ensures idx == i && (ok <==> IsWhole(old(spaces.leaf), a, space, i))
    ensures ok ==> IsBare(spaces.leaf, a, space, i)
    ensures IsBare(old(spaces.leaf), a, space, i) ==> IsBare(spaces.leaf, a, space, i)
  {
    var start, end;
    start, end, idx := LocateStack(a, top, i);
    PagesOfStack(a, i, start, end);
    ghost var w := spaces.View();
    ghost var mid;
    ok, mid := spaces.UnmapRegion(space, start, end - start);
    UnmappingStack(w, spaces.View(), a, space, i, mid);
    assert !ok ==> OnStack(a, i, mid);
  }

  // ---- the pools -------------------------------------------------------------------

  /** A live kernel stack is marked and mapped whole, an unmarked slot is bare, and no guard
      page is mapped. */
  ghost predicate KernelSlotOk(leaf: Leaf, space: nat, inUsage: seq<bool>, live: set<nat>, i: nat)
    requires i < |inUsage|
  {
    && (i in live ==> inUsage[i] && IsWhole(leaf, KernelStacks, space, i))
    && (!inUsage[i] ==> IsBare(leaf, KernelStacks, space, i))
    && IsGuarded(leaf, KernelStacks, space, i)
  }

  ghost predicate KernelOk(leaf: Leaf, space: nat, inUsage: seq<bool>, live: set<nat>) {
    && |inUsage| == MAX_KSTACKS && (forall i :: i in live ==> i < MAX_KSTACKS)
    && forall i {:trigger KernelSlotOk(leaf, space, inUsage, live, i)} ::
         0 <= i < MAX_KSTACKS ==> KernelSlotOk(leaf, space, inUsage, live, i)
  }

  /** A live user stack has an index that was given out and is mapped whole, what was not given
      out is bare, and no guard page is mapped. */
  ghost predicate UserSlotOk(leaf: Leaf, space: nat, tidx: nat, live: set<nat>, i: nat) {
    && (i in live ==> i < tidx && IsWhole(leaf, UserStacks, space, i))
    && (i >= tidx ==> IsBare(leaf, UserStacks, space, i))
    && IsGuarded(leaf, UserStacks, space, i)
  }

  ghost predicate UserOk(leaf: Leaf, space: nat, tidx: nat, live: set<nat>) {
    forall i: nat {:trigger UserSlotOk(leaf, space, tidx, live, i)} :: UserSlotOk(leaf, space, tidx, live, i)
  }

  /** What happens to a stack of another space leaves a pool valid. */
  lemma KernelOkElsewhere(leaf: Leaf, leaf': Leaf, a: Area, space: nat, i: nat,
                          space': nat, inUsage: seq<bool>, live: set<nat>)
    requires KernelOk(leaf, space', inUsage, live) && OnlyStackChanges(leaf, leaf', a, space, i) && space != space'
    ensures KernelOk(leaf', space', inUsage, live)
  {
    forall j | 0 <= j < MAX_KSTACKS ensures KernelSlotOk(leaf', space', inUsage, live, j) {
      assert KernelSlotOk(leaf, space', inUsage, live, j);
      OtherSlotsStay(leaf, leaf', a, space, i, KernelStacks, space', j);
    }
  }

  lemma UserOkElsewhere(leaf: Leaf, leaf': Leaf, a: Area, space: nat, i: nat, space': nat, tidx: nat, live: set<nat>)
    requires UserOk(leaf, space', tidx, live) && OnlyStackChanges(leaf, leaf', a, space, i) && space != space'
    ensures UserOk(leaf', space', tidx, live)
  {
    forall j: nat ensures UserSlotOk(leaf', space', tidx, live, j) {
      assert UserSlotOk(leaf, space', tidx, live, j);
      OtherSlotsStay(leaf, leaf', a, space, i, UserStacks, space', j);
    }
  }

  /** The kernel's stacks, all in the kernel's address space. */
  class KernelStackPool {
    const spaces: AddressSpaces
    const space: nat
    const inUsage: array<bool>
    ghost var live: set<nat>

    ghost predicate Valid()
      reads this, spaces, spaces.alloc, inUsage
    {
      spaces.Valid() && KernelOk(spaces.leaf, space, inUsage[..], live)
    }

    /** To begin with no page of the stack area is mapped; the rest of the space may be. */
    constructor (spaces: AddressSpaces, space: nat)
      requires spaces.Valid()
      requires forall i :: 0 <= i < MAX_KSTACKS ==>
                 IsBare(spaces.leaf, KernelStacks, space, i) && IsGuarded(spaces.leaf, KernelStacks, space, i)
      ensures Valid() && this.spaces == spaces && this.space == space && live == {} && fresh(inUsage)
    {
      this.spaces := spaces;
      this.space := space;
      inUsage := new bool[MAX_KSTACKS](_ => false);
      live := {};
    }

    /** Takes the first slot that is not marked. When mapping fails the slot stays marked. */
    method Allocate() returns (r: Option<nat>, ghost i: nat)
      requires Valid()
      modifies this`live, inUsage, spaces, spaces.alloc
      ensures Valid() && OnlyStackChanges(old(spaces.leaf), spaces.leaf, KernelStacks, space, i)
      ensures r.Some? ==> i < MAX_KSTACKS && !old(inUsage[i]) && r.value == StackTop(KernelStacks, i)
      ensures live == if r.Some? then old(live) + {i} else old(live)
      ensures forall j :: 0 <= j < MAX_KSTACKS ==> inUsage[j] == (j == i || old(inUsage[j]))
      ensures r.None? && i < MAX_KSTACKS && (forall s :: s in spaces.huge ==> !OnStack(KernelStacks, i, s.page))
              ==> spaces.alloc.Exhausted()
      ensures r.None? && i >= MAX_KSTACKS ==> forall j :: 0 <= j < MAX_KSTACKS ==> old(inUsage[j])
    {
      var at := 0;
      while at < MAX_KSTACKS && inUsage[at]
        invariant at <= MAX_KSTACKS && forall j :: 0 <= j < at ==> inUsage[j]
      {
        at := at + 1;
      }
      if at == MAX_KSTACKS { return None, at; }
      ghost var leaf, marks := spaces.leaf, inUsage[..];
      assert KernelSlotOk(leaf, space, marks, live, at);
      inUsage[at] := true;
      r := BuildStack(spaces, KernelStacks, space, at);
      i := at;
      if r.Some? { live := live + {at}; }
      forall j | 0 <= j < MAX_KSTACKS ensures KernelSlotOk(spaces.leaf, space, inUsage[..], live, j) {
        assert KernelSlotOk(leaf, space, marks, old(live), j);
        OtherSlotsStay(leaf, spaces.leaf, KernelStacks, space, at, KernelStacks, space, j);
      }
    }

    /** Gives back the stack of slot `i`, known by its top; it succeeds for every live one. */
    method Free(top: nat, ghost i: nat) returns (ok: bool)
      requires Valid() && i < MAX_KSTACKS && top == StackTop(KernelStacks, i)
      modifies this`live, inUsage, spaces, spaces.alloc
      ensures Valid() && OnlyStackChanges(old(spaces.leaf), spaces.leaf, KernelStacks, space, i)
      ensures i in old(live) ==> ok
      ensures live == if ok then old(live) - {i} else old(live)
      ensures ok ==> !inUsage[i] && IsBare(spaces.leaf, KernelStacks, space, i)
      ensures forall j :: 0 <= j < MAX_KSTACKS ==> inUsage[j] == (old(inUsage[j]) && !(ok && j == i))
    {
      ghost var leaf, marks := spaces.leaf, inUsage[..];
      assert KernelSlotOk(leaf, space, marks, live, i);
      var idx;
      ok, idx := DropStack(spaces, KernelStacks, space, top, i);
      if ok {
        inUsage[idx] := false;
        live := live - {i};
      }
      forall j | 0 <= j < MAX_KSTACKS ensures KernelSlotOk(spaces.leaf, space, inUsage[..], live, j) {
        assert KernelSlotOk(leaf, space, marks, old(live), j);
        OtherSlotsStay(leaf, spaces.leaf, KernelStacks, space, i, KernelStacks, space, j);
      }
    }
  }

  /** The user stacks of one process, placed by an index that only grows. */
  class UserStackPool {
    const spaces: AddressSpaces
    const space: nat
    var tidx: nat
    ghost var live: set<nat>

    ghost predicate Valid()
      reads this, spaces, spaces.alloc
    {
      spaces.Valid() && UserOk(spaces.leaf, space, tidx, live)
    }

    /** The first thread's stack, index 0, comes with the new address space, whose stack area
        is empty. */
    constructor (spaces: AddressSpaces, space: nat)
      requires spaces.Valid()
      requires forall i: nat ::
                 IsBare(spaces.leaf, UserStacks, space, i) && IsGuarded(spaces.leaf, UserStacks, space, i)
      modifies spaces, spaces.alloc
      ensures Valid() && this.spaces == spaces && this.space == space && tidx == 1 && live <= {0}
      ensures OnlyStackChanges(old(spaces.leaf), spaces.leaf, UserStacks, space, 0)
    {
      this.spaces := spaces;
      this.space := space;
      this.tidx := 1;
      live := {};
      new;
      ghost var leaf := spaces.leaf;
      var r := BuildStack(spaces, UserStacks, space, 0);
      if r.Some? { live := {0}; }
      forall j: nat ensures UserSlotOk(spaces.leaf, space, tidx, live, j) {
        assert IsBare(leaf, UserStacks, space, j) && IsGuarded(leaf, UserStacks, space, j);
        OtherSlotsStay(leaf, spaces.leaf, UserStacks, space, 0, UserStacks, space, j);
      }
    }

    /** A further thread takes the next index for good. */
    method TakeIndex() returns (i: nat)
      requires Valid()
      modifies this`tidx
      ensures Valid() && i == old(tidx) && tidx == i + 1 && i !in live
    {
      i := tidx;
      tidx := tidx + 1;
      assert old(UserSlotOk(spaces.leaf, space, tidx, live, tidx));
      forall j: nat ensures UserSlotOk(spaces.leaf, space, tidx, live, j) {
        assert old(UserSlotOk(spaces.leaf, space, tidx, live, j));
      }
    }

    /** The stack of an index that was given out. */
    method Build(i: nat) returns (r: Option<nat>)
      requires Valid() && i < tidx && i !in live
      modifies this`live, spaces, spaces.alloc
      ensures Valid() && OnlyStackChanges(old(spaces.leaf), spaces.leaf, UserStacks, space, i)
      ensures r.Some? ==> r.value == StackTop(UserStacks, i)
      ensures live == if r.Some? then old(live) + {i} else old(live)
    {
      ghost var leaf := spaces.leaf;
      r := BuildStack(spaces, UserStacks, space, i);
      if r.Some? { live := live + {i}; }
      forall j: nat ensures UserSlotOk(spaces.leaf, space, tidx, live, j) {
        assert UserSlotOk(leaf, space, tidx, old(live), j);
        OtherSlotsStay(leaf, spaces.leaf, UserStacks, space, i, UserStacks, space, j);
      }
    }

    /** Gives back the stack with the given top; it succeeds for every live one. */
    method Free(top: nat, ghost i: nat) returns (ok: bool)
      requires Valid() && top == StackTop(UserStacks, i)
      modifies this`live, spaces, spaces.alloc
      ensures Valid() && OnlyStackChanges(old(spaces.leaf), spaces.leaf, UserStacks, space, i)
      ensures i in old(live) ==> ok
      ensures live == if ok then old(live) - {i} else old(live)
      ensures ok ==> IsBare(spaces.leaf, UserStacks, space, i)
    {
      ghost var leaf := spaces.leaf;
      assert UserSlotOk(leaf, space, tidx, live, i);
      var idx;
      ok, idx := DropStack(spaces, UserStacks, space, top, i);
      if ok { live := live - {i}; }
      forall j: nat ensures UserSlotOk(spaces.leaf, space, tidx, live, j) {
        assert UserSlotOk(leaf, space, tidx, old(live), j);
        OtherSlotsStay(leaf, spaces.leaf, UserStacks, space, i, UserStacks, space, j);
      }
    }
  }

  /** The kernel's stacks and those of any number of processes, in one memory. */
  class StackPools {
    const kernel: KernelStackPool
    var users: seq<UserStackPool>

    /** Every pool is valid, and each has an address space of its own. */
    ghost predicate Valid()
      reads this, kernel, kernel.inUsage, kernel.spaces, kernel.spaces.alloc, users
    {
      && kernel.Valid()
      && (forall u :: u in users ==> u.spaces == kernel.spaces && u.space != kernel.space && u.Valid())
      && (forall i, j :: 0 <= i < j < |users| ==> users[i] != users[j] && users[i].space != users[j].space)
    }

    constructor (kernel: KernelStackPool)
      requires kernel.Valid()
      ensures Valid() && this.kernel == kernel && users == []
    {
      this.kernel := kernel;
      users := [];
    }

    /** A new process: a kernel stack and, in a fresh address space, the first user stack. */
    method NewProcess(space: nat) returns (kstack: Option<nat>)
      requires Valid() && space != kernel.space && forall u :: u in users ==> u.space != space
      requires forall i: nat :: IsBare(kernel.spaces.leaf, UserStacks, space, i)
                                && IsGuarded(kernel.spaces.leaf, UserStacks, space, i)
      modifies this, kernel`live, kernel.inUsage, kernel.spaces, kernel.spaces.alloc
      ensures Valid() && old(users) <= users
      ensures kstack.Some? <==> |users| == |old(users)| + 1
      ensures kstack.Some? ==> fresh(users[|old(users)|]) && users[|old(users)|].space == space
    {
      ghost var leaf := kernel.spaces.leaf;
      ghost var i;
      kstack, i := kernel.Allocate();
      forall u | u in users ensures u.Valid() {
        UserOkElsewhere(leaf, kernel.spaces.leaf, KernelStacks, kernel.space, i, u.space, u.tidx, u.live);
      }
      if kstack.None? { return; }
      forall j: nat ensures IsBare(kernel.spaces.leaf, UserStacks, space, j)
                            && IsGuarded(kernel.spaces.leaf, UserStacks, space, j)
      {
        OtherSlotsStay(leaf, kernel.spaces.leaf, KernelStacks, kernel.space, i, UserStacks, space, j);
      }
      leaf := kernel.spaces.leaf;
      var pool := new UserStackPool(kernel.spaces, space);
      KernelOkElsewhere(leaf, kernel.spaces.leaf, UserStacks, space, 0, kernel.space, kernel.inUsage[..], kernel.live);
      forall u | u in users ensures u.Valid() {
        UserOkElsewhere(leaf, kernel.spaces.leaf, UserStacks, space, 0, u.space, u.tidx, u.live);
      }
      users := users + [pool];
    }

    /** The pools other than `users[k]` were valid on the page map `leaf`. */
    ghost predicate ValidWithout(leaf: Leaf, k: nat)
      reads this, kernel, kernel.inUsage, users
    {
      && KernelOk(leaf, kernel.space, kernel.inUsage[..], kernel.live)
      && (forall u :: u in users ==> u.spaces == kernel.spaces && u.space != kernel.space)
      && (forall i, j :: 0 <= i < j < |users| ==> users[i] != users[j] && users[i].space != users[j].space)
      && (forall j :: 0 <= j < |users| && j != k ==> UserOk(leaf, users[j].space, users[j].tidx, users[j].live))
    }

    /** A change to one stack of a user pool leaves the other pools as valid as before. */
    lemma OthersStay(leaf: Leaf, k: nat, i: nat)
      requires k < |users| && ValidWithout(leaf, k) && users[k].Valid()
      requires OnlyStackChanges(leaf, kernel.spaces.leaf, UserStacks, users[k].space, i)
      ensures Valid()
    {
      var leaf', space := kernel.spaces.leaf, users[k].space;
      KernelOkElsewhere(leaf, leaf', UserStacks, space, i, kernel.space, kernel.inUsage[..], kernel.live);
      forall j | 0 <= j < |users| ensures users[j].Valid() {
        if j != k { UserOkElsewhere(leaf, leaf', UserStacks, space, i, users[j].space, users[j].tidx, users[j].live); }
      }
    }

    /** A new thread of process `k`: the index is taken first, then both stacks are built. An
        error leaves the index taken, and what was built stays. */
    method NewThread(k: nat) returns (kstack: Option<nat>, ustack: Option<nat>)
      requires Valid() && k < |users|
      modifies users[k], kernel`live, kernel.inUsage, kernel.spaces, kernel.spaces.alloc
      ensures Valid() && users[k].tidx == old(users[k].tidx) + 1
      ensures users[k].live == old(users[k].live) + if ustack.Some? then {old(users[k].tidx)} else {}
      ensures old(kernel.live) <= kernel.live
      ensures ustack.Some? ==> kstack.Some? && ustack.value == StackTop(UserStacks, old(users[k].tidx))
    {
      var next := users[k].TakeIndex();
      kstack := NewKernelStack();
      if kstack.None? { return kstack, None; }
      ghost var leaf := kernel.spaces.leaf;
      assert ValidWithout(leaf, k);
      ustack := users[k].Build(next);
      assert ValidWithout(leaf, k);
      OthersStay(leaf, k, next);
    }

    method NewKernelStack() returns (r: Option<nat>)
      requires Valid()
      modifies kernel`live, kernel.inUsage, kernel.spaces, kernel.spaces.alloc
      ensures Valid() && old(kernel.live) <= kernel.live
      ensures r.Some? <==> kernel.live != old(kernel.live)
    {
      ghost var leaf := kernel.spaces.leaf;
      ghost var i;
      assert forall j :: j in kernel.live ==> kernel.inUsage[j] by {
        forall j | j in kernel.live ensures kernel.inUsage[j] {
          assert KernelSlotOk(leaf, kernel.space, kernel.inUsage[..], kernel.live, j);
        }
      }
      r, i := kernel.Allocate();
      forall u | u in users ensures u.Valid() {
        UserOkElsewhere(leaf, kernel.spaces.leaf, KernelStacks, kernel.space, i, u.space, u.tidx, u.live);
      }
    }

    /** The reaper frees the two stacks of a thread one after the other. */
    method FreeKernelStack(top: nat, ghost i: nat) returns (ok: bool)
      requires Valid() && i < MAX_KSTACKS && top == StackTop(KernelStacks, i)
      modifies kernel`live, kernel.inUsage, kernel.spaces, kernel.spaces.alloc
      ensures Valid() && (i in old(kernel.live) ==> ok)
      ensures kernel.live == if ok then old(kernel.live) - {i} else old(kernel.live)
    {
      ghost var leaf := kernel.spaces.leaf;
      ok := kernel.Free(top, i);
      forall u | u in users ensures u.Valid() {
        UserOkElsewhere(leaf, kernel.spaces.leaf, KernelStacks, kernel.space, i, u.space, u.tidx, u.live);
      }
    }

    method FreeUserStack(k: nat, top: nat, ghost i: nat) returns (ok: bool)
      requires Valid() && k < |users| && top == StackTop(UserStacks, i)
      modifies users[k], kernel.spaces, kernel.spaces.alloc
      ensures Valid() && (i in old(users[k].live) ==> ok)
      ensures users[k].live == if ok then old(users[k].live) - {i} else old(users[k].live)
    {
      ghost var leaf := kernel.spaces.leaf;
      assert ValidWithout(leaf, k);
      ok := users[k].Free(top, i);
      assert ValidWithout(leaf, k);
      OthersStay(leaf, k, i);
    }
  }

  /** In every state of every run, no two pages of live stacks, whosever they are, have a frame
      in common, and no live stack has its guard page mapped. */
  lemma LiveStacksAreApart(pools: StackPools, s: Slot, t: Slot)
    requires pools.Valid() && OnLiveStack(pools, s) && OnLiveStack(pools, t)
    ensures s in pools.kernel.spaces.leaf && t in pools.kernel.spaces.leaf
    ensures pools.kernel.spaces.leaf[s] == pools.kernel.spaces.leaf[t] ==> s == t
  {
    LiveStackIsMapped(pools, s);
    LiveStackIsMapped(pools, t);
    if pools.kernel.spaces.leaf[s] == pools.kernel.spaces.leaf[t] { MappedOnce(pools.kernel.spaces.View(), s, t); }
  }

  /** The slot is a page of a live stack of some pool. */
  ghost predicate OnLiveStack(pools: StackPools, s: Slot)
    reads pools, pools.kernel, pools.users
  {
    || (s.space == pools.kernel.space && exists i :: i in pools.kernel.live && OnStack(KernelStacks, i, s.page))
    || (exists u :: u in pools.users && s.space == u.space && exists i :: i in u.live && OnStack(UserStacks, i, s.page))
  }

  lemma LiveStackIsMapped(pools: StackPools, s: Slot)
    requires pools.Valid() && OnLiveStack(pools, s)
    ensures s in pools.kernel.spaces.leaf
  {
    var k := pools.kernel;
    if s.space == k.space && exists i :: i in k.live && OnStack(KernelStacks, i, s.page) {
      var i :| i in k.live && OnStack(KernelStacks, i, s.page);
      assert KernelSlotOk(k.spaces.leaf, k.space, k.inUsage[..], k.live, i);
      assert Slot(k.space, s.page) in k.spaces.leaf;
    } else {
      var u :| u in pools.users && s.space == u.space && exists i :: i in u.live && OnStack(UserStacks, i, s.page);
      var i :| i in u.live && OnStack(UserStacks, i, s.page);
      assert UserSlotOk(k.spaces.leaf, u.space, u.tidx, u.live, i);
      assert Slot(u.space, s.page) in k.spaces.leaf;
    }
  }

  /** The guard page below every slot that may hold a stack stays unmapped. */
  lemma GuardsAreUnmapped(pools: StackPools, u: UserStackPool, i: nat)
    requires pools.Valid() && u in pools.users
    ensures i < MAX_KSTACKS ==> Slot(pools.kernel.space, GuardPage(KernelStacks, i)) !in pools.kernel.spaces.leaf
    ensures Slot(u.space, GuardPage(UserStacks, i)) !in pools.kernel.spaces.leaf
  {
    var k := pools.kernel;
    assert i < MAX_KSTACKS ==> KernelSlotOk(k.spaces.leaf, k.space, k.inUsage[..], k.live, i);
    assert UserSlotOk(k.spaces.leaf, u.space, u.tidx, u.live, i);
  }
}
