/** Mapping the memory behind one range of addresses at another one. Donor and target are
    page tables, and may be the same one: that is how `mmap` calls it. The donor may use
    4 KiB pages or larger ones; the target always gets 4 KiB entries. */
module Aliases {

  import opened KernelTypes
  import opened Frames
  import opened Mappings

  const HUGE_PAGES: nat := 512             // 4 KiB pages in a 2 MiB page
  const HUGE_SIZE: nat := HUGE_PAGES * PAGE

  /** How a page table translates a 4 KiB page: by its own entry or as part of a larger
      page. `frame` is where the page's bytes are, in both cases. */
  datatype PageEntry = Small(frame: Frame) | Huge(frame: Frame)

  type Table = map<nat, PageEntry>

  function Min(a: nat, b: nat): nat { if a <= b then a else b }

  /** What the loop does with each page of the range: the frame it maps there, or nothing. */
  type Plan = seq<Option<Frame>>

  function Consecutive(frame: Frame, count: nat): (r: Plan) {
    seq(count, i => Some(frame + i))
  }

  /** The plan for the donor's pages `p .. p + n`, as far as the loop can go; `w` of them are
      covered by the length as a whole. `base` is the page where the direct mapping of
      physical memory starts. A larger page sends the loop 512 pages ahead, wherever in that
      page it stands, and a last page that is covered in part only is then passed over. */
  function PlanOf(donor: Table, base: nat, p: nat, n: nat, w: nat): (r: Plan)
    requires w <= n <= w + 1
    ensures |r| <= n
    ensures forall j :: 0 <= j < |r| && r[j].None? ==> j == w && j == n - 1
    decreases n
  {
    if n == 0 || p !in donor then []
    else if donor[p].Small? then [Some(donor[p].frame)] + PlanOf(donor, base, p + 1, n - 1, if w == 0 then 0 else w - 1)
    else if p < base then []
    else if w == 0 then [None]
    else
      var k := Min(HUGE_PAGES, w);
      Consecutive(p - base, k) + PlanOf(donor, base, p + k, n - k, w - k)
  }

  /** The page lies in the direct mapping of physical memory, whatever its size. */
  predicate IsDirect(donor: Table, base: nat, page: nat) {
    page in donor && base <= page && donor[page].frame == page - base
  }

  /** The target leads to that frame without the call's doing. */
  predicate AlreadyThere(m: Table, page: nat, frame: Frame) {
    page in m && m[page].frame == frame
  }

  /** What a caller can check beforehand, page after page: wherever the loop meets a larger
      page, the whole stretch it takes in one go is directly mapped; and a last page that is
      covered in part only is met by a 4 KiB entry, or is where it should be already. */
  ghost predicate StretchesAreDirect(m: Table, t: nat, donor: Table, base: nat, p: nat, n: nat, w: nat)
    requires w <= n <= w + 1
    decreases n
  {
    if n == 0 then true
    else if p !in donor then false
    else if donor[p].Small? then StretchesAreDirect(m, t + 1, donor, base, p + 1, n - 1, if w == 0 then 0 else w - 1)
    else if w == 0 then AlreadyThere(m, t, donor[p].frame)
    else
      var k := Min(HUGE_PAGES, w);
      && (forall q :: p <= q < p + k ==> IsDirect(donor, base, q))
      && StretchesAreDirect(m, t + k, donor, base, p + k, n - k, w - k)
  }

  /** Page `q` of the donor gets its own frame at its place in the target, by the plan or
      because the target has it there. */
  ghost predicate IsRight(m: Table, t: nat, donor: Table, p: nat, plan: Plan, q: nat) {
    p <= q < p + |plan| ==>
      && q in donor
      && match plan[q - p]
         case Some(f) => f == donor[q].frame
         case None => AlreadyThere(m, t + (q - p), donor[q].frame)
  }

  ghost predicate PlanIsRight(m: Table, t: nat, donor: Table, p: nat, plan: Plan) {
    forall q: nat {:trigger IsRight(m, t, donor, p, plan, q)} :: IsRight(m, t, donor, p, plan, q)
  }

  lemma RightSplits(m: Table, t: nat, donor: Table, p: nat, a: Plan, b: Plan)
    ensures PlanIsRight(m, t, donor, p, a + b) <==>
            PlanIsRight(m, t, donor, p, a) && PlanIsRight(m, t + |a|, donor, p + |a|, b)
  {
    var t', p' := t + |a|, p + |a|;
    forall q: nat
      ensures IsRight(m, t, donor, p, a + b, q) <==> IsRight(m, t, donor, p, a, q) && IsRight(m, t', donor, p', b, q)
    {
    }
    if PlanIsRight(m, t, donor, p, a + b) {
      forall q: nat ensures IsRight(m, t, donor, p, a, q) && IsRight(m, t', donor, p', b, q) {
        assert IsRight(m, t, donor, p, a + b, q);
      }
    }
  }

  lemma RunIsRightIffDirect(m: Table, t: nat, donor: Table, base: nat, p: nat, k: nat)
    requires base <= p
    ensures PlanIsRight(m, t, donor, p, Consecutive(p - base, k)) <==>
            forall q :: p <= q < p + k ==> IsDirect(donor, base, q)
  {
    var run := Consecutive(p - base, k);
    forall q: nat ensures IsRight(m, t, donor, p, run, q) <==> (p <= q < p + k ==> IsDirect(donor, base, q)) {}
    if PlanIsRight(m, t, donor, p, run) {
      forall q | p <= q < p + k ensures IsDirect(donor, base, q) { assert IsRight(m, t, donor, p, run, q); }
    }
  }

  lemma SingleIsRight(m: Table, t: nat, donor: Table, p: nat, o: Option<Frame>)
    ensures PlanIsRight(m, t, donor, p, [o]) <==> IsRight(m, t, donor, p, [o], p)
  {
    forall q: nat ensures IsRight(m, t, donor, p, [o], p) ==> IsRight(m, t, donor, p, [o], q) {}
  }

  /** When the plan reaches the end, it is right exactly under that condition. */
  lemma {:induction false} RightIffDirect(m: Table, t: nat, donor: Table, base: nat, p: nat, n: nat, w: nat)
    requires w <= n <= w + 1 && |PlanOf(donor, base, p, n, w)| == n
    ensures PlanIsRight(m, t, donor, p, PlanOf(donor, base, p, n, w)) <==>
            StretchesAreDirect(m, t, donor, base, p, n, w)
    decreases n
  {
    if n > 0 {
      if donor[p].Small? {
        var w' := if w == 0 then 0 else w - 1;
        RightIffDirect(m, t + 1, donor, base, p + 1, n - 1, w');
        RightSplits(m, t, donor, p, [Some(donor[p].frame)], PlanOf(donor, base, p + 1, n - 1, w'));
        SingleIsRight(m, t, donor, p, Some(donor[p].frame));
      } else if w == 0 {
        SingleIsRight(m, t, donor, p, None);
      } else {
        var k := Min(HUGE_PAGES, w);
        RightIffDirect(m, t + k, donor, base, p + k, n - k, w - k);
        RightSplits(m, t, donor, p, Consecutive(p - base, k), PlanOf(donor, base, p + k, n - k, w - k));
        RunIsRightIffDirect(m, t, donor, base, p, k);
      }
    }
  }

  // ---- the target's page map ------------------------------------------------------

  ghost predicate PlansPage(m: Table, m': Table, t: nat, plan: Plan, q: nat) {
    if t <= q < t + |plan| && plan[q - t].Some?
    then q !in m && q in m' && m'[q] == Small(plan[q - t].value)
    else
      && (q in m <==> q in m') && (q in m ==> m'[q] == m[q])
      && (t <= q < t + |plan| ==> !(q in m && m[q].Small?))
  }

  /** The planned frames are mapped from page `t` on, where nothing was mapped, and no other
      entry differs. */
  ghost predicate PlanEffect(m: Table, m': Table, t: nat, plan: Plan) {
    forall q: nat {:trigger PlansPage(m, m', t, plan, q)} :: PlansPage(m, m', t, plan, q)
  }

  lemma PlanEffectsCompose(m: Table, m1: Table, m2: Table, t: nat, a: Plan, b: Plan)
    requires PlanEffect(m, m1, t, a) && PlanEffect(m1, m2, t + |a|, b)
    ensures PlanEffect(m, m2, t, a + b)
  {
    var t' := t + |a|;
    forall q: nat ensures PlansPage(m, m2, t, a + b, q) {
      assert PlansPage(m, m1, t, a, q) && PlansPage(m1, m2, t', b, q);
    }
  }

  /** Earlier entries stay what they were. */
  ghost predicate Extends(m: Table, m': Table) {
    forall q :: q in m ==> q in m' && m'[q] == m[q]
  }

  lemma EffectExtends(m: Table, m': Table, t: nat, plan: Plan)
    requires PlanEffect(m, m', t, plan)
    ensures Extends(m, m')
  {
    forall q: nat | q in m ensures q in m' && m'[q] == m[q] { assert PlansPage(m, m', t, plan, q); }
  }

  // ---- bytes -----------------------------------------------------------------------

  /** The physical byte behind an address. */
  function ByteAt(m: Table, address: nat): Option<nat> {
    if address / 4096 in m then Some(m[address / 4096].frame * 4096 + address % 4096) else None
  }

  /** Byte `k` of the new range is, after the call, what byte `k` of the donor's was before. */
  ghost predicate SameByte(m': Table, v: nat, donor: Table, from: nat, k: nat) {
    ByteAt(m', v + k).Some? && ByteAt(m', v + k) == ByteAt(donor, from + k)
  }

  /** The `len` bytes from `v` on are the donor's from `from` on. */
  ghost predicate SameRange(m': Table, v: nat, donor: Table, from: nat, len: nat) {
    forall k :: 0 <= k < len ==> SameByte(m', v, donor, from, k)
  }

  ghost predicate SamePage(m': Table, t: nat, donor: Table, p: nat, j: nat) {
    t + j in m' && p + j in donor && m'[t + j].frame == donor[p + j].frame
  }

  /** The pages that hold `len` bytes from a page boundary on, and from `from` on. */
  function PageCount(len: nat): nat { (len + 4095) / 4096 }

  function DonorPages(from: nat, len: nat): nat { PageCount(from % 4096 + len) }

  lemma RangeOfPages(start: nat, len: nat)
    ensures EndPage(start, len) == start / 4096 + PageCount(start % 4096 + len)
    ensures len / 4096 <= PageCount(len) <= len / 4096 + 1
    ensures PageCount(len) <= DonorPages(start, len) <= PageCount(len) + 1
  {
  }

  /** With an aligned `start`, bytes at equal distances lie at equal places of their pages. */
  lemma PageOfByte(start: nat, from: nat, k: nat)
    requires start % 4096 == 0
    ensures var b := from % 4096 + k;
            && (start + from % 4096 + k) / 4096 == start / 4096 + b / 4096
            && (start + from % 4096 + k) % 4096 == b % 4096
            && (from + k) / 4096 == from / 4096 + b / 4096 && (from + k) % 4096 == b % 4096
  {
  }

  lemma ByteIffPage(m': Table, start: nat, donor: Table, from: nat, k: nat)
    requires start % 4096 == 0
    ensures SameByte(m', start + from % 4096, donor, from, k) <==>
            SamePage(m', start / 4096, donor, from / 4096, (from % 4096 + k) / 4096)
  {
    PageOfByte(start, from, k);
  }

  /** Every page of the donor's range has a byte of the range. */
  lemma ByteOfPage(from: nat, len: nat, j: nat) returns (k: nat)
    requires j < DonorPages(from, len) && len > 0
    ensures k < len && (from % 4096 + k) / 4096 == j
  {
    var b := from % 4096;
    k := if j == 0 then 0 else j * 4096 - b;
  }

  lemma PageOfRange(from: nat, len: nat, k: nat)
    requires k < len
    ensures (from % 4096 + k) / 4096 < DonorPages(from, len)
  {
  }

  lemma BytesIffPages(m': Table, start: nat, donor: Table, from: nat, len: nat)
    requires start % 4096 == 0 && len > 0
    ensures SameRange(m', start + from % 4096, donor, from, len) <==>
            (forall j :: 0 <= j < DonorPages(from, len) ==> SamePage(m', start / 4096, donor, from / 4096, j))
  {
    var v, t, p := start + from % 4096, start / 4096, from / 4096;
    if SameRange(m', v, donor, from, len) {
      forall j | 0 <= j < DonorPages(from, len) ensures SamePage(m', t, donor, p, j) {
        var k := ByteOfPage(from, len, j);
        assert SameByte(m', v, donor, from, k);
        ByteIffPage(m', start, donor, from, k);
      }
    }
    if forall j :: 0 <= j < DonorPages(from, len) ==> SamePage(m', t, donor, p, j) {
      forall k | 0 <= k < len ensures SameByte(m', v, donor, from, k) {
        PageOfRange(from, len, k);
        assert SamePage(m', t, donor, p, (from % 4096 + k) / 4096);
        ByteIffPage(m', start, donor, from, k);
      }
    }
  }

  /** An unaligned `start` shifts every byte within its page. */
  lemma UnalignedStartShifts(m': Table, start: nat, donor: Table, from: nat)
    requires start % 4096 != 0
    ensures !SameByte(m', start + from % 4096, donor, from, 0)
  {
    assert (start + from % 4096) % 4096 != from % 4096;
    if ByteAt(m', start + from % 4096).Some? && ByteAt(donor, from).Some? {
      ByteInPage(m'[(start + from % 4096) / 4096].frame, (start + from % 4096) % 4096);
      ByteInPage(donor[from / 4096].frame, from % 4096);
    }
  }

  lemma ByteInPage(f: nat, b: nat)
    requires b < 4096
    ensures (f * 4096 + b) % 4096 == b
  {
  }

  // ---- the exact condition -----------------------------------------------------------

  /** Every one of `n` pages from `p` on is translated. */
  ghost predicate Translated(donor: Table, p: nat, n: nat) {
    forall q :: p <= q < p + n ==> q in donor
  }

  /** The plan for a whole call. */
  function CallPlan(donor: Table, physOffset: nat, from: nat, len: nat): Plan {
    PlanOf(donor, physOffset / 4096, from / 4096, PageCount(len), len / 4096)
  }

  /** What a call that answers Ok leaves behind: earlier entries stay, and from an aligned
      `start` on the plan for the donor's pages, if they were translated before the call. */
  ghost predicate Succeeded(m: Table, m': Table, donor: Table, physOffset: nat, start: nat, from: nat, len: nat) {
    && Extends(m, m')
    && (start % 4096 == 0 && Translated(donor, from / 4096, PageCount(len)) ==>
          var plan := CallPlan(donor, physOffset, from, len);
          |plan| == PageCount(len) && PlanEffect(m, m', start / 4096, plan))
  }

  /** The condition under which the new range is the old one, byte for byte: `start` is
      aligned, the stretches taken in one go are directly mapped, a partly covered last page
      is met by a 4 KiB entry, and both ranges have the same number of pages. A page that the
      call does not map counts if the target leads to the right frame there already. */
  ghost predicate AliasesExactly(m: Table, donor: Table, physOffset: nat, start: nat, from: nat, len: nat) {
    var t, p, n := start / 4096, from / 4096, PageCount(len);
    && start % 4096 == 0
    && StretchesAreDirect(m, t, donor, physOffset / 4096, p, n, len / 4096)
    && (DonorPages(from, len) != n ==> p + n in donor && AlreadyThere(m, t + n, donor[p + n].frame))
  }

  lemma {:induction false} DirectIsTranslated(m: Table, t: nat, donor: Table, base: nat, p: nat, n: nat, w: nat)
    requires w <= n <= w + 1 && StretchesAreDirect(m, t, donor, base, p, n, w)
    ensures Translated(donor, p, n)
    decreases n
  {
    if n > 0 {
      if donor[p].Small? { DirectIsTranslated(m, t + 1, donor, base, p + 1, n - 1, if w == 0 then 0 else w - 1); }
      else if w > 0 {
        var k := Min(HUGE_PAGES, w);
        DirectIsTranslated(m, t + k, donor, base, p + k, n - k, w - k);
        forall q | p <= q < p + k ensures q in donor { assert IsDirect(donor, base, q); }
      }
    }
  }

  lemma PageIffRight(m: Table, m': Table, t: nat, donor: Table, p: nat, plan: Plan, j: nat)
    requires PlanEffect(m, m', t, plan) && j < |plan|
    ensures SamePage(m', t, donor, p, j) <==> IsRight(m, t, donor, p, plan, p + j)
  {
    assert PlansPage(m, m', t, plan, t + j);
  }

  lemma PagesIffRight(m: Table, m': Table, t: nat, donor: Table, p: nat, plan: Plan)
    requires PlanEffect(m, m', t, plan)
    ensures (forall j :: 0 <= j < |plan| ==> SamePage(m', t, donor, p, j)) <==> PlanIsRight(m, t, donor, p, plan)
  {
    forall j | 0 <= j < |plan| ensures SamePage(m', t, donor, p, j) <==> IsRight(m, t, donor, p, plan, p + j) {
      PageIffRight(m, m', t, donor, p, plan, j);
    }
    if forall j :: 0 <= j < |plan| ==> SamePage(m', t, donor, p, j) {
      forall q: nat ensures IsRight(m, t, donor, p, plan, q) {
        if p <= q < p + |plan| { assert SamePage(m', t, donor, p, q - p); }
      }
    }
  }

  /** For every donor, target and arguments, donor and target being one table or two: a call
      that answered Ok with the address `start + from % 4096` has made it the place "where
      from is mapped to", for each of the `len` bytes, if and only if that condition holds. */
  lemma AliasIsExactIff(m: Table, m': Table, donor: Table, physOffset: nat, start: nat, from: nat, len: nat)
    requires Succeeded(m, m', donor, physOffset, start, from, len)
    ensures SameRange(m', start + from % 4096, donor, from, len) <==>
            len == 0 || AliasesExactly(m, donor, physOffset, start, from, len)
  {
    if len == 0 {
    } else if start % 4096 != 0 {
      UnalignedStartShifts(m', start, donor, from);
      assert !SameByte(m', start + from % 4096, donor, from, 0);
    } else {
      BytesIffPages(m', start, donor, from, len);
      AlignedIsExactIff(m, m', donor, physOffset, start, from, len);
    }
  }

  /** The same for one table, as `mmap` uses it, read entirely after the call: the fresh pages
      do not disturb a range that was translated before. */
  lemma SharedTableIsExactIff(m: Table, m': Table, physOffset: nat, start: nat, from: nat, len: nat)
    requires Succeeded(m, m', m, physOffset, start, from, len)
    requires Translated(m, from / 4096, DonorPages(from, len))
    ensures SameRange(m', start + from % 4096, m', from, len) <==>
            len == 0 || AliasesExactly(m, m, physOffset, start, from, len)
  {
    AliasIsExactIff(m, m', m, physOffset, start, from, len);
    var v := start + from % 4096;
    forall k | 0 <= k < len ensures SameByte(m', v, m', from, k) <==> SameByte(m', v, m, from, k) {
      PageOfByte(0, from, k);
      PageOfRange(from, len, k);
      assert ByteAt(m', from + k) == ByteAt(m, from + k);
    }
  }

  lemma AlignedIsExactIff(m: Table, m': Table, donor: Table, physOffset: nat, start: nat, from: nat, len: nat)
    requires Succeeded(m, m', donor, physOffset, start, from, len) && start % 4096 == 0
    ensures (forall j :: 0 <= j < DonorPages(from, len) ==> SamePage(m', start / 4096, donor, from / 4096, j)) <==>
            AliasesExactly(m, donor, physOffset, start, from, len)
  {
    var t, p, n, base := start / 4096, from / 4096, PageCount(len), physOffset / 4096;
    RangeOfPages(from, len);
    if Translated(donor, p, n) {
      var plan := CallPlan(donor, physOffset, from, len);
      PagesIffRight(m, m', t, donor, p, plan);
      RightIffDirect(m, t, donor, base, p, n, len / 4096);
      assert PlansPage(m, m', t, plan, t + n);
      assert SamePage(m', t, donor, p, n) <==> p + n in donor && AlreadyThere(m, t + n, donor[p + n].frame);
    } else {
      if StretchesAreDirect(m, t, donor, base, p, n, len / 4096) {
        DirectIsTranslated(m, t, donor, base, p, n, len / 4096);
      }
      var q :| p <= q < p + n && q !in donor;
      assert !SamePage(m', t, donor, p, q - p);
    }
  }

  /** If the donor's part of the direct mapping is directly mapped throughout, it suffices
      that the ranges have equally many pages and that a partly covered last page has a
      4 KiB entry. */
  lemma {:induction false} DirectRangeSuffices(m: Table, t: nat, donor: Table, base: nat, p: nat, n: nat, w: nat)
    requires w <= n <= w + 1 && Translated(donor, p, n)
    requires forall q :: p <= q < p + n && (base <= q || donor[q].Huge?) ==> IsDirect(donor, base, q)
    requires w < n ==> donor[p + w].Small?
    ensures StretchesAreDirect(m, t, donor, base, p, n, w)
    decreases n
  {
    if n > 0 {
      if donor[p].Small? { DirectRangeSuffices(m, t + 1, donor, base, p + 1, n - 1, if w == 0 then 0 else w - 1); }
      else {
        var k := Min(HUGE_PAGES, w);
        DirectRangeSuffices(m, t + k, donor, base, p + k, n - k, w - k);
      }
    }
  }

  // ---- where the condition fails -----------------------------------------------------

  /** It is not enough that the larger pages are directly mapped: a call that starts in the
      last 4 KiB of a larger page takes the ordinary page behind it in the same stretch. */
  lemma StretchOverrunsLargePage(base: nat, m: Table, m': Table)
    requires m == map[base + 511 := Huge(511), base + 512 := Small(7)]
    requires m' == m[base + 600 := Small(511)][base + 601 := Small(512)]
    ensures forall q :: q in m && m[q].Huge? ==> IsDirect(m, base, q)
    ensures Succeeded(m, m', m, base * 4096, (base + 600) * 4096, (base + 511) * 4096, 8192)
    ensures !SameRange(m', (base + 600) * 4096, m, (base + 511) * 4096, 8192)
  {
    assert PlanOf(m, base, base + 513, 0, 0) == [];
    assert PlanOf(m, base, base + 511, 2, 2) == Consecutive(511, 2) == [Some(511), Some(512)];
    assert !SameByte(m', (base + 600) * 4096, m, (base + 511) * 4096, 4096);
  }

  /** 100 bytes of a larger page: the only page is passed over, and the call answers Ok. */
  lemma PartOfLargePageIsSkipped(base: nat, m: Table)
    requires m == map[base := Huge(0)]
    ensures Succeeded(m, m, m, base * 4096, (base + 600) * 4096, base * 4096, 100)
    ensures !SameRange(m, (base + 600) * 4096, m, base * 4096, 100)
  {
    assert PlanOf(m, base, base, 1, 0) == [None];
    assert !SameByte(m, (base + 600) * 4096, m, base * 4096, 0);
  }

  /** Two bytes across a page boundary: the donor's range has two pages and the target's one. */
  lemma SecondPageIsMissed(m: Table, m': Table)
    requires m == map[0 := Small(3), 1 := Small(4)] && m' == m[10 := Small(3)]
    ensures Succeeded(m, m', m, 0x8000_0000, 10 * 4096, 4095, 2)
    ensures !SameRange(m', 10 * 4096 + 4095, m, 4095, 2)
  {
    assert PlanOf(m, 0x8_0000, 1, 0, 0) == [];
    assert PlanOf(m, 0x8_0000, 0, 1, 0) == [Some(3)];
    assert !SameByte(m', 10 * 4096 + 4095, m, 4095, 1);
  }

  // ---- the loop ------------------------------------------------------------------------

  /** What is left of the length; the subtraction is on 64-bit words. */
  function Remaining(len: nat, mappedSoFar: nat): nat {
    (len - mappedSoFar) % WORD_LIMIT
  }

  /** What one turn of the loop does, with `left` bytes still to go: nothing when it stops. */
  function TurnPlan(donor: Table, base: nat, p: nat, left: nat): (r: Plan) {
    if p !in donor then []
    else if donor[p].Small? then [Some(donor[p].frame)]
    else if p < base then []
    else if left < 4096 then [None]
    else Consecutive(p - base, Min(HUGE_SIZE, left) / 4096)
  }

  /** The bytes it adds to its count. */
  function TurnBytes(donor: Table, p: nat, left: nat): nat {
    if p in donor && donor[p].Small? then 4096 else Min(HUGE_SIZE, left)
  }

  function Less(w: nat, i: nat): nat { if i <= w then w - i else 0 }

  /** The count of mapped bytes after `i` pages: it runs ahead of the pages only when a
      stretch has counted the partly covered last page in. */
  predicate CountIsRight(len: nat, i: nat, mappedSoFar: nat) {
    mappedSoFar == i * 4096 || i == PageCount(len) || (mappedSoFar == len && i == len / 4096)
  }

  /** From an aligned `start` the subtraction never underflows, and a stretch is 512 pages
      or all that is covered as a whole. */
  lemma LeftInPages(len: nat, i: nat, mappedSoFar: nat)
    requires len < WORD_LIMIT && i < PageCount(len) && CountIsRight(len, i, mappedSoFar)
    ensures mappedSoFar <= len && i <= len / 4096
    ensures (Remaining(len, mappedSoFar) < 4096 <==> Less(len / 4096, i) == 0)
    ensures Min(HUGE_SIZE, Remaining(len, mappedSoFar)) / 4096 == Min(HUGE_PAGES, Less(len / 4096, i))
  {
  }

  /** The same turn told in pages, `w` of which are left as a whole. */
  function TurnInPages(donor: Table, base: nat, p: nat, w: nat): (r: Plan) {
    if p !in donor then []
    else if donor[p].Small? then [Some(donor[p].frame)]
    else if p < base then []
    else if w == 0 then [None]
    else Consecutive(p - base, Min(HUGE_PAGES, w))
  }

  lemma PlanStep(donor: Table, base: nat, p: nat, n: nat, w: nat)
    requires 0 < n && w <= n <= w + 1
    ensures var turn := TurnInPages(donor, base, p, w);
            |turn| <= n &&
            PlanOf(donor, base, p, n, w) == turn + PlanOf(donor, base, p + |turn|, n - |turn|, Less(w, |turn|))
  {
  }

  lemma TurnsAgree(donor: Table, base: nat, p: nat, len: nat, i: nat, mappedSoFar: nat)
    requires len < WORD_LIMIT && i < PageCount(len) && CountIsRight(len, i, mappedSoFar)
    ensures TurnPlan(donor, base, p, Remaining(len, mappedSoFar)) == TurnInPages(donor, base, p, Less(len / 4096, i))
  {
    LeftInPages(len, i, mappedSoFar);
  }

  lemma TurnKeepsCount(donor: Table, base: nat, p: nat, len: nat, i: nat, mappedSoFar: nat)
    requires len < WORD_LIMIT && i < PageCount(len) && CountIsRight(len, i, mappedSoFar)
    ensures var left := Remaining(len, mappedSoFar);
            var turn := TurnPlan(donor, base, p, left);
            turn != [] ==> CountIsRight(len, i + |turn|, mappedSoFar + TurnBytes(donor, p, left))
  {
    LeftInPages(len, i, mappedSoFar);
  }

  /** The plan so far is the beginning of the plan for the donor's pages from `p` on. */
  ghost predicate OnPlan(donor: Table, base: nat, p: nat, n: nat, w: nat, plan: Plan)
    requires w <= n <= w + 1
  {
    && |plan| <= n
    && PlanOf(donor, base, p, n, w) == plan + PlanOf(donor, base, p + |plan|, n - |plan|, Less(w, |plan|))
  }

  lemma NextOfPlan(donor: Table, base: nat, p: nat, n: nat, w: nat, i: nat, turn: Plan)
    requires w <= n <= w + 1 && i < n && turn == TurnInPages(donor, base, p + i, Less(w, i))
    ensures var j := i + |turn|;
            && j <= n
            && PlanOf(donor, base, p + i, n - i, Less(w, i)) == turn + PlanOf(donor, base, p + j, n - j, Less(w, j))
  {
    PlanStep(donor, base, p + i, n - i, Less(w, i));
    assert Less(Less(w, i), |turn|) == Less(w, i + |turn|);
  }

  lemma TurnKeepsOnPlan(donor: Table, base: nat, p: nat, n: nat, w: nat, plan: Plan, turn: Plan)
    requires w <= n <= w + 1 && OnPlan(donor, base, p, n, w, plan) && |plan| < n
    requires turn == TurnInPages(donor, base, p + |plan|, Less(w, |plan|))
    ensures OnPlan(donor, base, p, n, w, plan + turn)
  {
    var i := |plan| + |turn|;
    assert |plan + turn| == i;
    NextOfPlan(donor, base, p, n, w, |plan|, turn);
    Regroup(PlanOf(donor, base, p, n, w), plan, PlanOf(donor, base, p + |plan|, n - |plan|, Less(w, |plan|)),
            turn, PlanOf(donor, base, p + i, n - i, Less(w, i)));
  }

  lemma Regroup(whole: Plan, a: Plan, bc: Plan, b: Plan, c: Plan)
    requires whole == a + bc && bc == b + c
    ensures whole == (a + b) + c && |a + b| == |a| + |b|
  {
  }

  lemma OnPlanIsPrefix(donor: Table, base: nat, p: nat, n: nat, w: nat, plan: Plan, done: Plan, turn: Plan)
    requires w <= n <= w + 1 && OnPlan(donor, base, p, n, w, plan + turn) && done <= turn
    ensures plan + done <= PlanOf(donor, base, p, n, w)
  {
    assert plan + done <= plan + turn;
  }

  /** Pages are passed over only at the very end, where the length covers them in part. */
  ghost predicate SkipsOnlyLast(plan: Plan, len: nat) {
    forall j :: 0 <= j < |plan| && plan[j].None? ==> j == len / 4096 && j == PageCount(len) - 1
  }

  lemma TurnSkipsOnlyLast(donor: Table, base: nat, p: nat, len: nat, plan: Plan, mappedSoFar: nat, done: Plan)
    requires SkipsOnlyLast(plan, len) && CountIsRight(len, |plan|, mappedSoFar)
    requires len < WORD_LIMIT && |plan| < PageCount(len)
    requires done <= TurnPlan(donor, base, p, Remaining(len, mappedSoFar))
    ensures SkipsOnlyLast(plan + done, len)
  {
    LeftInPages(len, |plan|, mappedSoFar);
  }

  /** A range that was translated before the call reads the same throughout the call. */
  lemma SettledTurn(d: Table, now: Table, base: nat, p: nat, n: nat, q: nat, left: nat)
    requires Translated(d, p, n) && Extends(d, now) && p <= q < p + n
    ensures TurnPlan(now, base, q, left) == TurnPlan(d, base, q, left)
  {
  }

  lemma SkipChangesNothing(m: Table, m': Table, t: nat)
    requires PlanEffect(m, m', t, []) && !(t in m && m[t].Small?)
    ensures PlanEffect(m, m', t, [None])
  {
    forall q: nat ensures PlansPage(m, m', t, [None], q) { assert PlansPage(m, m', t, [], q); }
  }

  /** From an aligned `start`: the plan is carried out, and passes over nothing but a partly
      covered last page. */
  ghost predicate CarriedOut(m: Table, m': Table, start: nat, len: nat, plan: Plan) {
    |plan| <= PageCount(len) && PlanEffect(m, m', start / 4096, plan) && SkipsOnlyLast(plan, len)
  }

  /** The loop's state: both page counters have moved by the length of the plan, which for an
      aligned `start` follows the plan of the call if the donor's range was translated. */
  ghost predicate AtPage(m: Table, m': Table, donor: Table, base: nat, start: nat, from: nat, len: nat,
                         plan: Plan, mappedSoFar: nat, fromPage: nat, toPage: nat)
  {
    && fromPage == from / 4096 + |plan| && toPage == start / 4096 + |plan|
    && PlanEffect(m, m', start / 4096, plan)
    && (start % 4096 == 0 ==>
          && CarriedOut(m, m', start, len, plan) && CountIsRight(len, |plan|, mappedSoFar)
          && (Translated(donor, from / 4096, PageCount(len)) ==>
                OnPlan(donor, base, from / 4096, PageCount(len), len / 4096, plan)))
  }

  /** What a turn of the loop found in its donor, and did. */
  ghost predicate Turned(m: Table, m': Table, toPage: nat, donor: Table, base: nat, fromPage: nat, left: nat,
                         ok: bool, bytes: nat, done: Plan)
  {
    var turn := TurnPlan(donor, base, fromPage, left);
    && PlanEffect(m, m', toPage, done) && done <= turn
    && (ok ==> done == turn != [] && bytes == TurnBytes(donor, fromPage, left))
    && (!ok ==> done == [] || |done| < |turn|)
  }

  lemma TurnKeepsCarriedOut(m: Table, m1: Table, m2: Table, start: nat, len: nat, plan: Plan, mappedSoFar: nat,
                            donor: Table, base: nat, p: nat, done: Plan)
    requires len < WORD_LIMIT && |plan| < PageCount(len)
    requires CarriedOut(m, m1, start, len, plan) && CountIsRight(len, |plan|, mappedSoFar)
    requires PlanEffect(m1, m2, start / 4096 + |plan|, done)
    requires done <= TurnPlan(donor, base, p, Remaining(len, mappedSoFar))
    ensures CarriedOut(m, m2, start, len, plan + done)
    ensures |done| < |TurnPlan(donor, base, p, Remaining(len, mappedSoFar))| ==> |plan + done| < PageCount(len)
  {
    TurnsAgree(donor, base, p, len, |plan|, mappedSoFar);
    LeftInPages(len, |plan|, mappedSoFar);
    PlanStep(donor, base, p, PageCount(len) - |plan|, Less(len / 4096, |plan|));
    PlanEffectsCompose(m, m1, m2, start / 4096, plan, done);
    TurnSkipsOnlyLast(donor, base, p, len, plan, mappedSoFar, done);
  }

  lemma TurnFollowsPlan(donor: Table, now: Table, base: nat, p: nat, len: nat, plan: Plan, mappedSoFar: nat, done: Plan)
    requires len < WORD_LIMIT && |plan| < PageCount(len) && CountIsRight(len, |plan|, mappedSoFar)
    requires Translated(donor, p, PageCount(len)) && Extends(donor, now)
    requires OnPlan(donor, base, p, PageCount(len), len / 4096, plan)
    requires done <= TurnPlan(now, base, p + |plan|, Remaining(len, mappedSoFar))
    ensures OnPlan(donor, base, p, PageCount(len), len / 4096,
                   plan + TurnPlan(now, base, p + |plan|, Remaining(len, mappedSoFar)))
    ensures plan + done <= PlanOf(donor, base, p, PageCount(len), len / 4096)
  {
    var n, left := PageCount(len), Remaining(len, mappedSoFar);
    var turn := TurnPlan(now, base, p + |plan|, left);
    SettledTurn(donor, now, base, p, n, p + |plan|, left);
    TurnsAgree(donor, base, p + |plan|, len, |plan|, mappedSoFar);
    TurnKeepsOnPlan(donor, base, p, n, len / 4096, plan, turn);
    OnPlanIsPrefix(donor, base, p, n, len / 4096, plan, done, turn);
  }

  lemma TurnKeepsAtPage(m: Table, m1: Table, m2: Table, donor: Table, now: Table, base: nat,
                        start: nat, from: nat, len: nat, plan: Plan, mappedSoFar: nat,
                        fromPage: nat, toPage: nat, ok: bool, bytes: nat, done: Plan)
    requires AtPage(m, m1, donor, base, start, from, len, plan, mappedSoFar, fromPage, toPage)
    requires len < WORD_LIMIT && toPage < EndPage(start, len) && Extends(donor, now)
    requires Turned(m1, m2, toPage, now, base, fromPage, Remaining(len, mappedSoFar), ok, bytes, done)
    ensures ok ==> AtPage(m, m2, donor, base, start, from, len, plan + done, mappedSoFar + bytes,
                          fromPage + |done|, toPage + |done|)
    ensures PlanEffect(m, m2, start / 4096, plan + done)
    ensures !ok && start % 4096 == 0 ==> CarriedOut(m, m2, start, len, plan + done) && |plan + done| < PageCount(len)
    ensures !ok && start % 4096 == 0 && Translated(donor, from / 4096, PageCount(len)) ==>
              plan + done <= PlanOf(donor, base, from / 4096, PageCount(len), len / 4096)
  {
    PlanEffectsCompose(m, m1, m2, start / 4096, plan, done);
    if start % 4096 == 0 {
      RangeOfPages(start, len);
      TurnKeepsCarriedOut(m, m1, m2, start, len, plan, mappedSoFar, now, base, fromPage, done);
      TurnKeepsCount(now, base, fromPage, len, |plan|, mappedSoFar);
      if Translated(donor, from / 4096, PageCount(len)) {
        TurnFollowsPlan(donor, now, base, from / 4096, len, plan, mappedSoFar, done);
      }
    }
  }

  /** When either range is exhausted, the plan has come to its end. */
  lemma AtPageAtEnd(m: Table, m': Table, donor: Table, physOffset: nat, start: nat, from: nat, len: nat,
                    plan: Plan, mappedSoFar: nat, fromPage: nat, toPage: nat)
    requires AtPage(m, m', donor, physOffset / 4096, start, from, len, plan, mappedSoFar, fromPage, toPage)
    requires Extends(m, m') && (fromPage >= EndPage(from, len) || toPage >= EndPage(start, len))
    ensures start % 4096 == 0 ==> |plan| == PageCount(len)
    ensures |plan| >= Min(DonorPages(from, len), PageCount(start % 4096 + len))
    ensures start % 4096 == 0 && Translated(donor, from / 4096, PageCount(len)) ==>
              plan == CallPlan(donor, physOffset, from, len)
    ensures Succeeded(m, m', donor, physOffset, start, from, len)
  {
    RangeOfPages(start, len);
    RangeOfPages(from, len);
  }

  class PageTable {
    var entries: Table

    constructor (entries: Table)
      ensures this.entries == entries
    {
      this.entries := entries;
    }

    /** The mapper's `map_to`, which may also find no frame for an intermediate table. */
    method MapTo(page: nat, frame: Frame) returns (ok: bool)
      modifies this
      ensures ok ==> page !in old(entries)
      ensures entries == if ok then old(entries)[page := Small(frame)] else old(entries)
    {
      var noTable: bool := *;
      if noTable || page in entries { return false; }
      entries := entries[page := Small(frame)];
      return true;
    }

    /** Maps `count` consecutive frames from `page` on. */
    method MapRun(page: nat, frame: Frame, count: nat) returns (ok: bool, ghost done: Plan)
      modifies this
      ensures PlanEffect(old(entries), entries, page, done) && done <= Consecutive(frame, count)
      ensures ok <==> |done| == count
    {
      done := [];
      var i := 0;
      while i < count
        invariant i <= count && |done| == i && done <= Consecutive(frame, count)
        invariant PlanEffect(old(entries), entries, page, done)
      {
        ghost var before := entries;
        ok := MapTo(page + i, frame + i);
        if !ok { return false, done; }
        assert PlanEffect(before, entries, page + i, [Some(frame + i)]);
        PlanEffectsCompose(old(entries), before, entries, page, done, [Some(frame + i)]);
        done := done + [Some(frame + i)];
        i := i + 1;
      }
      return true, done;
    }

    /** One turn of the loop. The donor's page is looked up in what the donor is now; `bytes`
        is what the turn adds to the count of mapped bytes, `count` the pages it consumes. */
    method MapTurn(toPage: nat, donor: PageTable, fromPage: nat, left: nat, physOffset: nat)
      returns (ok: bool, bytes: nat, count: nat, ghost done: Plan)
      requires physOffset % 4096 == 0
      modifies this
      ensures Turned(old(entries), entries, toPage, old(donor.entries), physOffset / 4096, fromPage, left,
                     ok, bytes, done)
      ensures ok ==> count == |done| > 0
    {
      if (toPage in entries && entries[toPage].Small?) || fromPage !in donor.entries { return false, 0, 0, []; }
      var e := donor.entries[fromPage];
      if e.Small? {
        ok := MapTo(toPage, e.frame);
        return ok, PAGE, 1, if ok then [Some(e.frame)] else [];
      }
      if fromPage * PAGE < physOffset { return false, 0, 0, []; }
      bytes := Min(HUGE_SIZE, left);
      ok, done := MapRun(toPage, fromPage - physOffset / PAGE, bytes / PAGE);
      if ok && bytes < PAGE {
        SkipChangesNothing(old(entries), entries, toPage);
        done := [None];
      }
      count := if bytes < PAGE then 1 else bytes / PAGE;
    }

    /** Maps the memory behind `from .. from + len` of the donor at `start`; the donor may be
        this very table, and is looked up anew in every turn. On any arguments and any outcome
        earlier entries stay, and what is new are the pages of a plan from the page of `start`
        on, which on success goes through all pages of the shorter range. From an aligned
        `start` the call succeeds if and only if the plan has come to the end of the length,
        and if the donor's range was translated before the call it is the plan for that range. */
    method MapRegionInto(start: nat, len: nat, donor: PageTable, physOffset: nat, from: nat)
      returns (r: Option<nat>, ghost plan: Plan)
      requires physOffset % 4096 == 0 && len < WORD_LIMIT
      modifies this
      ensures Extends(old(entries), entries) && PlanEffect(old(entries), entries, start / 4096, plan)
      ensures r.Some? ==> r.value == start + from % 4096
      ensures r.Some? ==> |plan| >= Min(DonorPages(from, len), PageCount(start % 4096 + len))
      ensures start % 4096 == 0 ==>
                CarriedOut(old(entries), entries, start, len, plan) && (r.Some? <==> |plan| == PageCount(len))
      ensures start % 4096 == 0 && Translated(old(donor.entries), from / 4096, PageCount(len)) ==>
                plan <= CallPlan(old(donor.entries), physOffset, from, len)
      ensures r.Some? ==> Succeeded(old(entries), entries, old(donor.entries), physOffset, start, from, len)
    {
      var toPage: nat, toEnd := FirstPage(start), EndPage(start, len);
      var fromPage: nat, fromEnd := FirstPage(from), EndPage(from, len);
      var mapped := start + (from - AlignDown(from));
      var mappedSoFar: nat := 0;
      plan := [];
      ghost var m, d, base := entries, donor.entries, physOffset / 4096;
      while fromPage < fromEnd && toPage < toEnd
        invariant Extends(m, entries) && Extends(d, donor.entries)
        invariant AtPage(m, entries, d, base, start, from, len, plan, mappedSoFar, fromPage, toPage)
        decreases if fromPage < fromEnd then fromEnd - fromPage else 0
      {
        ghost var before, now := entries, donor.entries;
        var left := Remaining(len, mappedSoFar);
        var ok, bytes, count, done := MapTurn(toPage, donor, fromPage, left, physOffset);
        EffectExtends(before, entries, toPage, done);
        TurnKeepsAtPage(m, before, entries, d, now, base, start, from, len, plan, mappedSoFar, fromPage, toPage,
                        ok, bytes, done);
        plan := plan + done;
        if !ok { return None, plan; }
        mappedSoFar := mappedSoFar + bytes;
        fromPage, toPage := fromPage + count, toPage + count;
      }
      AtPageAtEnd(m, entries, d, physOffset, start, from, len, plan, mappedSoFar, fromPage, toPage);
      return Some(mapped), plan;
    }

    /** Removes the entries of `start .. start + len` and leaves their frames alone. It fails
        at the first page without a 4 KiB entry, `mid`. */
    method UnmapRegionFrom(start: nat, len: nat) returns (ok: bool, ghost mid: nat)
      modifies this
      ensures FirstPage(start) <= mid <= EndPage(start, len) && (ok <==> mid == EndPage(start, len))
      ensures UnmapsUpTo(old(entries), entries, FirstPage(start), mid)
      ensures !ok ==> !(mid in old(entries) && old(entries)[mid].Small?)
    {
      var page, end := FirstPage(start), EndPage(start, len);
      while page < end
        invariant FirstPage(start) <= page <= end
        invariant UnmapsUpTo(old(entries), entries, FirstPage(start), page)
      {
        if page !in entries || !entries[page].Small? { return false, page; }
        entries := entries - {page};
        page := page + 1;
      }
      return true, end;
    }
  }

  /** The entries `lo .. mid`, all of them 4 KiB ones, are gone, and no other entry differs. */
  ghost predicate UnmapsUpTo(m: Table, m': Table, lo: nat, mid: nat) {
    && (forall q :: lo <= q < mid ==> q in m && m[q].Small? && q !in m')
    && (forall q :: !(lo <= q < mid) ==> (q in m <==> q in m') && (q in m ==> m'[q] == m[q]))
  }

  /** Unmapping what a successful call mapped restores the page table, whatever the length and
      whether or not the donor is the same table; it reports success if and only if the call
      passed over no page. */
  lemma UnmapFromUndoesAlias(m: Table, m1: Table, m2: Table, start: nat, len: nat, plan: Plan, mid: nat)
    requires start % 4096 == 0 && CarriedOut(m, m1, start, len, plan) && |plan| == PageCount(len)
    requires start / 4096 <= mid <= EndPage(start, len) && UnmapsUpTo(m1, m2, start / 4096, mid)
    requires mid < EndPage(start, len) ==> !(mid in m1 && m1[mid].Small?)
    ensures m2 == m
    ensures mid == EndPage(start, len) <==> None !in plan
  {
    RangeOfPages(start, len);
    var t := start / 4096;
    assert PlansPage(m, m1, t, plan, mid);
    assert mid < t + |plan| ==> plan[mid - t].None? && mid == t + |plan| - 1;
    forall q: nat
      ensures q in m <==> q in m2
      ensures q in m ==> m2[q] == m[q]
    {
      assert PlansPage(m, m1, t, plan, q);
    }
    if None in plan {
      var j :| 0 <= j < |plan| && plan[j] == None;
      assert PlansPage(m, m1, t, plan, t + j);
    }
  }

  // ---- giving aliased memory back ------------------------------------------------------

  /** The 4 KiB entries of all address spaces, and the frames on the free list in order. */
  datatype Holding = Holding(leaf: map<Slot, Frame>, free: seq<Frame>)

  /** No frame is free twice, and none is both free and mapped. */
  ghost predicate IsSound(h: Holding) {
    Distinct(h.free) && forall s :: s in h.leaf ==> h.leaf[s] !in h.free
  }

  /** `munmap`, by way of `unmap_region`: up to the first page without an entry each entry
      goes, and its frame is put on the free list whoever else maps it. */
  function Unmapped(h: Holding, space: nat, lo: nat, hi: nat): Holding
    requires lo <= hi
    decreases hi - lo
  {
    if lo == hi || Slot(space, lo) !in h.leaf then h
    else Unmapped(UnmappedPage(h, Slot(space, lo)), space, lo + 1, hi)
  }

  /** The page at which it stops. */
  function StopsAt(h: Holding, space: nat, lo: nat, hi: nat): (mid: nat)
    requires lo <= hi
    ensures lo <= mid <= hi && (mid < hi ==> Slot(space, mid) !in h.leaf)
    ensures forall p :: lo <= p < mid ==> Slot(space, p) in h.leaf
    decreases hi - lo
  {
    if lo == hi || Slot(space, lo) !in h.leaf then lo else StopsAt(h, space, lo + 1, hi)
  }

  function UnmappedPage(h: Holding, s: Slot): Holding
    requires s in h.leaf
  {
    Holding(h.leaf - {s}, [h.leaf[s]] + h.free)
  }

  ghost predicate IsOnlyMapping(h: Holding, s: Slot) {
    s in h.leaf ==> forall t :: t in h.leaf && t != s ==> h.leaf[t] != h.leaf[s]
  }

  lemma UnmapPageIsSoundIff(h: Holding, s: Slot)
    requires s in h.leaf && IsSound(h)
    ensures IsSound(UnmappedPage(h, s)) <==> IsOnlyMapping(h, s)
  {
    var h' := UnmappedPage(h, s);
    PrependedIsDistinct(h.leaf[s], h.free);
    assert h'.free[0] == h.leaf[s];
    if IsOnlyMapping(h, s) {
      forall t | t in h'.leaf ensures h'.leaf[t] !in h'.free { assert t in h.leaf; }
    } else {
      var t :| t in h.leaf && t != s && h.leaf[t] == h.leaf[s];
      assert t in h'.leaf && h'.leaf[t] in h'.free;
    }
  }

  lemma OnlyMappingStays(h: Holding, s: Slot, u: Slot)
    requires s in h.leaf && u in h.leaf && s != u && IsOnlyMapping(h, s)
    ensures IsOnlyMapping(UnmappedPage(h, s), u) <==> IsOnlyMapping(h, u)
  {
    var h' := UnmappedPage(h, s);
    if IsOnlyMapping(h', u) {
      forall t | t in h.leaf && t != u ensures h.leaf[t] != h.leaf[u] { assert t != s ==> t in h'.leaf; }
    }
  }

  /** What has gone wrong stays wrong. */
  lemma UnsoundStays(h: Holding, s: Slot)
    requires s in h.leaf && !IsSound(h)
    ensures !IsSound(UnmappedPage(h, s))
  {
    var h' := UnmappedPage(h, s);
    assert h'.free[0] == h.leaf[s] && h'.free[1..] == h.free;
    if Distinct(h'.free) {
      TailIsDistinct(h'.free);
      var t :| t in h.leaf && h.leaf[t] in h.free;
      assert t in h'.leaf && h'.leaf[t] in h'.free;
    }
  }

  lemma {:induction false} UnsoundForever(h: Holding, space: nat, lo: nat, hi: nat)
    requires lo <= hi && !IsSound(h)
    ensures !IsSound(Unmapped(h, space, lo, hi))
    decreases hi - lo
  {
    if lo < hi && Slot(space, lo) in h.leaf {
      UnsoundStays(h, Slot(space, lo));
      UnsoundForever(UnmappedPage(h, Slot(space, lo)), space, lo + 1, hi);
    }
  }

  lemma {:induction false} StopsAtTheSame(h: Holding, h': Holding, space: nat, lo: nat, hi: nat)
    requires lo <= hi && forall p :: lo <= p < hi ==> (Slot(space, p) in h.leaf <==> Slot(space, p) in h'.leaf)
    ensures StopsAt(h', space, lo, hi) == StopsAt(h, space, lo, hi)
    decreases hi - lo
  {
    if lo < hi { StopsAtTheSame(h, h', space, lo + 1, hi); }
  }

  ghost predicate AreOnlyMappings(h: Holding, space: nat, lo: nat, mid: nat) {
    forall p :: lo <= p < mid ==> IsOnlyMapping(h, Slot(space, p))
  }

  lemma OnlyMappingsBut(h: Holding, space: nat, lo: nat, mid: nat)
    requires lo < mid && (forall p :: lo <= p < mid ==> Slot(space, p) in h.leaf) && IsOnlyMapping(h, Slot(space, lo))
    ensures AreOnlyMappings(h, space, lo, mid) <==>
            AreOnlyMappings(UnmappedPage(h, Slot(space, lo)), space, lo + 1, mid)
  {
    var s := Slot(space, lo);
    var h' := UnmappedPage(h, s);
    forall p | lo < p < mid ensures IsOnlyMapping(h', Slot(space, p)) <==> IsOnlyMapping(h, Slot(space, p)) {
      OnlyMappingStays(h, s, Slot(space, p));
    }
  }

  /** Giving pages back keeps every frame either free once or mapped, if and only if each entry
      given back is its frame's only mapping. */
  lemma {:induction false} UnmapIsSoundIff(h: Holding, space: nat, lo: nat, hi: nat)
    requires lo <= hi && IsSound(h)
    ensures IsSound(Unmapped(h, space, lo, hi)) <==>
            AreOnlyMappings(h, space, lo, StopsAt(h, space, lo, hi))
    decreases hi - lo
  {
    if lo < hi && Slot(space, lo) in h.leaf {
      var s, mid := Slot(space, lo), StopsAt(h, space, lo, hi);
      var h' := UnmappedPage(h, s);
      UnmapPageIsSoundIff(h, s);
      if IsOnlyMapping(h, s) {
        UnmapIsSoundIff(h', space, lo + 1, hi);
        StopsAtTheSame(h, h', space, lo + 1, hi);
        OnlyMappingsBut(h, space, lo, mid);
      } else {
        UnsoundForever(h', space, lo + 1, hi);
      }
    }
  }

  lemma {:induction false} UnmappedIs(h: Holding, space: nat, lo: nat, hi: nat, s: Slot, f: Frame)
    requires lo <= hi
    ensures var h', mid := Unmapped(h, space, lo, hi), StopsAt(h, space, lo, hi);
            && (s in h'.leaf <==> s in h.leaf && !In(s, space, lo, mid)) && (s in h'.leaf ==> h'.leaf[s] == h.leaf[s])
            && (f in h'.free <==> f in h.free || exists p :: lo <= p < mid && h.leaf[Slot(space, p)] == f)
    decreases hi - lo
  {
    if lo < hi && Slot(space, lo) in h.leaf {
      var h1, mid := UnmappedPage(h, Slot(space, lo)), StopsAt(h, space, lo, hi);
      UnmappedIs(h1, space, lo + 1, hi, s, f);
      StopsAtTheSame(h, h1, space, lo + 1, hi);
      assert h1.free[0] == h.leaf[Slot(space, lo)] && h1.free[1..] == h.free;
      assert f in h1.free <==> f == h.leaf[Slot(space, lo)] || f in h.free;
    }
  }

  /** On memory without aliases this is `unmap_region` as it is modelled there: the same entries
      are left, and the frames put on the free list are those that lost their holder. */
  lemma UnmappedIsUnmapEffect(w: World, w': World, free: seq<Frame>, space: nat, lo: nat, hi: nat, s: Slot, f: Frame)
    requires lo <= hi && Owned(w)
    requires UnmapEffect(w, w', space, lo, StopsAt(Holding(w.leaf, free), space, lo, hi))
    ensures var h := Unmapped(Holding(w.leaf, free), space, lo, hi);
            && (s in h.leaf <==> s in w'.leaf) && (s in h.leaf ==> h.leaf[s] == w'.leaf[s])
            && (f in h.free <==> f in free || (f in w.holder && f !in w'.holder))
  {
    var h := Holding(w.leaf, free);
    var mid := StopsAt(h, space, lo, hi);
    UnmappedIs(h, space, lo, hi, s, f);
    assert UnmapsSlot(w, w', space, lo, mid, s) && UnmapsFrame(w, w', space, lo, mid, f) && HolderHas(w, f);
    forall p | lo <= p < mid && w.leaf[Slot(space, p)] == f ensures f in w.holder && f !in w'.holder {
      assert EntryHolds(w, Slot(space, p));
    }
    if f in w.holder && f !in w'.holder { assert h.leaf[Slot(space, w.holder[f].slot.page)] == f; }
  }

  /** The condition fails after every aliasing of an ordinary page: page 0 is aliased at page
      1, page 1 is given back, and page 0 still maps the frame that is free now. */
  lemma UnmapFreesAliasedFrame(m: Table, m': Table)
    requires m == map[0 := Small(7)] && m' == m[1 := Small(7)]
    ensures Succeeded(m, m', m, 0x8000_0000, 4096, 0, 4096) && SameRange(m', 4096, m, 0, 4096)
    ensures var h := Unmapped(Holding(map[Slot(0, 0) := 7, Slot(0, 1) := 7], []), 0, 1, 2);
            Slot(0, 0) in h.leaf && h.leaf[Slot(0, 0)] in h.free
  {
    assert PlanOf(m, 0x8_0000, 1, 0, 0) == [];
    assert PlanOf(m, 0x8_0000, 0, 1, 1) == [Some(7)];
    AliasIsExactIff(m, m', m, 0x8000_0000, 4096, 0, 4096);
    assert StretchesAreDirect(m, 2, m, 0x8_0000, 1, 0, 0);
    assert StretchesAreDirect(m, 1, m, 0x8_0000, 0, 1, 1);
  }
}
