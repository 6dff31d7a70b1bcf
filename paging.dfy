/**
 * Moving pages between physical memory and the per-process swap file: the
 * slot bookkeeping (`add_swap_page`, `remove_swap_page`), paging a range
 * out when the process grows (`swap_out_pages`, the tail of `growproc`)
 * and the page-fault path that swaps a page back in and a victim out
 * (`swap_between_pages`, `handle_page_fault`).
 *
 * A page table is a map from virtual page number to entry; walking to
 * address `va` finds the entry of page `va / PGSIZE`, and a missing key is
 * a walk that finds no entry. The swap file holds one page per slot, slot
 * `i` at offset `i * PGSIZE`.
 */
module Paging {
  import opened Opt
  import opened Riscv
  import opened Kproc
  import opened Replacement

  /** Slot numbers are below `NSWAP` = 16, so eight bits carry them between a number and an entry. */
  predicate SmallSlot(pte: bv64) {
    SwapSlot(pte) < 0x100
  }

  /** The swap slot a paged-out entry names (`*pte >> PGSHIFT`), as a number. */
  function SlotOf(pte: bv64): nat
    requires SmallSlot(pte)
  {
    (SwapSlot(pte) as bv8) as nat
  }

  /** Slot `s` as the word `add_swap_page` shifts into the entry. */
  function SlotBits(s: nat): bv64
    requires s < NSWAP
  {
    (s as bv8) as bv64
  }

  /** An entry written for slot `s` names slot `s`. */
  lemma SlotOfOut(pte: bv64, s: nat)
    requires s < NSWAP
    ensures SwapSlot(SwapOutPte(pte, SlotBits(s))) < NSWAP as bv64
    ensures SmallSlot(SwapOutPte(pte, SlotBits(s))) && SlotOf(SwapOutPte(pte, SlotBits(s))) == s
  {
  }

  /** A paged-out entry: PG set. */
  predicate PagedOut(ptes: map<nat, bv64>, k: nat) {
    k in ptes && IsPagedOut(ptes[k])
  }

  /**
   * Every paged-out entry is below `MAX_TOTAL_PAGES`, is not valid, and
   * names a slot in use.
   */
  ghost predicate SlotsInUse(ptes: map<nat, bv64>, used: seq<bool>) {
    forall k: nat :: PagedOut(ptes, k) ==>
      && k < MAX_TOTAL_PAGES && !IsValid(ptes[k]) && SmallSlot(ptes[k])
      && SlotOf(ptes[k]) < |used| && used[SlotOf(ptes[k])]
  }

  /** No two paged-out entries name the same slot. */
  ghost predicate SlotsDistinct(ptes: map<nat, bv64>) {
    forall k1: nat, k2: nat ::
      PagedOut(ptes, k1) && PagedOut(ptes, k2) && k1 != k2 && SmallSlot(ptes[k1]) && SmallSlot(ptes[k2]) ==>
      SlotOf(ptes[k1]) != SlotOf(ptes[k2])
  }

  /** The paging invariant linking a page table to the swap bookkeeping. */
  ghost predicate SwapConsistent(ptes: map<nat, bv64>, used: seq<bool>) {
    SlotsInUse(ptes, used) && SlotsDistinct(ptes)
  }

  /**
   * Paging out a valid page below `MAX_TOTAL_PAGES` into a free slot keeps
   * the paging invariant: the slot was free, so no other paged-out entry
   * names it.
   */
  lemma AddKeepsConsistent(ptes: map<nat, bv64>, used: seq<bool>, k: nat, s: nat)
    requires SwapConsistent(ptes, used)
    requires k in ptes && IsValid(ptes[k]) && k < MAX_TOTAL_PAGES
    requires s < |used| && s < NSWAP && !used[s]
    ensures SwapConsistent(ptes[k := SwapOutPte(ptes[k], SlotBits(s))], used[s := true])
  {
    SlotOfOut(ptes[k], s);
    SwapOutFlags(ptes[k], SlotBits(s));
    AddKeepsInUse(ptes, used, k, s, SwapOutPte(ptes[k], SlotBits(s)));
    AddKeepsDistinct(ptes, used, k, s, SwapOutPte(ptes[k], SlotBits(s)));
  }

  /** Writing entry `e`, which names slot `s`, for page `k` and marking `s` used keeps `SlotsInUse`. */
  lemma AddKeepsInUse(ptes: map<nat, bv64>, used: seq<bool>, k: nat, s: nat, e: bv64)
    requires SlotsInUse(ptes, used)
    requires k < MAX_TOTAL_PAGES && s < |used|
    requires !IsValid(e) && SmallSlot(e) && SlotOf(e) == s
    ensures SlotsInUse(ptes[k := e], used[s := true])
  {
    var ptes', used' := ptes[k := e], used[s := true];
    forall j: nat | PagedOut(ptes', j)
      ensures && j < MAX_TOTAL_PAGES && !IsValid(ptes'[j]) && SmallSlot(ptes'[j])
              && SlotOf(ptes'[j]) < |used'| && used'[SlotOf(ptes'[j])]
    {
      if j != k {
        assert PagedOut(ptes, j);
      }
    }
  }

  /** Writing entry `e`, which names the free slot `s`, for a page that was not paged out keeps `SlotsDistinct`. */
  lemma AddKeepsDistinct(ptes: map<nat, bv64>, used: seq<bool>, k: nat, s: nat, e: bv64)
    requires SlotsInUse(ptes, used) && SlotsDistinct(ptes)
    requires !PagedOut(ptes, k) && s < |used| && !used[s]
    requires SmallSlot(e) && SlotOf(e) == s
    ensures SlotsDistinct(ptes[k := e])
  {
    var ptes' := ptes[k := e];
    forall j1: nat, j2: nat | PagedOut(ptes', j1) && PagedOut(ptes', j2) && j1 != j2 && SmallSlot(ptes'[j1]) && SmallSlot(ptes'[j2])
      ensures SlotOf(ptes'[j1]) != SlotOf(ptes'[j2])
    {
      if j1 == k {
        assert PagedOut(ptes, j2);
      } else if j2 == k {
        assert PagedOut(ptes, j1);
      } else {
        assert PagedOut(ptes, j1) && PagedOut(ptes, j2);
      }
    }
  }

  /**
   * Reading a paged-out page back into a frame and freeing its slot keeps
   * the paging invariant: the entry is no longer paged out.
   */
  lemma SwapInKeepsConsistent(ptes: map<nat, bv64>, used: seq<bool>, f: nat, pa: bv64)
    requires SwapConsistent(ptes, used) && PagedOut(ptes, f)
    requires pa & 0xFFF == 0 && pa < 0x100_0000_0000_0000
    ensures SwapConsistent(ptes[f := SwapInPte(ptes[f], pa)], used[SlotOf(ptes[f]) := false])
  {
    var ptes', used' := ptes[f := SwapInPte(ptes[f], pa)], used[SlotOf(ptes[f]) := false];
    SwapInFlags(ptes[f], pa);
    assert !PagedOut(ptes', f);
    forall j: nat | PagedOut(ptes', j)
      ensures && j < MAX_TOTAL_PAGES && !IsValid(ptes'[j]) && SmallSlot(ptes'[j])
              && SlotOf(ptes'[j]) < |used'| && used'[SlotOf(ptes'[j])]
    {
      assert j != f && ptes'[j] == ptes[j];
    }
  }

  /** Clearing accessed bits of valid pages keeps the paging invariant: no paged-out entry changes. */
  lemma ClearKeepsConsistent(before: map<nat, bv64>, after: map<nat, bv64>, used: seq<bool>, sz: nat)
    requires SwapConsistent(before, used) && OnlyAccessCleared(before, after, sz)
    ensures SwapConsistent(after, used)
    ensures forall k: nat :: PagedOut(after, k) <==> PagedOut(before, k)
    ensures forall k: nat :: PagedOut(after, k) ==> after[k] == before[k]
  {
    forall k: nat | k in after
      ensures PagedOut(after, k) <==> PagedOut(before, k)
      ensures PagedOut(after, k) ==> after[k] == before[k]
    {
      ClearAccessedKeeps(before[k]);
    }
  }

  /** The scan of `add_swap_page` for a free slot: the lowest one, if any. */
  method FirstFree(used: array<bool>) returns (s: Option<nat>)
    ensures s == IndexOf(used[..], false)
  {
    var i := 0;
    while i < used.Length
      invariant 0 <= i <= used.Length
      invariant forall j :: 0 <= j < i ==> used[j]
    {
      if !used[i] {
        IndexOfFirst(used[..], false, i);
        return Some(i);
      }
      i := i + 1;
    }
    IndexOfAbsent(used[..], false);
    return None;
  }

  /**
   * `add_swap_page`: with a swap file and a free slot, the lowest free slot
   * is marked used, the page's frame is written to it and freed, and the
   * entry is rewritten to name the slot with V cleared and PG set. Without
   * a swap file or a free slot it returns -1 and changes nothing.
   */
  method AddSwapPage(p: Proc, mem: PhysMem, k: nat) returns (r: int)
    requires p.Valid() && p.pagetable != null && k in p.pagetable.ptes
    requires FrameOf(p.pagetable.ptes[k]) in mem.frames
    modifies p.swapUsed, p.swapFile, p.pagetable`ptes, mem`frames
    ensures r == 0 || r == -1
    ensures r == -1 <==> !p.hasSwapFile || IndexOf(old(p.swapUsed[..]), false).None?
    ensures r == -1 ==>
      && p.swapUsed[..] == old(p.swapUsed[..]) && p.swapFile[..] == old(p.swapFile[..])
      && p.pagetable.ptes == old(p.pagetable.ptes) && mem.frames == old(mem.frames)
    ensures r == 0 ==>
      var s := IndexOf(old(p.swapUsed[..]), false).value;
      var pte := old(p.pagetable.ptes[k]);
      && p.swapUsed[..] == old(p.swapUsed[..])[s := true]
      && p.swapFile[..] == old(p.swapFile[..])[s := old(mem.frames[FrameOf(pte)])]
      && p.pagetable.ptes == old(p.pagetable.ptes)[k := SwapOutPte(pte, SlotBits(s))]
      && mem.frames == old(mem.frames) - {FrameOf(pte)}
  {
    if !p.hasSwapFile {
      return -1;
    }
    var s := FirstFree(p.swapUsed);
    if s.None? {
      return -1;
    }
    var i := s.value;
    var pte := p.pagetable.ptes[k];
    var pa := PteToPa(pte);
    p.swapUsed[i] := true;
    p.swapFile[i] := mem.frames[Frame(pa)];
    mem.frames := mem.frames - {Frame(pa)};
    p.pagetable.ptes := p.pagetable.ptes[k := SwapOutPte(pte, SlotBits(i))];
    return 0;
  }

  /**
   * `remove_swap_page`: a slot is released only when the page table given
   * is the process's own and the slot is in use; otherwise -1 and nothing
   * changes.
   */
  method RemoveSwapPage(p: Proc, pagetable: PageTable?, idx: nat) returns (r: int)
    requires p.Valid() && idx < NSWAP
    modifies p.swapUsed
    ensures r == 0 <==> p.pagetable == pagetable && old(p.swapUsed[idx])
    ensures r == 0 ==> p.swapUsed[..] == old(p.swapUsed[..])[idx := false]
    ensures r != 0 ==> r == -1 && p.swapUsed[..] == old(p.swapUsed[..])
    ensures p.pagetable != null && SwapConsistent(p.pagetable.ptes, old(p.swapUsed[..])) ==>
      (SwapConsistent(p.pagetable.ptes, p.swapUsed[..]) <==> r != 0 || !SlotNamed(p.pagetable.ptes, idx))
  {
    if p.pagetable == pagetable && p.swapUsed[idx] {
      if p.pagetable != null && SwapConsistent(p.pagetable.ptes, p.swapUsed[..]) {
        RemoveKeepsConsistent(p.pagetable.ptes, p.swapUsed[..], idx);
      }
      p.swapUsed[idx] := false;
      return 0;
    }
    return -1;
  }

  /** Some paged-out entry names slot `s`. */
  ghost predicate SlotNamed(ptes: map<nat, bv64>, s: nat) {
    exists k: nat :: PagedOut(ptes, k) && SmallSlot(ptes[k]) && SlotOf(ptes[k]) == s
  }

  /**
   * Freeing slot `s` keeps the paging invariant exactly when no paged-out
   * entry still names it: the caller must clear that entry first.
   */
  lemma RemoveKeepsConsistent(ptes: map<nat, bv64>, used: seq<bool>, s: nat)
    requires SwapConsistent(ptes, used) && s < |used|
    ensures SwapConsistent(ptes, used[s := false]) <==> !SlotNamed(ptes, s)
  {
    if SlotNamed(ptes, s) {
      var k: nat :| PagedOut(ptes, k) && SmallSlot(ptes[k]) && SlotOf(ptes[k]) == s;
      assert !used[s := false][SlotOf(ptes[k])];
    } else {
      forall k: nat | PagedOut(ptes, k)
        ensures SlotOf(ptes[k]) < |used[s := false]| && used[s := false][SlotOf(ptes[k])]
      {
        assert SmallSlot(ptes[k]) && SlotOf(ptes[k]) != s;
      }
    }
  }

  /** Releasing a slot that `add_swap_page` just claimed gives back the slot bookkeeping as it was. */
  lemma AddThenRemove(used: seq<bool>)
    requires IndexOf(used, false).Some?
    ensures var s := IndexOf(used, false).value;
      && used[s := true][s] && used[s := true][s := false] == used
  {
  }

  /**
   * The data round trip of paging: a resident page paged out to slot `s`
   * and read back into frame `pa` finds in its slot the content it left
   * there, and its entry ends with the flags it had, accessed bit cleared,
   * pointing at `pa`.
   */
  lemma PageRoundTrip(pte: bv64, s: nat, pa: bv64, file: seq<Page>, content: Page)
    requires IsValid(pte) && !IsPagedOut(pte) && s < NSWAP && s < |file|
    requires pa & 0xFFF == 0 && pa < 0x100_0000_0000_0000
    ensures SmallSlot(SwapOutPte(pte, SlotBits(s)))
    ensures file[s := content][SlotOf(SwapOutPte(pte, SlotBits(s)))] == content
    ensures Flags(SwapInPte(SwapOutPte(pte, SlotBits(s)), pa)) == Flags(ClearAccessed(pte))
    ensures PteToPa(SwapInPte(SwapOutPte(pte, SlotBits(s)), pa)) == pa
  {
    SlotOfOut(pte, s);
    SwapInFlags(SwapOutPte(pte, SlotBits(s)), pa);
    RoundTripFlags(pte, SlotBits(s), pa);
  }

  lemma RoundTripFlags(pte: bv64, slot: bv64, pa: bv64)
    requires IsValid(pte) && !IsPagedOut(pte)
    ensures Flags(SwapInPte(SwapOutPte(pte, slot), pa)) == Flags(ClearAccessed(pte))
  {
  }

  // ------------------------------------------------------ growing a process

  /** What `swap_out_pages` demands of each page: valid, a leaf (some of R, W, X set) and user. */
  predicate Swappable(pte: bv64) {
    IsValid(pte) && Flags(pte) != PTE_V && IsUser(pte)
  }

  /**
   * The frames of the valid pages `lo` to `lo + n - 1` are allocated and
   * pairwise different.
   */
  ghost predicate FramesHeld(ptes: map<nat, bv64>, frames: map<Frame, Page>, lo: nat, n: nat) {
    && (forall j: nat :: lo <= j < lo + n && j in ptes && IsValid(ptes[j]) ==> FrameOf(ptes[j]) in frames)
    && (forall j1: nat, j2: nat ::
          (&& lo <= j1 < lo + n && lo <= j2 < lo + n && j1 != j2 && j1 in ptes && j2 in ptes
           && IsValid(ptes[j1]) && IsValid(ptes[j2])) ==>
          PteToPa(ptes[j1]) != PteToPa(ptes[j2]))
  }

  /** The paging state of one process as values: its entries, its slot use, its swap file and the physical frames. */
  datatype SwapView = SwapView(ptes: map<nat, bv64>, used: seq<bool>, file: seq<Page>, frames: map<Frame, Page>)

  ghost function ViewOf(p: Proc, mem: PhysMem): SwapView
    requires p.pagetable != null
    reads p, p.pagetable, p.swapUsed, p.swapFile, mem
  {
    SwapView(p.pagetable.ptes, p.swapUsed[..], p.swapFile[..], mem.frames)
  }

  /**
   * `add_swap_page` on values, placing page `k` in slot `s`: the slot is
   * marked used and takes the page's frame, the frame is freed, and the
   * entry names the slot, not valid and paged out.
   */
  function Placed(st: SwapView, k: nat, s: nat): SwapView
    requires k in st.ptes && FrameOf(st.ptes[k]) in st.frames && s < |st.used| == |st.file| == NSWAP
  {
    var pte := st.ptes[k];
    SwapView(st.ptes[k := SwapOutPte(pte, SlotBits(s))], st.used[s := true],
             st.file[s := st.frames[FrameOf(pte)]], st.frames - {FrameOf(pte)})
  }

  /**
   * `swap_out_pages`: pages `va / PGSIZE` on, `npages` of them, are paged
   * out in order. The kernel panics (`ok` false) at the first page that
   * has no entry, is already paged out, not valid, not a leaf or not user,
   * or that `add_swap_page` cannot place. `OutProgress` describes the new
   * state in full: over the whole range after a completed run, over the
   * pages before the one that failed after a panic.
   */
  method SwapOutPages(p: Proc, mem: PhysMem, va: nat, npages: nat) returns (ok: bool)
    requires p.Valid() && p.pagetable != null && va % PGSIZE == 0
    requires va / PGSIZE + npages <= MAX_TOTAL_PAGES
    requires SwapConsistent(p.pagetable.ptes, p.swapUsed[..])
    requires FramesHeld(p.pagetable.ptes, mem.frames, va / PGSIZE, npages)
    modifies p.swapUsed, p.swapFile, p.pagetable`ptes, mem`frames
    // each stated as one fact, as the loop keeps it
    ensures ok ==> OutProgress(old(ViewOf(p, mem)), ViewOf(p, mem), va / PGSIZE, npages, npages) == true
    ensures !ok ==> exists d: nat :: d < npages && OutProgress(old(ViewOf(p, mem)), ViewOf(p, mem), va / PGSIZE, npages, d) == true
  {
    var pt := p.pagetable;
    ghost var st0 := ViewOf(p, mem);
    var lo := va / PGSIZE;
    OutStart(st0, lo, npages);
    ok := true;
    var i := 0;
    while i < npages
      // stated as one fact, so that each turn is checked against it whole
      invariant OutProgress(st0, ViewOf(p, mem), lo, npages, i) == true
    {
      var k := lo + i;
      if k !in pt.ptes || !Swappable(pt.ptes[k]) {
        ok := false;
        break;
      }
      ok := PageOutNext(p, mem, st0, lo, npages, i);
      if !ok {
        break;
      }
      i := i + 1;
    }
  }

  /**
   * One turn of `swap_out_pages` on page `lo + i`, which is swappable:
   * `add_swap_page` places it in the lowest free slot, or fails and
   * changes nothing.
   */
  method PageOutNext(p: Proc, mem: PhysMem, ghost st0: SwapView, lo: nat, ghost n: nat, i: nat) returns (ok: bool)
    requires p.Valid() && p.pagetable != null && i < n && lo + n <= MAX_TOTAL_PAGES
    requires OutProgress(st0, ViewOf(p, mem), lo, n, i)
    requires lo + i in p.pagetable.ptes && Swappable(p.pagetable.ptes[lo + i])
    modifies p.swapUsed, p.swapFile, p.pagetable`ptes, mem`frames
    ensures ok <==> p.hasSwapFile && IndexOf(old(p.swapUsed[..]), false).Some?
    ensures !ok ==> ViewOf(p, mem) == old(ViewOf(p, mem))
    ensures ok ==> ViewOf(p, mem) == Placed(old(ViewOf(p, mem)), lo + i, IndexOf(old(p.swapUsed[..]), false).value)
    ensures ok ==> OutProgress(st0, ViewOf(p, mem), lo, n, i + 1)
  {
    ghost var st := ViewOf(p, mem);
    ghost var s := IndexOf(st.used, false);
    NextFrameHeld(st0, st, lo, n, i);
    var r := AddSwapPage(p, mem, lo + i);
    ok := r == 0;
    if ok {
      OutStep(st0, st, lo, n, i, s.value);
      assert ViewOf(p, mem) == Placed(st, lo + i, s.value);
    }
  }

  /** The frame of the next page, untouched so far, is still held. */
  lemma NextFrameHeld(st0: SwapView, st: SwapView, lo: nat, n: nat, i: nat)
    requires OutProgress(st0, st, lo, n, i) && i < n && lo + i in st.ptes && IsValid(st.ptes[lo + i])
    ensures FrameOf(st.ptes[lo + i]) in st.frames
  {
    assert st.ptes[lo + i] == st0.ptes[lo + i];
  }

  /**
   * What `swap_out_pages` has achieved after its first `i` pages of `n`
   * from `lo`: the paging invariant holds, no entry outside the pages done
   * has changed and the frames of the rest are held; the pages done were
   * swappable, are paged out to slots holding what their frames held, and
   * those frames are freed; slots in use before keep their pages, and every
   * slot newly in use is named by a page done.
   */
  ghost predicate OutProgress(st0: SwapView, st: SwapView, lo: nat, n: nat, i: nat) {
    && i <= n && |st.used| == NSWAP && |st.file| == NSWAP
    && SwapConsistent(st.ptes, st.used)
    && OutsideUnchanged(st0.ptes, st.ptes, lo, i)
    && PrefixPagedOut(st0.ptes, st.ptes, lo, i)
    && FramesHeld(st0.ptes, st.frames, lo + i, n - i)
    && SlotsKept(st0.used, st0.file, st.used, st.file)
    && PagedOutTo(st0.ptes, st.ptes, st0.frames, st.file, lo, i)
    && SlotsAdded(st0.used, st.used, st.ptes, lo, i)
    && st.frames == st0.frames - RangeFrames(st0.ptes, lo, i)
  }

  /** Before the first page nothing is achieved, and everything the progress asks holds. */
  lemma OutStart(st0: SwapView, lo: nat, n: nat)
    requires |st0.used| == NSWAP && |st0.file| == NSWAP
    requires SwapConsistent(st0.ptes, st0.used) && FramesHeld(st0.ptes, st0.frames, lo, n)
    ensures OutProgress(st0, st0, lo, n, 0)
  {
    assert RangeFrames(st0.ptes, lo, 0) == {};
    assert SlotsAdded(st0.used, st0.used, st0.ptes, lo, 0) by {
      forall s | 0 <= s < |st0.used| && st0.used[s] ensures s < |st0.used| && st0.used[s] {}
    }
  }

  /** Paging page `lo + i` out to the lowest free slot `s` takes the progress one page further. */
  lemma OutStep(st0: SwapView, st: SwapView, lo: nat, n: nat, i: nat, s: nat)
    requires OutProgress(st0, st, lo, n, i)
    requires i < n && lo + i in st.ptes && Swappable(st.ptes[lo + i]) && lo + i < MAX_TOTAL_PAGES
    requires IndexOf(st.used, false) == Some(s)
    ensures FrameOf(st.ptes[lo + i]) in st.frames && OutProgress(st0, Placed(st, lo + i, s), lo, n, i + 1)
  {
    var k := lo + i;
    var before := st.ptes;
    var after := before[k := SwapOutPte(before[k], SlotBits(s))];
    assert before[k] == st0.ptes[k];
    SwapOutFlags(before[k], SlotBits(s));
    AddKeepsConsistent(before, st.used, k, s);
    PrefixStep(st0.ptes, before, after, lo, i);
    FramesHeldShrinks(st0.ptes, st.frames, lo + i, n - i);
    KeptStep(st0.used, st0.file, st.used, st.file, s, st.frames[FrameOf(before[k])]);
    PagedOutToStep(st0.ptes, before, st.frames, st0.frames, st.used, st.file, lo, i, s, n);
    AddedStep(st0.used, st.used, before, lo, i, s);
    RangeFramesStep(st0.ptes, st0.frames, lo, i);
  }

  /**
   * Every slot in use in `used0` is still in use in `used`, and every slot
   * not newly claimed holds the same page.
   */
  ghost predicate SlotsKept(used0: seq<bool>, file0: seq<Page>, used: seq<bool>, file: seq<Page>) {
    && |used| == |used0| && |file| == |file0|
    && (forall s :: 0 <= s < |used0| && used0[s] ==> used[s])
    && (forall s :: 0 <= s < |used0| && s < |file0| && (used0[s] || !used[s]) ==> file[s] == file0[s])
  }

  /**
   * Pages `lo` to `lo + i - 1` are paged out, each entry rewritten from
   * its old value to name a slot of `file` holding what its frame held in
   * `frames0`.
   */
  ghost predicate PagedOutTo(ptes0: map<nat, bv64>, ptes: map<nat, bv64>, frames0: map<Frame, Page>,
                             file: seq<Page>, lo: nat, i: nat) {
    forall j: nat :: lo <= j < lo + i ==> OutEntry(ptes0, ptes, frames0, file, j)
  }

  /** Page `j` is paged out, its entry rewritten from its old value to name a slot of `file` holding what its frame held. */
  ghost predicate OutEntry(ptes0: map<nat, bv64>, ptes: map<nat, bv64>, frames0: map<Frame, Page>, file: seq<Page>, j: nat) {
    && j in ptes0 && PagedOut(ptes, j) && SmallSlot(ptes[j]) && SlotOf(ptes[j]) < |file| && SlotOf(ptes[j]) < NSWAP
    && ptes[j] == SwapOutPte(ptes0[j], SlotBits(SlotOf(ptes[j])))
    && FrameOf(ptes0[j]) in frames0 && file[SlotOf(ptes[j])] == frames0[FrameOf(ptes0[j])]
  }

  /** Every slot in use in `used` was in use in `used0` or is named by one of pages `lo` to `lo + i - 1`. */
  ghost predicate SlotsAdded(used0: seq<bool>, used: seq<bool>, ptes: map<nat, bv64>, lo: nat, i: nat) {
    forall s :: 0 <= s < |used| && used[s] ==>
      (s < |used0| && used0[s]) || exists j: nat :: lo <= j < lo + i && j in ptes && SmallSlot(ptes[j]) && SlotOf(ptes[j]) == s
  }

  /** The frames of pages `lo` to `lo + i - 1`. */
  ghost function RangeFrames(ptes: map<nat, bv64>, lo: nat, i: nat): set<Frame> {
    set j | lo <= j < lo + i && j in ptes :: FrameOf(ptes[j])
  }

  /** Claiming the free slot `s` for page `pg` keeps every slot that was in use, with its page. */
  lemma KeptStep(used0: seq<bool>, file0: seq<Page>, used: seq<bool>, file: seq<Page>, s: nat, pg: Page)
    requires SlotsKept(used0, file0, used, file) && s < |used| && s < |file| && !used[s]
    ensures SlotsKept(used0, file0, used[s := true], file[s := pg])
  {
  }

  /**
   * Paging page `lo + i` out to the free slot `s`, the lowest free one,
   * extends `PagedOutTo` by one page: the slots of the earlier pages are
   * in use, so not `s`.
   */
  lemma PagedOutToStep(ptes0: map<nat, bv64>, before: map<nat, bv64>, framesA: map<Frame, Page>,
                       frames0: map<Frame, Page>, usedA: seq<bool>, fileA: seq<Page>, lo: nat, i: nat, s: nat, n: nat)
    requires SwapConsistent(before, usedA) && PagedOutTo(ptes0, before, frames0, fileA, lo, i)
    requires OutsideUnchanged(ptes0, before, lo, i) && i < n && FramesHeld(ptes0, framesA, lo + i, n - i)
    requires framesA == frames0 - RangeFrames(ptes0, lo, i)
    requires lo + i in before && Swappable(before[lo + i])
    requires IndexOf(usedA, false) == Some(s) && s < NSWAP && s < |fileA|
    ensures var k := lo + i;
      PagedOutTo(ptes0, before[k := SwapOutPte(before[k], SlotBits(s))], frames0,
                 fileA[s := framesA[FrameOf(before[k])]], lo, i + 1)
  {
    var k := lo + i;
    var after := before[k := SwapOutPte(before[k], SlotBits(s))];
    var file := fileA[s := framesA[FrameOf(before[k])]];
    forall j: nat | lo <= j < lo + i + 1
      ensures OutEntry(ptes0, after, frames0, file, j)
    {
      if j < k {
        assert OutEntry(ptes0, before, frames0, fileA, j);
        assert usedA[SlotOf(before[j])];
        EntryKept(ptes0, before, frames0, fileA, j, k, s, after[k], framesA[FrameOf(before[k])]);
      } else {
        assert before[k] == ptes0[k];
        EntryPlaced(ptes0, before, frames0, framesA, fileA, k, s);
      }
    }
  }

  /** An entry already paged out stays so when another page takes the free slot `s`. */
  lemma EntryKept(ptes0: map<nat, bv64>, before: map<nat, bv64>, frames0: map<Frame, Page>, fileA: seq<Page>,
                  j: nat, k: nat, s: nat, pte: bv64, pg: Page)
    requires OutEntry(ptes0, before, frames0, fileA, j) && j != k && SlotOf(before[j]) != s && s < |fileA|
    ensures OutEntry(ptes0, before[k := pte], frames0, fileA[s := pg], j)
  {
    assert before[k := pte][j] == before[j];
  }

  /** Page `k`, untouched and swappable, paged out to the free slot `s` that takes its frame's page. */
  lemma EntryPlaced(ptes0: map<nat, bv64>, before: map<nat, bv64>, frames0: map<Frame, Page>, framesA: map<Frame, Page>,
                    fileA: seq<Page>, k: nat, s: nat)
    requires k in before && k in ptes0 && before[k] == ptes0[k] && Swappable(before[k]) && s < NSWAP && s < |fileA|
    requires FrameOf(before[k]) in framesA && forall f :: f in framesA ==> f in frames0 && framesA[f] == frames0[f]
    ensures OutEntry(ptes0, before[k := SwapOutPte(before[k], SlotBits(s))], frames0,
                     fileA[s := framesA[FrameOf(before[k])]], k)
  {
    SlotOfOut(before[k], s);
    SwapOutFlags(before[k], SlotBits(s));
  }

  /** The slot claimed for page `lo + i` is named by its new entry, and earlier pages keep theirs. */
  lemma AddedStep(used0: seq<bool>, usedA: seq<bool>, before: map<nat, bv64>, lo: nat, i: nat, s: nat)
    requires SlotsAdded(used0, usedA, before, lo, i) && s < |usedA| && s < NSWAP && lo + i in before
    ensures var k := lo + i;
      SlotsAdded(used0, usedA[s := true], before[k := SwapOutPte(before[k], SlotBits(s))], lo, i + 1)
  {
    var k := lo + i;
    var after := before[k := SwapOutPte(before[k], SlotBits(s))];
    var used := usedA[s := true];
    SlotOfOut(before[k], s);
    forall s' | 0 <= s' < |used| && used[s']
      ensures (s' < |used0| && used0[s']) ||
              exists j: nat :: lo <= j < lo + i + 1 && j in after && SmallSlot(after[j]) && SlotOf(after[j]) == s'
    {
      if s' == s {
        assert lo <= k < lo + i + 1 && k in after && SmallSlot(after[k]) && SlotOf(after[k]) == s';
      } else if !(s' < |used0| && used0[s']) {
        var j: nat :| lo <= j < lo + i && j in before && SmallSlot(before[j]) && SlotOf(before[j]) == s';
        assert j in after && after[j] == before[j];
      }
    }
    assert SlotsAdded(used0, used, after, lo, i + 1);
  }

  /** Freeing the frame of page `lo + i` extends the freed range by one page. */
  lemma RangeFramesStep(ptes0: map<nat, bv64>, frames0: map<Frame, Page>, lo: nat, i: nat)
    requires lo + i in ptes0
    ensures frames0 - RangeFrames(ptes0, lo, i) - {FrameOf(ptes0[lo + i])} == frames0 - RangeFrames(ptes0, lo, i + 1)
  {
    assert RangeFrames(ptes0, lo, i + 1) == RangeFrames(ptes0, lo, i) + {FrameOf(ptes0[lo + i])};
  }

  /** Only pages `lo` to `lo + n - 1` may differ: the same pages have entries and every other entry is as it was. */
  ghost predicate OutsideUnchanged(ptes0: map<nat, bv64>, ptes: map<nat, bv64>, lo: nat, n: nat) {
    && ptes.Keys == ptes0.Keys
    && (forall j: nat :: j in ptes0 && !(lo <= j < lo + n) ==> ptes[j] == ptes0[j])
  }

  /** Pages `lo` to `lo + i - 1` were swappable in `ptes0` and are paged out in `ptes`. */
  ghost predicate PrefixPagedOut(ptes0: map<nat, bv64>, ptes: map<nat, bv64>, lo: nat, i: nat) {
    forall j: nat :: lo <= j < lo + i ==> j in ptes0 && Swappable(ptes0[j]) && PagedOut(ptes, j)
  }

  lemma Widen(ptes0: map<nat, bv64>, ptes: map<nat, bv64>, lo: nat, i: nat, n: nat)
    requires i <= n && OutsideUnchanged(ptes0, ptes, lo, i)
    ensures OutsideUnchanged(ptes0, ptes, lo, n)
  {
  }

  /** Paging out page `lo + i`, which was untouched and swappable, extends both facts by one page. */
  lemma PrefixStep(ptes0: map<nat, bv64>, before: map<nat, bv64>, after: map<nat, bv64>, lo: nat, i: nat)
    requires OutsideUnchanged(ptes0, before, lo, i) && PrefixPagedOut(ptes0, before, lo, i)
    requires lo + i in before && Swappable(before[lo + i]) && PagedOut(after, lo + i)
    requires after == before[lo + i := after[lo + i]]
    ensures OutsideUnchanged(ptes0, after, lo, i + 1) && PrefixPagedOut(ptes0, after, lo, i + 1)
  {
  }

  /** Freeing the frame of the first page of a range keeps the frames of the rest held. */
  lemma FramesHeldShrinks(ptes: map<nat, bv64>, frames: map<Frame, Page>, lo: nat, n: nat)
    requires n >= 1 && lo in ptes && IsValid(ptes[lo]) && FramesHeld(ptes, frames, lo, n)
    ensures FramesHeld(ptes, frames - {FrameOf(ptes[lo])}, lo + 1, n - 1)
  {
    var frames' := frames - {FrameOf(ptes[lo])};
    forall j: nat | lo + 1 <= j < lo + n && j in ptes && IsValid(ptes[j])
      ensures FrameOf(ptes[j]) in frames'
    {
      assert PteToPa(ptes[j]) != PteToPa(ptes[lo]);
    }
  }

  /**
   * The pages `growproc` pages out when a process with a swap file grows
   * past `MAX_PSYC_PAGES`: from the higher of the old end and the resident
   * budget, up to the new end.
   */
  function EvictionRange(oldSz: nat, sz: nat): (r: (nat, nat))
    requires sz > oldSz && ScanPages(sz) > MAX_PSYC_PAGES
    ensures r.0 % PGSIZE == 0
    ensures r.0 == if PgRoundUp(oldSz) > MAX_PSYC_PAGES * PGSIZE then PgRoundUp(oldSz) else MAX_PSYC_PAGES * PGSIZE
    ensures r.0 / PGSIZE + r.1 == ScanPages(sz)
  {
    if PgRoundUp(oldSz) / PGSIZE > MAX_PSYC_PAGES then
      (PgRoundUp(oldSz), (PgRoundUp(sz) - PgRoundUp(oldSz)) / PGSIZE)
    else
      (MAX_PSYC_PAGES * PGSIZE, PgRoundUp(sz) / PGSIZE - MAX_PSYC_PAGES)
  }

  datatype GrowOutcome = Grown | Exited | Panicked

  /**
   * The paging tail of `growproc`, once the new size is in `p.sz`: a
   * process past `MAX_TOTAL_PAGES` exits; one with a swap file that grew
   * past `MAX_PSYC_PAGES` pages out the eviction range with
   * `swap_out_pages`, and the kernel panics if that does. Otherwise
   * nothing changes. After a completed eviction the paging invariant still
   * holds and `OutProgress` describes the new state in full.
   */
  method GrowProcEvict(p: Proc, mem: PhysMem, oldSz: nat) returns (o: GrowOutcome)
    requires p.Valid() && p.pagetable != null
    requires SwapConsistent(p.pagetable.ptes, p.swapUsed[..])
    requires FramesHeld(p.pagetable.ptes, mem.frames, 0, MAX_TOTAL_PAGES)
    modifies p.swapUsed, p.swapFile, p.pagetable`ptes, mem`frames
    ensures o == Exited <==> ScanPages(p.sz) > MAX_TOTAL_PAGES
    ensures o == Exited || !(p.hasSwapFile && ScanPages(p.sz) > MAX_PSYC_PAGES && p.sz > oldSz) ==>
      o != Panicked && ViewOf(p, mem) == old(ViewOf(p, mem))
    ensures o != Exited && p.hasSwapFile && ScanPages(p.sz) > MAX_PSYC_PAGES && p.sz > oldSz ==>
      var (start, n) := EvictionRange(oldSz, p.sz);
      && (o == Grown ==> OutProgress(old(ViewOf(p, mem)), ViewOf(p, mem), start / PGSIZE, n, n))
      && (o == Panicked ==> exists d: nat :: d < n && OutProgress(old(ViewOf(p, mem)), ViewOf(p, mem), start / PGSIZE, n, d))
    ensures SwapConsistent(p.pagetable.ptes, p.swapUsed[..])
  {
    if PgRoundUp(p.sz) / PGSIZE > MAX_TOTAL_PAGES {
      return Exited;
    }
    if p.hasSwapFile && PgRoundUp(p.sz) / PGSIZE > MAX_PSYC_PAGES && p.sz > oldSz {
      var (start, n) := EvictionRange(oldSz, p.sz);
      ghost var st0 := ViewOf(p, mem);
      FramesHeldSub(p.pagetable.ptes, mem.frames, start / PGSIZE, n);
      var ok := SwapOutPages(p, mem, start, n);
      return if ok then Grown else Panicked;
    }
    return Grown;
  }

  /** Frames held over all pages are held over any range inside. */
  lemma FramesHeldSub(ptes: map<nat, bv64>, frames: map<Frame, Page>, lo: nat, n: nat)
    requires FramesHeld(ptes, frames, 0, MAX_TOTAL_PAGES) && lo + n <= MAX_TOTAL_PAGES
    ensures FramesHeld(ptes, frames, lo, n)
  {
  }

  // ----------------------------------------------------------- page faults

  /** Some resident user page lies at or below `sz`: what SCFIFO's search needs to end. */
  predicate ScfifoCanEnd(ptes: map<nat, bv64>, sz: nat) {
    exists i: nat | i <= sz / PGSIZE :: Candidate(ptes, i)
  }

  /** Some resident user page lies among the pages NFUA and LAPA scan. */
  predicate AgingCanChoose(ptes: map<nat, bv64>, sz: nat) {
    exists j: nat | j < ScanPages(sz) :: Candidate(ptes, j)
  }

  /** Whether the policy `algo` finds a victim in `ptes`. */
  predicate HasVictim(algo: SwapAlgo, ptes: map<nat, bv64>, sz: nat) {
    if algo == Scfifo then ScfifoCanEnd(ptes, sz) else AgingCanChoose(ptes, sz)
  }

  /**
   * The victim choice of `handle_page_fault`: the build's policy picks a
   * resident user page. When there is none, SCFIFO never returns and NFUA
   * and LAPA fall back to page 0 whatever it holds; the model stops there
   * with no victim. SCFIFO only clears accessed bits and moves its cursor;
   * NFUA and LAPA only age the counters.
   */
  method ChooseVictim(p: Proc) returns (v: Option<nat>)
    requires p.Valid() && p.pagetable != null && p.algo != NoSwap && ScanPages(p.sz) <= MAX_TOTAL_PAGES
    modifies p.pagetable`ptes, p`currPsycPage, p.counters
    ensures v.Some? <==> HasVictim(p.algo, old(p.pagetable.ptes), p.sz)
    ensures p.counters[..] == ChoiceCounters(p.algo, old(p.counters[..]), old(p.pagetable.ptes), p.sz)
    ensures v.None? ==> p.pagetable.ptes == old(p.pagetable.ptes) && p.currPsycPage == old(p.currPsycPage)
    ensures v.Some? ==>
      Chose(p.algo, old(p.pagetable.ptes), old(p.counters[..]), old(p.currPsycPage), p.sz,
            p.pagetable.ptes, p.currPsycPage, v.value)
  {
    var ptes := p.pagetable.ptes;
    if p.algo == Scfifo {
      if !ScfifoCanEnd(ptes, p.sz) {
        return None;
      }
      var i: nat :| i <= p.sz / PGSIZE && Candidate(ptes, i);
      assert i * PGSIZE <= p.sz;
      var k := PickScfifo(p);
      KeepsCandidate(ptes, p.pagetable.ptes, p.sz, k);
      return Some(k);
    }
    var idx;
    if p.algo == Nfua {
      idx := PickNfua(p);
    } else {
      idx := PickLapa(p);
    }
    if !AgingCanChoose(ptes, p.sz) {
      return None;
    }
    return Some(idx);
  }

  /** The counters after the victim choice: SCFIFO keeps them, NFUA and LAPA tick them first. */
  function ChoiceCounters(algo: SwapAlgo, cs: seq<uint32>, ptes: map<nat, bv64>, sz: nat): seq<uint32> {
    if algo == Scfifo then cs else Ticked(cs, ptes, ScanPages(sz))
  }

  /**
   * `v` is the page the policy `algo` chooses in `ptes`, with the counters
   * `cs` and the cursor `cur`, leaving the entries `ptes1` and the cursor
   * `cur1`. SCFIFO takes the first page from the cursor on whose accessed
   * bit is clear, clearing the bits it passes (its full order is stated for
   * a page-aligned or wrapping cursor); NFUA the lowest ticked counter, LAPA
   * the fewest ones in the ticked counter; neither changes an entry.
   */
  ghost predicate Chose(algo: SwapAlgo, ptes: map<nat, bv64>, cs: seq<uint32>, cur: nat, sz: nat,
                        ptes1: map<nat, bv64>, cur1: nat, v: nat) {
    && Candidate(ptes, v) && Candidate(ptes1, v) && OnlyAccessCleared(ptes, ptes1, sz)
    && (algo == Scfifo ==>
          && !IsAccessed(ptes1[v]) && cur1 / PGSIZE == v && cur1 <= sz
          && (cur > sz || cur % PGSIZE == 0 ==>
                cur1 == v * PGSIZE && ScfifoOrder(ptes, ptes1, ScanStart(cur, sz), CyclePages(sz), v)))
    && (algo != Scfifo ==> ptes1 == ptes && cur1 == cur)
    && (algo == Nfua ==> ScanPages(sz) <= |cs| && NfuaVictim(ptes, ChoiceCounters(algo, cs, ptes, sz), ScanPages(sz), v))
    && (algo == Lapa ==> ScanPages(sz) <= |cs| && LapaVictim(ptes, ChoiceCounters(algo, cs, ptes, sz), ScanPages(sz), v))
  }

  /** A page that is a candidate after SCFIFO's clearing was one before. */
  lemma KeepsCandidate(before: map<nat, bv64>, after: map<nat, bv64>, sz: nat, k: nat)
    requires OnlyAccessCleared(before, after, sz) && Candidate(after, k)
    ensures Candidate(before, k) && PteToPa(after[k]) == PteToPa(before[k])
  {
    ClearAccessedKeeps(before[k]);
    ClearAccessedSameFrame(before[k]);
  }

  /** What a swap-in resets the faulting page's counter to: NFUA 0, LAPA all ones, SCFIFO has none. */
  function ResetCounter(algo: SwapAlgo, c: uint32): (r: uint32)
    ensures algo == Nfua ==> r == 0
    ensures algo == Lapa ==> r == ALL_ONES
    ensures algo != Nfua && algo != Lapa ==> r == c
  {
    match algo
    case Nfua => 0
    case Lapa => ALL_ONES
    case _ => c
  }

  datatype SwapResult = SwapInOk | SwapInFailed | SwapInPanic

  /** Every resident user page lies below `PGROUNDUP(sz)`: user memory is mapped only there. */
  ghost predicate UserPagesBelow(ptes: map<nat, bv64>, sz: nat) {
    forall k: nat :: Candidate(ptes, k) ==> k < ScanPages(sz)
  }

  /**
   * The swap-in half of `swap_between_pages`: the faulting page `f` is read
   * back from its slot into the new frame `pa`, its slot is freed, its
   * entry points at `pa` with V set and PG and A cleared, and its counter is
   * reset.
   */
  method SwapInPage(p: Proc, mem: PhysMem, f: nat, pa: bv64)
    requires p.Valid() && p.pagetable != null
    requires SwapConsistent(p.pagetable.ptes, p.swapUsed[..]) && PagedOut(p.pagetable.ptes, f)
    requires pa & 0xFFF == 0 && pa < 0x100_0000_0000_0000
    modifies p.swapUsed, p.pagetable`ptes, mem`frames, p.counters
    ensures SwapConsistent(p.pagetable.ptes, p.swapUsed[..])
    ensures var pte := old(p.pagetable.ptes[f]);
      && SmallSlot(pte) && SlotOf(pte) < NSWAP && f < MAX_TOTAL_PAGES
      && p.pagetable.ptes == old(p.pagetable.ptes)[f := SwapInPte(pte, pa)]
      && p.swapUsed[..] == old(p.swapUsed[..])[SlotOf(pte) := false]
      && mem.frames == old(mem.frames)[Frame(pa) := old(p.swapFile[SlotOf(pte)])]
      && p.counters[..] == old(p.counters[..])[f := ResetCounter(p.algo, old(p.counters[f]))]
  {
    var pt := p.pagetable;
    var pte := pt.ptes[f];
    var s := SlotOf(pte);
    SwapInKeepsConsistent(pt.ptes, p.swapUsed[..], f, pa);
    mem.frames := mem.frames[Frame(pa) := p.swapFile[s]];
    p.swapUsed[s] := false;
    pt.ptes := pt.ptes[f := SwapInPte(pte, pa)];
    p.counters[f] := ResetCounter(p.algo, p.counters[f]);
  }

  /**
   * The faulting page `k` has been read back: its entry `before[k]` named
   * a swap slot, it now points at the frame `pa`, and that frame holds what
   * the slot held in `file`.
   */
  ghost predicate SwappedIn(before: map<nat, bv64>, after: map<nat, bv64>, frames: map<Frame, Page>,
                            file: seq<Page>, k: nat, pa: bv64) {
    && k in before && SmallSlot(before[k]) && SlotOf(before[k]) < |file|
    && k in after && after[k] == SwapInPte(before[k], pa)
    && Frame(pa) in frames && frames[Frame(pa)] == file[SlotOf(before[k])]
  }

  /**
   * The resident user page `v` has been paged out: its entry names a slot
   * of `file` holding what its frame held in `frames0`.
   */
  ghost predicate SwappedOut(before: map<nat, bv64>, after: map<nat, bv64>, frames0: map<Frame, Page>,
                             file: seq<Page>, v: nat) {
    && Candidate(before, v) && FrameOf(before[v]) in frames0
    && PagedOut(after, v) && SmallSlot(after[v]) && SlotOf(after[v]) < |file|
    && file[SlotOf(after[v])] == frames0[FrameOf(before[v])]
  }

  /** The swap-in on values: page `f` has its slot read back into the frame `pa`, and the slot is freed. */
  function SwappedInView(st: SwapView, f: nat, pa: bv64): SwapView
    requires f in st.ptes && SmallSlot(st.ptes[f]) && SlotOf(st.ptes[f]) < |st.used| && SlotOf(st.ptes[f]) < |st.file|
  {
    var s := SlotOf(st.ptes[f]);
    SwapView(st.ptes[f := SwapInPte(st.ptes[f], pa)], st.used[s := false], st.file, st.frames[Frame(pa) := st.file[s]])
  }

  /**
   * `swap_between_pages` on values: page `f` is swapped in to `pa`, then the
   * victim `v` is paged out to the lowest free slot, which the swap-in has
   * just made sure exists.
   */
  ghost function Exchanged(st: SwapView, f: nat, v: nat, pa: bv64): SwapView
    requires SwapConsistent(st.ptes, st.used) && |st.used| == NSWAP && |st.file| == NSWAP
    requires PagedOut(st.ptes, f) && Candidate(st.ptes, v) && FrameOf(st.ptes[v]) in st.frames
  {
    var mid := SwappedInView(st, f, pa);
    IndexOfFound(mid.used, false, SlotOf(st.ptes[f]));
    Placed(mid, v, IndexOf(mid.used, false).value)
  }

  /**
   * `swap_between_pages`: the faulting page `f` is swapped in to the frame
   * `pa` (what `kalloc` returned; `readOk` is whether the swap-file read
   * succeeded), then the victim `v` is paged out. A failed allocation or
   * read returns -1 (`SwapInFailed`) with nothing changed; the victim
   * failing to page out, which happens only without a swap file since the
   * faulting page's slot was just freed, is a panic. `ExchangedFacts`
   * states what the exchange guarantees.
   */
  method SwapBetweenPages(p: Proc, mem: PhysMem, v: nat, f: nat, pa: Option<bv64>, readOk: bool)
    returns (r: SwapResult)
    requires p.Valid() && p.pagetable != null
    requires SwapConsistent(p.pagetable.ptes, p.swapUsed[..])
    requires PagedOut(p.pagetable.ptes, f) && Candidate(p.pagetable.ptes, v) && v < MAX_TOTAL_PAGES
    requires FrameOf(p.pagetable.ptes[v]) in mem.frames
    requires pa.Some? ==> pa.value & 0xFFF == 0 && pa.value < 0x100_0000_0000_0000 && Frame(pa.value) !in mem.frames
    modifies p.swapUsed, p.swapFile, p.pagetable`ptes, mem`frames, p.counters
    ensures r == SwapInFailed <==> pa.None? || !readOk
    ensures r == SwapInPanic <==> pa.Some? && readOk && !p.hasSwapFile
    ensures r == SwapInFailed ==> ViewOf(p, mem) == old(ViewOf(p, mem)) && p.counters[..] == old(p.counters[..])
    ensures r == SwapInOk ==> ViewOf(p, mem) == Exchanged(old(ViewOf(p, mem)), f, v, pa.value)
    ensures r == SwapInPanic ==> ViewOf(p, mem) == SwappedInView(old(ViewOf(p, mem)), f, pa.value)
    ensures r == SwapInOk ==>
      f < MAX_TOTAL_PAGES && p.counters[..] == old(p.counters[..])[f := ResetCounter(p.algo, old(p.counters[f]))]
  {
    if pa.None? || !readOk {
      return SwapInFailed;
    }
    ghost var st0 := ViewOf(p, mem);
    assert v != f;
    SwapInPage(p, mem, f, pa.value);
    assert ViewOf(p, mem) == SwappedInView(st0, f, pa.value);
    assert IndexOf(p.swapUsed[..], false).Some? by {
      IndexOfFound(p.swapUsed[..], false, SlotOf(st0.ptes[f]));
    }
    var ok := PageOutVictim(p, mem, v);
    if !ok {
      return SwapInPanic;
    }
    return SwapInOk;
  }

  /**
   * The page-out half of `swap_between_pages`: `add_swap_page` on the
   * victim, when a free slot is known to exist, succeeds exactly when the
   * process has a swap file.
   */
  method PageOutVictim(p: Proc, mem: PhysMem, v: nat) returns (ok: bool)
    requires p.Valid() && p.pagetable != null
    requires SwapConsistent(p.pagetable.ptes, p.swapUsed[..])
    requires Candidate(p.pagetable.ptes, v) && v < MAX_TOTAL_PAGES
    requires FrameOf(p.pagetable.ptes[v]) in mem.frames && IndexOf(p.swapUsed[..], false).Some?
    modifies p.swapUsed, p.swapFile, p.pagetable`ptes, mem`frames
    ensures ok <==> p.hasSwapFile
    ensures !ok ==> ViewOf(p, mem) == old(ViewOf(p, mem))
    ensures ok ==> ViewOf(p, mem) == Placed(old(ViewOf(p, mem)), v, IndexOf(old(p.swapUsed[..]), false).value)
    ensures ok ==>
      && SwapConsistent(p.pagetable.ptes, p.swapUsed[..])
      && PagedOut(p.pagetable.ptes, v) && SmallSlot(p.pagetable.ptes[v]) && SlotOf(p.pagetable.ptes[v]) < NSWAP
      && p.pagetable.ptes == old(p.pagetable.ptes)[v := p.pagetable.ptes[v]]
      && p.swapFile[SlotOf(p.pagetable.ptes[v])] == old(mem.frames[FrameOf(p.pagetable.ptes[v])])
      && mem.frames == old(mem.frames) - {old(FrameOf(p.pagetable.ptes[v]))}
  {
    ghost var ptes0, used0 := p.pagetable.ptes, p.swapUsed[..];
    ghost var vpte := ptes0[v];
    var r := AddSwapPage(p, mem, v);
    ok := r == 0;
    if ok {
      var s := IndexOf(used0, false).value;
      AddKeepsConsistent(ptes0, used0, v, s);
      SlotOfOut(vpte, s);
      SwapOutFlags(vpte, SlotBits(s));
    }
  }

  /**
   * What `handle_page_fault` ends with: -1 for a fault it does not handle,
   * 0 with the page swapped in (the victim named here), the case where the
   * policy has no resident user page to evict, or a kernel panic.
   */
  datatype FaultOutcome = NotSwapFault | FaultHandled(victim: nat) | NoVictim | FaultPanic

  /** Every resident user page's frame is allocated. */
  ghost predicate ResidentFramesHeld(ptes: map<nat, bv64>, frames: map<Frame, Page>) {
    forall k: nat :: Candidate(ptes, k) ==> FrameOf(ptes[k]) in frames
  }

  /** A fault `handle_page_fault` turns away with -1: no policy, `va` out of range, no entry, or not paged out. */
  predicate NotSwapFaultAt(algo: SwapAlgo, ptes: map<nat, bv64>, va: nat) {
    || algo == NoSwap || va >= MAXVA || va / PGSIZE !in ptes || !IsPagedOut(ptes[va / PGSIZE])
  }

  /**
   * `handle_page_fault` for a fault at `va`: `pa` is what `kalloc` returns
   * and `readOk` whether the swap-file read succeeds. Without a replacement
   * policy, for `va` at or above MAXVA, with no entry, or with an entry
   * that is not paged out, it returns -1 and changes nothing. Otherwise the
   * policy chooses a victim, the faulting page is read back into `pa` with
   * its counter reset, and the victim is paged out (`FaultDone`, whose
   * consequences `FaultDoneMeans` spells out); a failed allocation, read or
   * page-out is a panic.
   */
  method HandlePageFault(p: Proc, mem: PhysMem, va: nat, pa: Option<bv64>, readOk: bool) returns (r: FaultOutcome)
    requires p.Valid() && p.pagetable != null && ScanPages(p.sz) <= MAX_TOTAL_PAGES
    requires SwapConsistent(p.pagetable.ptes, p.swapUsed[..]) && UserPagesBelow(p.pagetable.ptes, p.sz)
    requires ResidentFramesHeld(p.pagetable.ptes, mem.frames)
    requires pa.Some? ==> pa.value & 0xFFF == 0 && pa.value < 0x100_0000_0000_0000 && Frame(pa.value) !in mem.frames
    modifies p.swapUsed, p.swapFile, p.pagetable`ptes, p`currPsycPage, mem`frames, p.counters
    ensures r == NotSwapFault <==> NotSwapFaultAt(p.algo, old(p.pagetable.ptes), va)
    ensures r == NotSwapFault ==>
      ViewOf(p, mem) == old(ViewOf(p, mem)) && p.counters[..] == old(p.counters[..]) && p.currPsycPage == old(p.currPsycPage)
    ensures r == NoVictim <==> r != NotSwapFault && !HasVictim(p.algo, old(p.pagetable.ptes), p.sz)
    ensures r == FaultPanic <==>
      && r != NotSwapFault && HasVictim(p.algo, old(p.pagetable.ptes), p.sz)
      && (pa.None? || !readOk || !p.hasSwapFile)
    ensures r == NoVictim ==>
      && ViewOf(p, mem) == old(ViewOf(p, mem)) && p.currPsycPage == old(p.currPsycPage)
      && p.counters[..] == ChoiceCounters(p.algo, old(p.counters[..]), old(p.pagetable.ptes), p.sz)
    ensures r.FaultHandled? ==>
      && pa.Some?
      && FaultDone(p.algo, old(ViewOf(p, mem)), old(p.counters[..]), old(p.currPsycPage), p.sz,
                   ViewOf(p, mem), p.counters[..], p.currPsycPage, va / PGSIZE, r.victim, pa.value)
  {
    if p.algo == NoSwap || va >= MAXVA {
      return NotSwapFault;
    }
    var k := va / PGSIZE;
    if k !in p.pagetable.ptes || !IsPagedOut(p.pagetable.ptes[k]) {
      return NotSwapFault;
    }
    r := FaultSwap(p, mem, k, pa, readOk);
  }

  /** The part of `handle_page_fault` after its checks: choose a victim, then `swap_between_pages`. */
  method FaultSwap(p: Proc, mem: PhysMem, k: nat, pa: Option<bv64>, readOk: bool) returns (r: FaultOutcome)
    requires p.Valid() && p.pagetable != null && ScanPages(p.sz) <= MAX_TOTAL_PAGES && p.algo != NoSwap
    requires SwapConsistent(p.pagetable.ptes, p.swapUsed[..]) && UserPagesBelow(p.pagetable.ptes, p.sz)
    requires ResidentFramesHeld(p.pagetable.ptes, mem.frames) && PagedOut(p.pagetable.ptes, k)
    requires pa.Some? ==> pa.value & 0xFFF == 0 && pa.value < 0x100_0000_0000_0000 && Frame(pa.value) !in mem.frames
    modifies p.swapUsed, p.swapFile, p.pagetable`ptes, p`currPsycPage, mem`frames, p.counters
    ensures r != NotSwapFault
    ensures r == NoVictim <==> !HasVictim(p.algo, old(p.pagetable.ptes), p.sz)
    ensures r == FaultPanic <==> HasVictim(p.algo, old(p.pagetable.ptes), p.sz) && (pa.None? || !readOk || !p.hasSwapFile)
    ensures r == NoVictim ==>
      && ViewOf(p, mem) == old(ViewOf(p, mem)) && p.currPsycPage == old(p.currPsycPage)
      && p.counters[..] == ChoiceCounters(p.algo, old(p.counters[..]), old(p.pagetable.ptes), p.sz)
    ensures r.FaultHandled? ==>
      && pa.Some?
      && FaultDone(p.algo, old(ViewOf(p, mem)), old(p.counters[..]), old(p.currPsycPage), p.sz,
                   ViewOf(p, mem), p.counters[..], p.currPsycPage, k, r.victim, pa.value)
  {
    ghost var ptes0 := p.pagetable.ptes;
    var v := FaultVictim(p, mem, k);
    if v.None? {
      return NoVictim;
    }
    ghost var st1, cs1 := ViewOf(p, mem), p.counters[..];
    var sr := SwapBetweenPages(p, mem, v.value, k, pa, readOk);
    if sr != SwapInOk {
      return FaultPanic;
    }
    FaultDoneStep(p.algo, old(ViewOf(p, mem)), old(p.counters[..]), old(p.currPsycPage), p.sz,
                  st1, cs1, ViewOf(p, mem), p.counters[..], p.currPsycPage, k, v.value, pa.value);
    return FaultHandled(v.value);
  }

  /**
   * What a handled fault guarantees: the paging invariant still holds, the
   * faulting page is back, in the frame `pa`, with what its slot held, the
   * victim is paged out to a slot holding what its frame held, and the
   * faulting page's counter is reset.
   */
  lemma FaultDoneMeans(algo: SwapAlgo, st0: SwapView, cs0: seq<uint32>, cur0: nat, sz: nat,
                       st: SwapView, cs: seq<uint32>, cur: nat, k: nat, v: nat, pa: bv64)
    requires SwapConsistent(st0.ptes, st0.used) && UserPagesBelow(st0.ptes, sz) && ScanPages(sz) <= MAX_TOTAL_PAGES
    requires pa & 0xFFF == 0 && pa < 0x100_0000_0000_0000 && Frame(pa) !in st0.frames
    requires FaultDone(algo, st0, cs0, cur0, sz, st, cs, cur, k, v, pa)
    ensures k != v && k < MAX_TOTAL_PAGES && k < |cs0|
    ensures SwapConsistent(st.ptes, st.used)
    ensures SwappedIn(st0.ptes, st.ptes, st.frames, st0.file, k, pa)
    ensures SwappedOut(st0.ptes, st.ptes, st0.frames, st.file, v)
    ensures cs[k] == ResetCounter(algo, cs0[k])
  {
    var ptes1 :| && Chose(algo, st0.ptes, cs0, cur0, sz, ptes1, cur, v)
                 && SwapConsistent(ptes1, st0.used) && PagedOut(ptes1, k) && FrameOf(ptes1[v]) in st0.frames
                 && st == Exchanged(SwapView(ptes1, st0.used, st0.file, st0.frames), k, v, pa);
    ClearKeepsConsistent(st0.ptes, ptes1, st0.used, sz);
    KeepsCandidate(st0.ptes, ptes1, sz, v);
    assert v < MAX_TOTAL_PAGES;
    var st1 := SwapView(ptes1, st0.used, st0.file, st0.frames);
    ExchangedFacts(st1, k, v, pa);
    assert st1.ptes[k] == st0.ptes[k] && FrameOf(st1.ptes[v]) == FrameOf(st0.ptes[v]);
  }

  /** The exchange swaps `f` in and pages `v` out, keeping the paging invariant. */
  lemma ExchangedFacts(st: SwapView, f: nat, v: nat, pa: bv64)
    requires SwapConsistent(st.ptes, st.used) && |st.used| == NSWAP && |st.file| == NSWAP
    requires PagedOut(st.ptes, f) && Candidate(st.ptes, v) && FrameOf(st.ptes[v]) in st.frames && v < MAX_TOTAL_PAGES
    requires pa & 0xFFF == 0 && pa < 0x100_0000_0000_0000 && Frame(pa) !in st.frames
    ensures f != v && f < MAX_TOTAL_PAGES
    ensures var st' := Exchanged(st, f, v, pa);
      && SwapConsistent(st'.ptes, st'.used)
      && SwappedIn(st.ptes, st'.ptes, st'.frames, st.file, f, pa)
      && SwappedOut(st.ptes, st'.ptes, st.frames, st'.file, v)
  {
    var mid := SwappedInView(st, f, pa);
    SwapInKeepsConsistent(st.ptes, st.used, f, pa);
    IndexOfFound(mid.used, false, SlotOf(st.ptes[f]));
    var s := IndexOf(mid.used, false).value;
    assert Exchanged(st, f, v, pa) == Placed(mid, v, s);
    PlacedFacts(mid, v, s);
  }

  /** Paging `v` out to the free slot `s` keeps the paging invariant and leaves every other entry. */
  lemma PlacedFacts(st: SwapView, v: nat, s: nat)
    requires SwapConsistent(st.ptes, st.used) && |st.used| == NSWAP && |st.file| == NSWAP
    requires Candidate(st.ptes, v) && FrameOf(st.ptes[v]) in st.frames && v < MAX_TOTAL_PAGES
    requires s < NSWAP && !st.used[s]
    ensures var st' := Placed(st, v, s);
      && SwapConsistent(st'.ptes, st'.used)
      && SwappedOut(st.ptes, st'.ptes, st.frames, st'.file, v)
      && (forall j :: j in st.ptes && j != v ==> j in st'.ptes && st'.ptes[j] == st.ptes[j])
      && st'.frames == st.frames - {FrameOf(st.ptes[v])}
  {
    AddKeepsConsistent(st.ptes, st.used, v, s);
    SlotOfOut(st.ptes[v], s);
    SwapOutFlags(st.ptes[v], SlotBits(s));
  }

  /** The victim choice `st0` to `st1`, then the exchange `st1` to `st`, make a handled fault. */
  lemma FaultDoneStep(algo: SwapAlgo, st0: SwapView, cs0: seq<uint32>, cur0: nat, sz: nat, st1: SwapView, cs1: seq<uint32>,
                      st: SwapView, cs: seq<uint32>, cur: nat, k: nat, v: nat, pa: bv64)
    requires VictimReady(algo, st0, cs0, cur0, sz, st1, cur, k, v) && st == Exchanged(st1, k, v, pa)
    requires cs1 == ChoiceCounters(algo, cs0, st0.ptes, sz) && cs == cs1[k := ResetCounter(algo, cs1[k])]
    ensures FaultDone(algo, st0, cs0, cur0, sz, st, cs, cur, k, v, pa)
  {
    assert !Candidate(st0.ptes, k);
  }

  /**
   * A handled fault on page `k` took the paging state from `st0`, the
   * counters from `cs0` and the cursor from `cur0` to `st`, `cs` and `cur`:
   * the policy chose `v`, leaving some entries `ptes1`, then `k` was swapped
   * in to `pa` and `v` paged out; `k`'s counter was reset on top of what the
   * choice left.
   */
  ghost predicate FaultDone(algo: SwapAlgo, st0: SwapView, cs0: seq<uint32>, cur0: nat, sz: nat,
                            st: SwapView, cs: seq<uint32>, cur: nat, k: nat, v: nat, pa: bv64) {
    && k < |cs0| && |st0.used| == NSWAP && |st0.file| == NSWAP
    && cs == ChoiceCounters(algo, cs0, st0.ptes, sz)[k := ResetCounter(algo, cs0[k])]
    && exists ptes1: map<nat, bv64> ::
         && Chose(algo, st0.ptes, cs0, cur0, sz, ptes1, cur, v)
         && SwapConsistent(ptes1, st0.used) && PagedOut(ptes1, k) && FrameOf(ptes1[v]) in st0.frames
         && st == Exchanged(SwapView(ptes1, st0.used, st0.file, st0.frames), k, v, pa)
  }

  /**
   * The policy chose `v` with the paging state going from `st0` to `st1`
   * and the cursor to `cur1`: only the entries changed, the paging
   * invariant still holds, the faulting page `k` is still paged out, and
   * the victim, below `MAX_TOTAL_PAGES`, keeps its allocated frame.
   */
  ghost predicate VictimReady(algo: SwapAlgo, st0: SwapView, cs0: seq<uint32>, cur0: nat, sz: nat,
                              st1: SwapView, cur1: nat, k: nat, v: nat) {
    && |st0.used| == NSWAP && |st0.file| == NSWAP && k < |cs0|
    && st1 == SwapView(st1.ptes, st0.used, st0.file, st0.frames)
    && Chose(algo, st0.ptes, cs0, cur0, sz, st1.ptes, cur1, v)
    && SwapConsistent(st1.ptes, st0.used) && PagedOut(st1.ptes, k) && st1.ptes[k] == st0.ptes[k]
    && FrameOf(st1.ptes[v]) == FrameOf(st0.ptes[v]) && FrameOf(st1.ptes[v]) in st0.frames && v < MAX_TOTAL_PAGES
  }

  /**
   * The victim choice as `handle_page_fault` sees it: a resident user page
   * below the end of user memory whose frame is untouched, chosen without
   * disturbing the paging invariant or the faulting page's entry.
   */
  method FaultVictim(p: Proc, mem: PhysMem, k: nat) returns (v: Option<nat>)
    requires p.Valid() && p.pagetable != null && ScanPages(p.sz) <= MAX_TOTAL_PAGES && p.algo != NoSwap
    requires SwapConsistent(p.pagetable.ptes, p.swapUsed[..]) && UserPagesBelow(p.pagetable.ptes, p.sz)
    requires ResidentFramesHeld(p.pagetable.ptes, mem.frames) && PagedOut(p.pagetable.ptes, k)
    modifies p.pagetable`ptes, p`currPsycPage, p.counters
    ensures v.Some? <==> HasVictim(p.algo, old(p.pagetable.ptes), p.sz)
    ensures p.counters[..] == ChoiceCounters(p.algo, old(p.counters[..]), old(p.pagetable.ptes), p.sz)
    ensures v.None? ==> p.pagetable.ptes == old(p.pagetable.ptes) && p.currPsycPage == old(p.currPsycPage)
    ensures v.Some? ==>
      VictimReady(p.algo, old(ViewOf(p, mem)), old(p.counters[..]), old(p.currPsycPage), p.sz,
                  ViewOf(p, mem), p.currPsycPage, k, v.value)
  {
    ghost var ptes0, used0 := p.pagetable.ptes, p.swapUsed[..];
    v := ChooseVictim(p);
    ClearKeepsConsistent(ptes0, p.pagetable.ptes, used0, p.sz);
    if v.Some? {
      KeepsCandidate(ptes0, p.pagetable.ptes, p.sz, v.value);
    }
  }

  lemma IndexOfFound<T>(s: seq<T>, x: T, i: nat)
    requires i < |s| && s[i] == x
    ensures IndexOf(s, x).Some?
  {
  }
}
