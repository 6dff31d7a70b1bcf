/**
 * The RISC-V Sv39 page-table-entry word as the kernel uses it (section 4.4 of
 * the RISC-V privileged architecture): flag bits V, R, W, X, U and A in the low
 * bits, the physical page number from bit 10, and this kernel's own "paged
 * out" flag PG in a software-reserved bit. A paged-out entry keeps its low
 * flags, clears V, sets PG and holds its swap slot index from bit PGSHIFT.
 * Also the page-size arithmetic and the kernel-stack layout.
 */
module Riscv {
  const PGSIZE: nat := 4096
  const PGSHIFT: nat := 12

  const PTE_V: bv64 := 1      // valid
  const PTE_R: bv64 := 2
  const PTE_W: bv64 := 4
  const PTE_X: bv64 := 8
  const PTE_U: bv64 := 16     // user accessible
  const PTE_A: bv64 := 64     // accessed
  const PTE_PG: bv64 := 512   // paged out to the swap file (software bit 9)

  /** One past the highest virtual address of Sv39 that the kernel uses (1 << 38). */
  const MAXVA: nat := 0x40_0000_0000
  const TRAMPOLINE: nat := MAXVA - PGSIZE

  /** `KSTACK(p)`: each kernel stack is one page, followed below by an unmapped guard page. */
  function Kstack(p: nat): int {
    TRAMPOLINE - (p + 1) * 2 * PGSIZE
  }

  function PgRoundUp(sz: nat): nat {
    (sz + PGSIZE - 1) / PGSIZE * PGSIZE
  }

  function PgRoundDown(a: nat): nat {
    a / PGSIZE * PGSIZE
  }

  /** `PTE_FLAGS`: the ten low bits. */
  function Flags(pte: bv64): bv64 {
    pte & 0x3FF
  }

  function PteToPa(pte: bv64): bv64 {
    (pte >> 10) << 12
  }

  function PaToPte(pa: bv64): bv64 {
    (pa >> 12) << 10
  }

  predicate IsValid(pte: bv64) { pte & PTE_V != 0 }
  predicate IsUser(pte: bv64) { pte & PTE_U != 0 }
  predicate IsAccessed(pte: bv64) { pte & PTE_A != 0 }
  predicate IsPagedOut(pte: bv64) { pte & PTE_PG != 0 }

  /** A resident user page: the only kind the replacement policies consider. */
  predicate IsResidentUser(pte: bv64) { IsValid(pte) && IsUser(pte) }

  /** `*pte &= ~PTE_A`. */
  function ClearAccessed(pte: bv64): bv64 {
    pte & !PTE_A
  }

  /**
   * The entry `add_swap_page` writes for a page moved to swap slot `slot`:
   * the slot index shifted by PGSHIFT, the old flags with V cleared, PG set.
   */
  function SwapOutPte(pte: bv64, slot: bv64): bv64 {
    (((slot << 12) | Flags(pte)) & !PTE_V) | PTE_PG
  }

  /** The slot index read back with `*pte >> PGSHIFT`. */
  function SwapSlot(pte: bv64): bv64 {
    pte >> 12
  }

  /**
   * The entry `swap_between_pages` writes for a page read back into the frame
   * at physical address `pa`: that frame, the old flags with PG and A cleared
   * and V set.
   */
  function SwapInPte(pte: bv64, pa: bv64): bv64 {
    ((PaToPte(pa) | Flags(pte)) & !(PTE_PG | PTE_A)) | PTE_V
  }

  /** A paged-out entry decodes to the slot it was written with (any slot below 2^20, far above the table's size). */
  lemma SlotRoundTrip(pte: bv64, slot: bv64)
    requires slot < 0x10_0000
    ensures SwapSlot(SwapOutPte(pte, slot)) == slot
    ensures SwapSlot(SwapOutPte(pte, slot)) as nat == slot as nat
  {
  }

  /** Paging out clears V, sets PG and keeps every other flag bit (U, A, R, W, X, ...). */
  lemma SwapOutFlags(pte: bv64, slot: bv64)
    ensures Flags(SwapOutPte(pte, slot)) == (Flags(pte) & !PTE_V) | PTE_PG
    ensures !IsValid(SwapOutPte(pte, slot)) && IsPagedOut(SwapOutPte(pte, slot))
    ensures IsUser(SwapOutPte(pte, slot)) == IsUser(pte)
  {
  }

  /** Paging in sets V, clears PG and A, keeps the other flags and points at the new frame. */
  lemma SwapInFlags(pte: bv64, pa: bv64)
    requires pa & 0xFFF == 0 && pa < 0x100_0000_0000_0000
    ensures Flags(SwapInPte(pte, pa)) == (Flags(pte) & !(PTE_PG | PTE_A)) | PTE_V
    ensures IsValid(SwapInPte(pte, pa)) && !IsPagedOut(SwapInPte(pte, pa)) && !IsAccessed(SwapInPte(pte, pa))
    ensures IsUser(SwapInPte(pte, pa)) == IsUser(pte)
    ensures PteToPa(SwapInPte(pte, pa)) == pa
  {
  }

  /** Clearing A changes no other flag: the entry stays resident, user and paged-out alike. */
  lemma ClearAccessedKeeps(pte: bv64)
    ensures !IsAccessed(ClearAccessed(pte))
    ensures IsValid(ClearAccessed(pte)) == IsValid(pte) && IsUser(ClearAccessed(pte)) == IsUser(pte)
    ensures IsPagedOut(ClearAccessed(pte)) == IsPagedOut(pte)
  {
    ClearsA(pte);
    KeepsV(pte);
    KeepsU(pte);
    KeepsPG(pte);
  }

  lemma ClearsA(pte: bv64) ensures !IsAccessed(ClearAccessed(pte)) {}
  lemma KeepsV(pte: bv64) ensures IsValid(ClearAccessed(pte)) == IsValid(pte) {}
  lemma KeepsU(pte: bv64) ensures IsUser(ClearAccessed(pte)) == IsUser(pte) {}
  lemma KeepsPG(pte: bv64) ensures IsPagedOut(ClearAccessed(pte)) == IsPagedOut(pte) {}

  /** Clearing A keeps the frame the entry points at. */
  lemma ClearAccessedSameFrame(pte: bv64)
    ensures PteToPa(ClearAccessed(pte)) == PteToPa(pte)
  {
  }

  /**
   * Distinct (process, thread) pairs get distinct kernel stacks, and two
   * stacks are at least two pages apart, so a stack page never overlaps
   * another stack or its guard page.
   */
  lemma {:induction false} KstacksApart(i1: nat, j1: nat, i2: nat, j2: nat, nkt: nat)
    requires j1 < nkt && j2 < nkt
    requires i1 != i2 || j1 != j2
    ensures i1 * nkt + j1 != i2 * nkt + j2
    ensures Kstack(i1 * nkt + j1) - Kstack(i2 * nkt + j2) >= 2 * PGSIZE
         || Kstack(i2 * nkt + j2) - Kstack(i1 * nkt + j1) >= 2 * PGSIZE
  {
    if i1 == i2 {
      assert i1 * nkt == i2 * nkt;
    } else if i1 < i2 {
      MulMonotone(i1 + 1, i2, nkt);
      assert (i1 + 1) * nkt == i1 * nkt + nkt;
    } else {
      MulMonotone(i2 + 1, i1, nkt);
      assert (i2 + 1) * nkt == i2 * nkt + nkt;
    }
  }

  lemma MulMonotone(a: nat, b: nat, n: nat)
    requires a <= b
    ensures a * n <= b * n
  {
  }
}
