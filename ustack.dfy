/**
 * The user-space LIFO stack allocator of `user/ustack.c`. Every block
 * starts with a header naming the previous block and its own size (header
 * included); `head` is the most recent block and `base` a sentinel header
 * created by the first allocation. `stack_size` counts the bytes in use
 * from `base` on, and the allocator moves the program break one page at a
 * time with `sbrk` whenever `stack_size` crosses a page boundary. Memory
 * is modelled as the headers written so far, by address; `sbrk` as the
 * break it moves.
 */
module Ustack {
  import opened Riscv

  /** `MAXUALLOC`: the largest request the allocator accepts. */
  const MAXUALLOC: nat := 512

  /** `sizeof(Header)`: an 8-byte pointer and a 16-bit size, padded to 16 bytes. */
  const HEADER: nat := 16

  /** `PGNUM`: the page an offset falls in (`>> PGSHIFT`). */
  function PgNum(x: nat): nat {
    x / PGSIZE
  }

  datatype Header = Header(ptr: nat, size: nat)

  /**
   * The allocator's static state: the sentinel `base`, the most recent
   * block `head` (0 before the first allocation), `stack_size`, the program
   * break `brk`, and the headers written in memory.
   */
  datatype Heap = Heap(base: nat, head: nat, stackSize: nat, brk: nat, mem: map<nat, Header>)

  /** The state before any allocation: statics zeroed, the break where the program left it. */
  function Fresh(brk: nat): Heap {
    Heap(0, 0, 0, brk, map[])
  }

  /**
   * What the allocator needs in order to run at all: before the first
   * allocation the break is not the null address (it becomes `base`), and
   * after it `head` names a header in memory.
   */
  predicate Ready(h: Heap) {
    && (h.head == 0 ==> h.brk > 0)
    && (h.head != 0 ==> h.head in h.mem)
  }

  /**
   * The lazy set-up of the first `ustack_malloc`: one page from `sbrk`, at
   * whose start the sentinel header points at itself with the size of a
   * header, and `stack_size` is that size.
   */
  function Started(h: Heap): (r: Heap)
    requires Ready(h)
    ensures r.head != 0 && r.head in r.mem
    ensures h.head != 0 ==> r == h
    ensures h.head == 0 ==>
      && r.base == h.brk && r.head == r.base && r.stackSize == HEADER
      && r.brk == h.brk + PGSIZE && r.mem[r.base] == Header(r.base, HEADER)
  {
    if h.head != 0 then h
    else Heap(h.brk, h.brk, HEADER, h.brk + PGSIZE, h.mem[h.brk := Header(h.brk, HEADER)])
  }

  /** Whether adding `n` bytes to `stack_size` moves it onto a new page, the condition on which `sbrk` is called. */
  predicate Crosses(stackSize: nat, n: nat) {
    PgNum(stackSize + n) > PgNum(stackSize)
  }

  /**
   * The headers reachable from `a` by `ptr` down to `base`: each block
   * starts where the one before it ends, holds a header and a request of
   * at most MAXUALLOC bytes, and the chain ends at the sentinel.
   */
  ghost predicate Chain(mem: map<nat, Header>, base: nat, a: nat)
    decreases a
  {
    && a in mem && base <= a
    && if a == base then mem[a] == Header(base, HEADER)
       else
         var q := mem[a].ptr;
         && HEADER <= mem[a].size <= HEADER + MAXUALLOC
         && q < a && Chain(mem, base, q) && q + mem[q].size == a
  }

  /**
   * The allocator's invariant: before the first allocation only a usable
   * break; after it, a chain of blocks from `head` down to `base` that fills
   * exactly `stack_size` bytes from `base`, and a break just past the page
   * holding the end of the stack.
   */
  ghost predicate Valid(h: Heap) {
    if h.head == 0 then h.brk > 0
    else
      && h.base > 0 && Chain(h.mem, h.base, h.head)
      && h.base + h.stackSize == h.head + h.mem[h.head].size
      && h.brk == h.base + (PgNum(h.stackSize) + 1) * PGSIZE
  }

  /**
   * `ustack_malloc(len)`: a request over MAXUALLOC returns -1 and changes
   * nothing. Otherwise, after the lazy set-up, the block of `len` bytes and
   * a header is pushed where the stack ends, the break grows by a page
   * exactly when `stack_size` crosses a page, and the result is the address
   * just past the new header. Unlike the source (see
   * `MallocAsWritten`), the block after a page crossing also goes where the
   * stack ends; the new page only extends the break.
   */
  function MallocResult(h: Heap, len: nat): (r: (Heap, int))
    requires Ready(h)
    ensures r.1 == -1 <==> len > MAXUALLOC
    ensures len > MAXUALLOC ==> r.0 == h
    ensures Ready(r.0)
  {
    if len > MAXUALLOC then (h, -1)
    else
      var n := len + HEADER;
      var s := Started(h);
      var p := s.head + s.mem[s.head].size;
      var brk := if Crosses(s.stackSize, n) then s.brk + PGSIZE else s.brk;
      (Heap(s.base, p, s.stackSize + n, brk, s.mem[p := Header(s.head, n)]), p + HEADER)
  }

  /**
   * `ustack_malloc` as written: after a page crossing the new header goes
   * at the start of the page `sbrk` returned, while `stack_size` goes on
   * counting from the end of the previous block.
   */
  function MallocAsWritten(h: Heap, len: nat): (r: (Heap, int))
    requires Ready(h)
    ensures r.1 == -1 <==> len > MAXUALLOC
    ensures len > MAXUALLOC ==> r.0 == h
    ensures Ready(r.0)
  {
    if len > MAXUALLOC then (h, -1)
    else
      var n := len + HEADER;
      var s := Started(h);
      var crosses := Crosses(s.stackSize, n);
      var p := if crosses then s.brk else s.head + s.mem[s.head].size;
      var brk := if crosses then s.brk + PGSIZE else s.brk;
      (Heap(s.base, p, s.stackSize + n, brk, s.mem[p := Header(s.head, n)]), p + HEADER)
  }

  /**
   * `ustack_free`: with nothing allocated (`head` is 0 or the sentinel) it
   * returns -1 and changes nothing. Otherwise the most recent block is
   * popped: `head` goes back to its predecessor, `stack_size` shrinks by
   * the block's size, the break drops a page exactly when `stack_size`
   * leaves a page, and the result is the block's request length. The
   * "underflow" return of -1 happens when the block is larger than
   * `stack_size`: the unsigned `stack_size - p->size` then wraps round to a
   * page number far past the current one.
   */
  function FreeResult(h: Heap): (r: (Heap, int))
    requires Ready(h)
    ensures h.head == 0 || h.head == h.base ==> r == (h, -1)
  {
    if h.head == 0 || h.head == h.base then (h, -1)
    else
      var hd := h.mem[h.head];
      if hd.size > h.stackSize then (h, -1)
      else if PgNum(h.stackSize - hd.size) < PgNum(h.stackSize) then
        (h.(head := hd.ptr, stackSize := h.stackSize - hd.size, brk := Lowered(h.brk)), hd.size - HEADER)
      else (h.(head := hd.ptr, stackSize := h.stackSize - hd.size), hd.size - HEADER)
  }

  /**
   * The break after `sbrk(-PGSIZE)`: one page lower, or unchanged when it
   * is below one page, where the shrunk size would wrap round.
   */
  function Lowered(brk: nat): nat {
    if brk >= PGSIZE then brk - PGSIZE else brk
  }

  /**
   * What both placements keep: every header in memory lies at or above
   * `base`, names a header in memory and has a size between a header and a
   * header plus MAXUALLOC, and the break stays one page past the page
   * holding `stack_size`. Before the first allocation memory holds nothing.
   */
  ghost predicate Paced(h: Heap) {
    if h.head == 0 then h.brk > 0 && h.mem == map[]
    else
      && h.base > 0 && h.head in h.mem
      && (forall a :: a in h.mem ==>
            h.base <= a && h.mem[a].ptr in h.mem && HEADER <= h.mem[a].size <= HEADER + MAXUALLOC)
      && h.brk == h.base + (PgNum(h.stackSize) + 1) * PGSIZE
  }

  /** Growing `stack_size` by less than a page moves it at most one page on. */
  lemma PageStep(x: nat, n: nat)
    requires n < PGSIZE
    ensures PgNum(x) <= PgNum(x + n) <= PgNum(x) + 1
  {
  }

  /** A stack that fills `stackSize` bytes from `base` ends below the break `Valid` keeps. */
  lemma EndBelowBreak(base: nat, stackSize: nat)
    ensures base + stackSize < base + (PgNum(stackSize) + 1) * PGSIZE
  {
  }

  /** Writing a header above `a` leaves the chain from `a` as it was. */
  lemma {:induction false} ChainFrame(mem: map<nat, Header>, base: nat, a: nat, p: nat, x: Header)
    requires Chain(mem, base, a) && a < p
    ensures Chain(mem[p := x], base, a)
    decreases a
  {
    if a != base {
      ChainFrame(mem, base, mem[a].ptr, p, x);
    }
  }

  /** The first allocation's set-up gives a valid stack holding only the sentinel. */
  lemma StartedValid(h: Heap)
    requires Valid(h)
    ensures Valid(Started(h)) && Started(h).base > 0
  {
    if h.head == 0 {
      var s := Started(h);
      assert Chain(s.mem, s.base, s.head);
    }
  }

  /** `ustack_malloc` keeps the allocator's invariant. */
  lemma MallocKeepsValid(h: Heap, len: nat)
    requires Valid(h)
    ensures Valid(MallocResult(h, len).0)
  {
    if len <= MAXUALLOC {
      var n := len + HEADER;
      var s := Started(h);
      StartedValid(h);
      var p := s.head + s.mem[s.head].size;
      var mem := s.mem[p := Header(s.head, n)];
      ChainFrame(s.mem, s.base, s.head, p, Header(s.head, n));
      assert Chain(mem, s.base, p);
      PageStep(s.stackSize, n);
    }
  }

  /**
   * An accepted `ustack_malloc` pushes a header naming the previous head
   * with the request and a header as its size, grows `stack_size` by that
   * size, takes one more page from `sbrk` exactly when `stack_size`
   * crosses a page, and returns a block that starts where the stack ended
   * and lies wholly below the break.
   */
  lemma MallocPushes(h: Heap, len: nat)
    requires Valid(h) && len <= MAXUALLOC
    ensures var s, r := Started(h), MallocResult(h, len);
      && r.0.base == s.base && r.0.stackSize == s.stackSize + len + HEADER
      && r.0.head in r.0.mem && r.0.mem[r.0.head] == Header(s.head, len + HEADER)
      && r.0.brk == s.brk + (if Crosses(s.stackSize, len + HEADER) then PGSIZE else 0)
      && r.1 == s.base + s.stackSize + HEADER
      && r.1 + len <= r.0.brk
  {
    StartedValid(h);
    MallocKeepsValid(h, len);
    var r := MallocResult(h, len).0;
    EndBelowBreak(r.base, r.stackSize);
  }

  /** `ustack_free` keeps the allocator's invariant. */
  lemma FreeKeepsValid(h: Heap)
    requires Valid(h)
    ensures Valid(FreeResult(h).0)
  {
    if h.head != 0 && h.head != h.base {
      var hd := h.mem[h.head];
      PageStep(h.stackSize - hd.size, hd.size);
    }
  }

  /**
   * `ustack_free` on a block: the underflow return happens exactly when the
   * block is larger than `stack_size`; otherwise the block is popped, its
   * predecessor becomes the head, its request length is returned, and the
   * break drops a page exactly when `stack_size` leaves a page.
   */
  lemma FreeOutcome(h: Heap)
    requires Ready(h) && h.head != 0 && h.head != h.base
    requires HEADER <= h.mem[h.head].size <= HEADER + MAXUALLOC
    ensures var hd, r := h.mem[h.head], FreeResult(h);
      && (r.1 == -1 <==> hd.size > h.stackSize)
      && (hd.size <= h.stackSize ==>
            && r.1 == hd.size - HEADER && 0 <= r.1 <= MAXUALLOC
            && r.0.head == hd.ptr && r.0.stackSize == h.stackSize - hd.size
            && r.0.base == h.base && r.0.mem == h.mem
            && r.0.brk == if PgNum(r.0.stackSize) < PgNum(h.stackSize) then Lowered(h.brk) else h.brk)
  {
  }

  /** `ustack_free` keeps `Paced`, whichever placement built the stack. */
  lemma FreeKeepsPaced(h: Heap)
    requires Paced(h)
    ensures Paced(FreeResult(h).0)
  {
    if h.head != 0 && h.head != h.base {
      var hd := h.mem[h.head];
      if hd.size <= h.stackSize {
        PageStep(h.stackSize - hd.size, hd.size);
        var r := FreeResult(h).0;
        assert r.mem == h.mem && r.base == h.base && r.head == hd.ptr;
        assert r.brk == r.base + (PgNum(r.stackSize) + 1) * PGSIZE;
      }
    }
  }

  /**
   * `ustack_free` on a valid stack with a block in it is LIFO: it returns
   * the request length of the most recent block, makes its predecessor the
   * head, shrinks `stack_size` by the block's size and gives a page back to
   * `sbrk` exactly when `stack_size` leaves a page. The underflow guard
   * never fires.
   */
  lemma FreePops(h: Heap)
    requires Valid(h) && h.head != 0 && h.head != h.base
    ensures var hd, r := h.mem[h.head], FreeResult(h);
      && r.1 == hd.size - HEADER && 0 <= r.1 <= MAXUALLOC
      && r.0.head == hd.ptr && r.0.stackSize == h.stackSize - hd.size
      && r.0.base == h.base && r.0.mem == h.mem
      && r.0.brk == h.brk - (if PgNum(r.0.stackSize) < PgNum(h.stackSize) then PGSIZE else 0)
  {
    var hd := h.mem[h.head];
    assert hd.size <= h.stackSize by {
      ChainAbove(h.mem, h.base, hd.ptr);
    }
    FreeOutcome(h);
  }

  /** Every block of a chain starts at or above `base`. */
  lemma ChainAbove(mem: map<nat, Header>, base: nat, a: nat)
    requires Chain(mem, base, a)
    ensures base <= a
  {
  }

  /**
   * A `ustack_malloc` followed by a `ustack_free` returns the request length
   * and restores `head`, `stack_size` and the break; only the sentinel's
   * page, made by the first allocation, stays.
   */
  lemma {:induction false} MallocThenFree(h: Heap, len: nat)
    requires Valid(h) && len <= MAXUALLOC
    ensures Valid(MallocResult(h, len).0)
    ensures var s, f := Started(h), FreeResult(MallocResult(h, len).0);
      && f.1 == len
      && f.0.base == s.base && f.0.head == s.head && f.0.stackSize == s.stackSize && f.0.brk == s.brk
  {
    MallocKeepsValid(h, len);
    MallocPushes(h, len);
    var m := MallocResult(h, len).0;
    var s := Started(h);
    StartedValid(h);
    FreePops(m);
    PageStep(s.stackSize, len + HEADER);
  }

  /** The first allocation's set-up keeps `Paced`. */
  lemma StartedPaced(h: Heap)
    requires Paced(h)
    ensures Paced(Started(h))
  {
  }

  /**
   * `ustack_malloc` as written pushes a header naming the previous head,
   * with the request plus a header as its size, and leaves every other
   * header; `stack_size` grows by that size and the break by a page
   * exactly when `stack_size` crosses a page; the result is the address
   * just past the new header. After a crossing the block starts at the old
   * break and lies wholly on the new page; otherwise it starts where the
   * previous block ends.
   */
  lemma AsWrittenPushes(h: Heap, len: nat)
    requires Ready(h) && len <= MAXUALLOC
    ensures var s, r := Started(h), MallocAsWritten(h, len);
      var c := Crosses(s.stackSize, len + HEADER);
      && r.0.base == s.base && r.0.stackSize == s.stackSize + len + HEADER
      && r.0.head in r.0.mem && r.0.mem[r.0.head] == Header(s.head, len + HEADER)
      && (forall a :: a in s.mem && a != r.0.head ==> a in r.0.mem && r.0.mem[a] == s.mem[a])
      && r.0.brk == s.brk + (if c then PGSIZE else 0)
      && r.1 == r.0.head + HEADER
      && (c ==> r.0.head == s.brk && r.1 + len <= r.0.brk)
      && (!c ==> r.0.head == s.head + s.mem[s.head].size)
  {
  }

  /** Until a request makes `stack_size` cross a page, the source as written and the corrected placement agree. */
  lemma AsWrittenAgrees(h: Heap, len: nat)
    requires Ready(h) && !Crosses(Started(h).stackSize, len + HEADER)
    ensures MallocAsWritten(h, len) == MallocResult(h, len)
  {
  }

  /** `ustack_malloc` as written keeps `Paced`. */
  lemma AsWrittenKeepsPaced(h: Heap, len: nat)
    requires Paced(h)
    ensures Paced(MallocAsWritten(h, len).0)
  {
    if len <= MAXUALLOC {
      StartedPaced(h);
      var s := Started(h);
      var n := len + HEADER;
      var c := Crosses(s.stackSize, n);
      var p := if c then s.brk else s.head + s.mem[s.head].size;
      var m := MallocAsWritten(h, len).0;
      assert m == Heap(s.base, p, s.stackSize + n, if c then s.brk + PGSIZE else s.brk, s.mem[p := Header(s.head, n)]);
      PageStep(s.stackSize, n);
      assert m.brk == m.base + (PgNum(m.stackSize) + 1) * PGSIZE;
      assert s.base <= p;
      forall a | a in m.mem
        ensures m.base <= a && m.mem[a].ptr in m.mem && HEADER <= m.mem[a].size <= HEADER + MAXUALLOC
      {
        if a != p {
          assert a in s.mem;
        }
      }
    }
  }

  /**
   * On the source as written too, a `ustack_malloc` followed by a
   * `ustack_free` returns the request length and restores `head`,
   * `stack_size` and the break.
   */
  lemma AsWrittenThenFree(h: Heap, len: nat)
    requires Paced(h) && len <= MAXUALLOC
    ensures var s, f := Started(h), FreeResult(MallocAsWritten(h, len).0);
      && f.1 == len
      && f.0.base == s.base && f.0.head == s.head && f.0.stackSize == s.stackSize && f.0.brk == s.brk
  {
    StartedPaced(h);
    var s := Started(h);
    assert s.head in s.mem;
    AsWrittenPushes(h, len);
    var m := MallocAsWritten(h, len).0;
    PageStep(s.stackSize, len + HEADER);
    FreeOutcome(m);
  }

  /**
   * On the source as written, the eighth request of MAXUALLOC bytes from a
   * fresh stack with the break at 0x4000 breaks the chain `Valid` asks for:
   * its header at 0x5000 names the block at 0x4c70, which ends at 0x4e80.
   */
  lemma AsWrittenBreaksValid()
    ensures !Valid(MallocsAsWritten(Fresh(0x4000), 8))
  {
    var f := Fresh(0x4000);
    AsWrittenAfterSeven();
    var h7 := MallocsAsWritten(f, 7);
    AsWrittenPushes(h7, MAXUALLOC);
    assert MallocsAsWritten(f, 8) == MallocAsWritten(h7, MAXUALLOC).0;
  }

  /**
   * On the source as written, the sixteenth request of MAXUALLOC bytes
   * from a break at 0x4000 crosses a page and writes its header at 0x6000,
   * inside the fifteenth block, which runs from 0x5e70 to 0x6080.
   */
  lemma AsWrittenOverwrites()
    ensures var h15 := MallocsAsWritten(Fresh(0x4000), 15);
      var r := MallocAsWritten(h15, MAXUALLOC);
      && h15.head == 0x5e70 && h15.head + h15.mem[h15.head].size == 0x6080
      && r.0.head == 0x6000 && h15.head < r.0.head < h15.head + h15.mem[h15.head].size
  {
    var f := Fresh(0x4000);
    AsWrittenAfterFourteen();
    AtNext(f, 14, 0x5c60, 7408, 0x6000);
    AsWrittenStep(MallocsAsWritten(f, 15));
  }

  /**
   * On the source as written, fifteen requests of MAXUALLOC bytes from a
   * fresh stack (here with the break at 0x4000) leave the fifteenth block
   * ending 128 bytes past the break: the eighth block started a new page
   * 384 bytes past where `stack_size` said the stack ended, and every
   * later block inherits that gap.
   */
  lemma AsWrittenPastBreak()
    ensures var h14 := MallocsAsWritten(Fresh(0x4000), 14);
      var r := MallocAsWritten(h14, MAXUALLOC);
      && r.0.brk == 0x6000 && r.1 + MAXUALLOC == 0x6080
      && r.1 + MAXUALLOC > r.0.brk
  {
    var f := Fresh(0x4000);
    AsWrittenAfterFourteen();
    AsWrittenStep(MallocsAsWritten(f, 14));
  }

  /** The first seven requests on the source as written: the stack is 3712 bytes, still on its first page. */
  lemma AsWrittenAfterSeven()
    ensures AtStep(Fresh(0x4000), 7, 0x4c70, 3712, 0x5000)
  {
    var f := Fresh(0x4000);
    assert MallocsAsWritten(f, 1) == MallocAsWritten(f, MAXUALLOC).0;
    assert AtStep(f, 1, 0x4010, 544, 0x5000);
    AtNext(f, 1, 0x4010, 544, 0x5000);
    AtNext(f, 2, 0x4220, 1072, 0x5000);
    AtNext(f, 3, 0x4430, 1600, 0x5000);
    AtNext(f, 4, 0x4640, 2128, 0x5000);
    AtNext(f, 5, 0x4850, 2656, 0x5000);
    AtNext(f, 6, 0x4a60, 3184, 0x5000);
  }

  /**
   * Seven more: the eighth crosses a page and its header goes at the old
   * break 0x5000, 384 bytes past `base + stack_size`.
   */
  lemma AsWrittenAfterFourteen()
    ensures AtStep(Fresh(0x4000), 14, 0x5c60, 7408, 0x6000)
  {
    var f := Fresh(0x4000);
    AsWrittenAfterSeven();
    AtNext(f, 7, 0x4c70, 3712, 0x5000);
    AtNext(f, 8, 0x5000, 4240, 0x6000);
    AtNext(f, 9, 0x5210, 4768, 0x6000);
    AtNext(f, 10, 0x5420, 5296, 0x6000);
    AtNext(f, 11, 0x5630, 5824, 0x6000);
    AtNext(f, 12, 0x5840, 6352, 0x6000);
    AtNext(f, 13, 0x5a50, 6880, 0x6000);
  }

  /** The head, `stack_size` and break after `k` requests of MAXUALLOC bytes on the source as written. */
  predicate AtStep(f: Heap, k: nat, head: nat, stackSize: nat, brk: nat)
    requires Ready(f)
  {
    var h := MallocsAsWritten(f, k);
    && h.head == head && h.stackSize == stackSize && h.brk == brk
    && h.head in h.mem && h.mem[h.head].size == MAXUALLOC + HEADER
  }

  /** From the state after `k` requests to the state after `k + 1`, on the source as written. */
  lemma AtNext(f: Heap, k: nat, head: nat, stackSize: nat, brk: nat)
    requires Ready(f) && head != 0 && AtStep(f, k, head, stackSize, brk)
    ensures var c := Crosses(stackSize, MAXUALLOC + HEADER);
      AtStep(f, k + 1, if c then brk else head + MAXUALLOC + HEADER, stackSize + MAXUALLOC + HEADER,
             if c then brk + PGSIZE else brk)
  {
    AsWrittenStep(MallocsAsWritten(f, k));
  }

  /** One more request of MAXUALLOC bytes on the source as written, once the stack is set up. */
  lemma AsWrittenStep(h: Heap)
    requires Ready(h) && h.head != 0 && h.mem[h.head].size == MAXUALLOC + HEADER
    ensures var r := MallocAsWritten(h, MAXUALLOC);
      var crosses := Crosses(h.stackSize, MAXUALLOC + HEADER);
      && r.0.head == (if crosses then h.brk else h.head + MAXUALLOC + HEADER)
      && r.0.stackSize == h.stackSize + MAXUALLOC + HEADER
      && r.0.brk == (if crosses then h.brk + PGSIZE else h.brk)
      && r.0.head in r.0.mem && r.0.mem[r.0.head].size == MAXUALLOC + HEADER
      && r.1 == r.0.head + HEADER
  {
  }

  /** The state after `k` requests of MAXUALLOC bytes, on the source as written. */
  function MallocsAsWritten(h: Heap, k: nat): (r: Heap)
    requires Ready(h)
    ensures Ready(r)
  {
    if k == 0 then h else MallocAsWritten(MallocsAsWritten(h, k - 1), MAXUALLOC).0
  }

  /**
   * The allocator's static variables. `Malloc` and `Free` update them in
   * place as `ustack_malloc` and `ustack_free` do, writing headers into
   * `mem` and moving `brk` as `sbrk` would. `Malloc` places a block after a
   * page crossing where the stack ends (`MallocResult`), not at the old
   * break as the source does (`MallocAsWritten`).
   */
  class UStack {
    var base: nat
    var head: nat
    var stackSize: nat
    var brk: nat
    var mem: map<nat, Header>

    function State(): Heap
      reads this
    {
      Heap(base, head, stackSize, brk, mem)
    }

    /** Zeroed statics and the program's current break, which is not the null address. */
    constructor (brk: nat)
      requires brk > 0
      ensures State() == Fresh(brk) && Valid(State())
    {
      base, head, stackSize := 0, 0, 0;
      this.brk := brk;
      mem := map[];
    }

    /** `ustack_malloc`, with the block after a page crossing placed where the stack ends. */
    method Malloc(len: nat) returns (r: int)
      requires Valid(State())
      modifies this
      ensures (State(), r) == MallocResult(old(State()), len)
      ensures Valid(State())
    {
      MallocKeepsValid(State(), len);
      if len > MAXUALLOC {
        return -1;
      }
      var n := len + HEADER;
      if head == 0 {
        base := brk;
        brk := brk + PGSIZE;
        mem := mem[base := Header(base, HEADER)];
        stackSize := HEADER;
        head := base;
      }
      if PgNum(stackSize + n) > PgNum(stackSize) {
        brk := brk + PGSIZE;
      }
      var p := head + mem[head].size;
      mem := mem[p := Header(head, n)];
      stackSize := stackSize + n;
      head := p;
      return p + HEADER;
    }

    /** `ustack_free`. */
    method Free() returns (r: int)
      requires Valid(State())
      modifies this
      ensures (State(), r) == FreeResult(old(State()))
      ensures Valid(State())
    {
      FreeKeepsValid(State());
      if head == 0 || head == base {
        return -1;
      }
      var p := head;
      var oldSize := mem[p].size;
      var prev := mem[p].ptr;
      if oldSize > stackSize {
        // the unsigned difference wraps: its page lies past the current one
        return -1;
      }
      if PgNum(stackSize - oldSize) < PgNum(stackSize) {
        brk := Lowered(brk);
      }
      head := prev;
      stackSize := stackSize - oldSize;
      return oldSize - HEADER;
    }
  }
}
