/**
 * The process table of the kernel: a fixed array of process control blocks,
 * the pid counter, slot allocation and release, and the two table sweeps
 * `wakeup` and `kill`. Locks, the running CPU and the memory primitives are
 * not modelled: the caller's own slot is a parameter, and what a memory
 * primitive returned (a trapframe page, a fresh page table) is an argument.
 */
module Kproc {
  import opened Opt
  import opened Riscv

  /** Sizes of the kernel's tables, as configured for this kernel. */
  const NPROC: nat := 64
  const NKT: nat := 8
  const MAX_PSYC_PAGES: nat := 16
  const MAX_TOTAL_PAGES: nat := 32
  /** One swap slot per virtual page above the resident budget. */
  const NSWAP: nat := MAX_TOTAL_PAGES - MAX_PSYC_PAGES

  datatype ProcState = Unused | Used | Sleeping | Runnable | Running | Zombie

  datatype ThreadState = TUnused | TUsed | TRunnable | TRunning | TSleeping | TZombie

  /** The page-replacement policy the kernel is built with. */
  datatype SwapAlgo = NoSwap | Scfifo | Nfua | Lapa

  /**
   * An unsigned 32-bit value, such as an aging counter. The counters are only
   * shifted right, OR-ed with their top bit and compared, so the model keeps
   * them as integers and writes those operations out arithmetically.
   */
  newtype uint32 = x: int | 0 <= x < 0x1_0000_0000

  /** The counter with all 32 bits set. */
  const ALL_ONES: uint32 := 0xFFFF_FFFF

  /** The bytes of one page of memory. */
  type Page = seq<bv8>

  /**
   * A process's page table as `walk` sees it: page index to entry. A page
   * index with no key has no last-level table, so `walk` returns a null
   * pointer for it.
   */
  class PageTable {
    var ptes: map<nat, bv64>

    constructor (ptes: map<nat, bv64>)
      ensures this.ptes == ptes
    {
      this.ptes := ptes;
    }
  }

  /** A physical frame, named by its physical address. */
  datatype Frame = Frame(pa: bv64)

  /** The frame a page-table entry points at. */
  function FrameOf(pte: bv64): Frame {
    Frame(PteToPa(pte))
  }

  /** The physical frames in use, by physical address. */
  class PhysMem {
    var frames: map<Frame, Page>

    constructor (frames: map<Frame, Page>)
      ensures this.frames == frames
    {
      this.frames := frames;
    }
  }

  /** One entry of a process's kernel-thread array (`struct kthread`). */
  datatype KThread = KThread(state: ThreadState, pp: Proc?, kstack: int, trapframe: Option<nat>)

  /** The lowest index holding `x`, if any. */
  function IndexOf<T(==)>(s: seq<T>, x: T): (r: Option<nat>)
    ensures r.Some? ==> r.value < |s| && s[r.value] == x && (forall j :: 0 <= j < r.value ==> s[j] != x)
    ensures r.None? ==> (forall j :: 0 <= j < |s| ==> s[j] != x)
  {
    if |s| == 0 then None
    else if s[0] == x then Some(0)
    else
      var r := IndexOf(s[1..], x);
      if r.Some? then Some(r.value + 1) else None
  }

  /** A process control block (`struct proc`). */
  class Proc {
    /** Its position in the process table. */
    const index: nat
    const algo: SwapAlgo
    const kstack: int

    var state: ProcState
    var pid: int
    var parent: Proc?
    var name: string
    var chan: int
    var killed: bool
    var xstate: int
    var sz: nat
    /** Whether a trapframe page is allocated. */
    var trapframe: bool
    var pagetable: PageTable?
    /** Whether the process's swap-file pointer is set (`p->swapFile != 0`). */
    var hasSwapFile: bool
    /** Whether the file that pointer names is still on disk. */
    var swapFileOnDisk: bool
    /** The swap file's contents: one page per swap slot. */
    const swapFile: array<Page>
    /** `swap_metadata[i].used`. */
    const swapUsed: array<bool>
    /** The NFUA or LAPA aging counter of each virtual page. */
    const counters: array<uint32>
    /** The SCFIFO cursor, a virtual address (`curr_psyc_page`). */
    var currPsycPage: nat
    const kthreads: array<KThread>
    var tidCounter: int
    /** Address of the first of this process's trapframe slots. */
    var baseTrapframes: nat
    /** The stack pointer of the saved kernel context. */
    var contextSp: int

    ghost predicate Valid() {
      && swapUsed.Length == NSWAP
      && swapFile.Length == NSWAP
      && counters.Length == MAX_TOTAL_PAGES
      && kthreads.Length == NKT
    }

    /**
     * A released slot: UNUSED, identity fields zeroed, no trapframe, no page
     * table and no swap slot in use.
     */
    ghost predicate Freed()
      reads this, swapUsed
    {
      && state == Unused && pid == 0 && parent == null && name == ""
      && chan == 0 && !killed && xstate == 0 && sz == 0
      && !trapframe && pagetable == null
      && (forall i :: 0 <= i < swapUsed.Length ==> !swapUsed[i])
    }

    /** The slot as `procinit` leaves it: UNUSED, with its kernel stack assigned. */
    constructor (index: nat, algo: SwapAlgo)
      ensures Valid() && this.index == index && this.algo == algo
      ensures state == Unused && pid == 0 && !killed && kstack == Kstack(index)
      ensures pagetable == null && !hasSwapFile && parent == null
    {
      this.index := index;
      this.algo := algo;
      kstack := Kstack(index);
      state := Unused;
      pid := 0;
      parent := null;
      name := "";
      chan := 0;
      killed := false;
      xstate := 0;
      sz := 0;
      trapframe := false;
      pagetable := null;
      hasSwapFile := false;
      swapFileOnDisk := false;
      swapFile := new Page[NSWAP](_ => []);
      swapUsed := new bool[NSWAP](_ => false);
      counters := new uint32[MAX_TOTAL_PAGES](_ => 0);
      currPsycPage := 0;
      kthreads := new KThread[NKT](_ => KThread(TUnused, null, 0, None));
      tidCounter := 1;
      baseTrapframes := 0;
      contextSp := 0;
    }

    /** `proc_freeswapmetadata`: every swap slot becomes unused. */
    method FreeSwapMetadata()
      requires Valid()
      modifies swapUsed
      ensures forall i :: 0 <= i < swapUsed.Length ==> !swapUsed[i]
    {
      var i := 0;
      while i < NSWAP
        invariant 0 <= i <= NSWAP
        invariant forall k :: 0 <= k < i ==> !swapUsed[k]
      {
        swapUsed[i] := false;
        i := i + 1;
      }
    }

    /** The NFUA reset of `freeproc`: every counter becomes 0. */
    method ClearCounters()
      requires Valid()
      modifies counters
      ensures forall i :: 0 <= i < counters.Length ==> counters[i] == 0
    {
      var i := 0;
      while i < MAX_TOTAL_PAGES
        invariant 0 <= i <= MAX_TOTAL_PAGES
        invariant forall k :: 0 <= k < i ==> counters[k] == 0
      {
        counters[i] := 0;
        i := i + 1;
      }
    }

    /**
     * The LAPA reset of `freeproc`: each counter is OR-ed with its
     * complement, which sets all 32 bits whatever the counter held
     * (`OrComplement`).
     */
    method SaturateCounters()
      requires Valid()
      modifies counters
      ensures forall i :: 0 <= i < counters.Length ==> counters[i] == ALL_ONES
    {
      var i := 0;
      while i < MAX_TOTAL_PAGES
        invariant 0 <= i <= MAX_TOTAL_PAGES
        invariant forall k :: 0 <= k < i ==> counters[k] == ALL_ONES
      {
        var c := counters[i] as int as bv32;
        OrComplement(c);
        counters[i] := (c | !c) as int as uint32;
        i := i + 1;
      }
    }

    /** The policy part of `freeproc`: SCFIFO cursor 0, NFUA counters 0, LAPA counters all ones. */
    method ResetPolicy()
      requires Valid()
      modifies this`currPsycPage, counters
      ensures algo == Scfifo ==> currPsycPage == 0
      ensures algo != Scfifo ==> currPsycPage == old(currPsycPage)
      ensures algo == Nfua ==> forall i :: 0 <= i < counters.Length ==> counters[i] == 0
      ensures algo == Lapa ==> forall i :: 0 <= i < counters.Length ==> counters[i] == ALL_ONES
      ensures algo != Nfua && algo != Lapa ==> unchanged(counters)
    {
      if algo == Scfifo {
        currPsycPage := 0;
      } else if algo == Nfua {
        ClearCounters();
      } else if algo == Lapa {
        SaturateCounters();
      }
    }

    /**
     * `freeproc`: drops the trapframe and page table, frees every swap slot,
     * resets the policy state (SCFIFO cursor 0, NFUA counters 0, LAPA
     * counters all ones) and returns the slot to UNUSED with its identity
     * fields zeroed. The swap file itself is left alone.
     */
    method FreeProc()
      requires Valid()
      modifies this`trapframe, this`pagetable, this`currPsycPage, swapUsed, counters
      modifies this`sz, this`pid, this`parent, this`name, this`chan, this`killed, this`xstate, this`state
      ensures Valid() && Freed()
      ensures algo == Scfifo ==> currPsycPage == 0
      ensures algo != Scfifo ==> currPsycPage == old(currPsycPage)
      ensures algo == Nfua ==> forall i :: 0 <= i < counters.Length ==> counters[i] == 0
      ensures algo == Lapa ==> forall i :: 0 <= i < counters.Length ==> counters[i] == ALL_ONES
      ensures algo != Nfua && algo != Lapa ==> unchanged(counters)
    {
      trapframe := false;
      pagetable := null;
      FreeSwapMetadata();
      ResetPolicy();
      ClearIdentity();
    }

    /** `fork`'s copy of the parent's size and name, and the link to the parent. */
    method InheritFrom(p: Proc)
      modifies this`sz, this`name, this`parent
      ensures sz == old(p.sz) && name == old(p.name) && parent == p
    {
      sz, name, parent := p.sz, p.name, p;
    }

    /** `allocproc`'s first step on an UNUSED slot: the new pid, and state USED. */
    method TakePid(newPid: int)
      modifies this`pid, this`state
      ensures pid == newPid && state == Used
    {
      pid, state := newPid, Used;
    }

    /** What `kill` does to its victim: the kill flag set, and a SLEEPING process made RUNNABLE. */
    method SetKilled()
      modifies this`killed, this`state
      ensures killed && state == if old(state) == Sleeping then Runnable else old(state)
    {
      killed, state := true, if state == Sleeping then Runnable else state;
    }

    /** The last part of `freeproc`: size, pid, parent, name, channel, kill flag and exit status zeroed, state UNUSED. */
    method ClearIdentity()
      modifies this`sz, this`pid, this`parent, this`name, this`chan, this`killed, this`xstate, this`state
      ensures state == Unused && pid == 0 && parent == null && name == ""
      ensures chan == 0 && !killed && xstate == 0 && sz == 0
    {
      sz := 0;
      pid := 0;
      parent := null;
      name := "";
      chan := 0;
      killed := false;
      xstate := 0;
      state := Unused;
    }
  }

  /** `value |= ~value` on a 32-bit word sets every bit: the LAPA reset lands on `ALL_ONES` from any counter. */
  lemma OrComplement(c: bv32)
    ensures c | !c == 0xFFFF_FFFF
    ensures (c | !c) as int == ALL_ONES as int
  {
  }

  /** The effect of `wakeup(chan)` called from slot `me` on the table's states. */
  function Woken(states: seq<ProcState>, chans: seq<int>, me: Option<nat>, chan: int): (r: seq<ProcState>)
    requires |chans| == |states|
    ensures |r| == |states|
    ensures forall i :: 0 <= i < |r| && r[i] != states[i] ==> states[i] == Sleeping && r[i] == Runnable
  {
    seq(|states|, i requires 0 <= i < |states| =>
      if Some(i) != me && states[i] == Sleeping && chans[i] == chan then Runnable else states[i])
  }

  /** The processes `wakeup(chan)` acts on: exactly the sleepers on `chan` other than the caller. */
  lemma WokenExactly(states: seq<ProcState>, chans: seq<int>, me: Option<nat>, chan: int, i: nat)
    requires |chans| == |states| && i < |states|
    ensures Woken(states, chans, me, chan)[i] == Runnable && states[i] != Runnable
        <==> Some(i) != me && states[i] == Sleeping && chans[i] == chan
  {
  }

  /** Waking a channel nobody else sleeps on changes nothing, and waking twice is waking once. */
  lemma WokenIdempotent(states: seq<ProcState>, chans: seq<int>, me: Option<nat>, chan: int)
    requires |chans| == |states|
    ensures (forall i :: 0 <= i < |states| && Some(i) != me && states[i] == Sleeping ==> chans[i] != chan)
        ==> Woken(states, chans, me, chan) == states
    ensures Woken(Woken(states, chans, me, chan), chans, me, chan) == Woken(states, chans, me, chan)
  {
  }

  lemma {:induction false} IndexOfFirst<T>(s: seq<T>, x: T, i: nat)
    requires i < |s| && s[i] == x && (forall j :: 0 <= j < i ==> s[j] != x)
    ensures IndexOf(s, x) == Some(i)
  {
    if i > 0 {
      IndexOfFirst(s[1..], x, i - 1);
    }
  }

  lemma {:induction false} IndexOfAbsent<T>(s: seq<T>, x: T)
    requires forall j :: 0 <= j < |s| ==> s[j] != x
    ensures IndexOf(s, x) == None
  {
    if |s| > 0 {
      IndexOfAbsent(s[1..], x);
    }
  }

  /**
   * The pid discipline of the table: an UNUSED slot holds pid 0, a slot in
   * use holds a pid the counter has already handed out, and no two slots in
   * use hold the same pid.
   */
  ghost predicate PidsValid(states: seq<ProcState>, pids: seq<int>, nextpid: int)
  {
    && |states| == |pids|
    && nextpid >= 1
    && (forall i :: 0 <= i < |states| && states[i] == Unused ==> pids[i] == 0)
    && (forall i :: 0 <= i < |states| && states[i] != Unused ==> 1 <= pids[i] < nextpid)
    && (forall i, j :: 0 <= i < j < |states| && states[i] != Unused && states[j] != Unused ==> pids[i] != pids[j])
  }

  /** `wakeup` only turns SLEEPING into RUNNABLE, so it keeps the pid discipline. */
  lemma WokenKeepsPids(states: seq<ProcState>, chans: seq<int>, me: Option<nat>, chan: int, pids: seq<int>, nextpid: int)
    requires |chans| == |states| && PidsValid(states, pids, nextpid)
    ensures PidsValid(Woken(states, chans, me, chan), pids, nextpid)
  {
  }

  ghost function Elems(ps: seq<Proc>): set<Proc>
  {
    set p | p in ps
  }

  ghost function StatesOf(ps: seq<Proc>): (s: seq<ProcState>)
    reads Elems(ps)`state
    ensures |s| == |ps| && forall i :: 0 <= i < |ps| ==> s[i] == ps[i].state
  {
    if ps == [] then [] else [ps[0].state] + StatesOf(ps[1..])
  }

  ghost function PidsOf(ps: seq<Proc>): (s: seq<int>)
    reads Elems(ps)`pid
    ensures |s| == |ps| && forall i :: 0 <= i < |ps| ==> s[i] == ps[i].pid
  {
    if ps == [] then [] else [ps[0].pid] + PidsOf(ps[1..])
  }

  ghost function ChansOf(ps: seq<Proc>): (s: seq<int>)
    reads Elems(ps)`chan
    ensures |s| == |ps| && forall i :: 0 <= i < |ps| ==> s[i] == ps[i].chan
  {
    if ps == [] then [] else [ps[0].chan] + ChansOf(ps[1..])
  }

  ghost function LivePidsOf(ps: seq<Proc>): (s: seq<Option<int>>)
    reads Elems(ps)`state, Elems(ps)`pid
    ensures |s| == |ps|
    ensures forall i :: 0 <= i < |ps| ==> s[i] == if ps[i].state == Unused then None else Some(ps[i].pid)
  {
    if ps == [] then [] else [if ps[0].state == Unused then None else Some(ps[0].pid)] + LivePidsOf(ps[1..])
  }

  /** A state change that neither frees a slot nor puts one in use keeps the pid discipline. */
  lemma StateStepKeepsPids(states: seq<ProcState>, pids: seq<int>, nextpid: int, i: nat, st: ProcState)
    requires PidsValid(states, pids, nextpid) && i < |states| && (states[i] == Unused <==> st == Unused)
    ensures PidsValid(states[i := st], pids, nextpid)
  {
  }

  /** Giving an UNUSED slot the next pid and a live state keeps the pid discipline, with the counter advanced. */
  lemma ClaimKeepsPids(states: seq<ProcState>, pids: seq<int>, nextpid: int, i: nat, st: ProcState)
    requires PidsValid(states, pids, nextpid) && i < |states| && states[i] == Unused && st != Unused
    ensures PidsValid(states[i := st], pids[i := nextpid], nextpid + 1)
  {
  }

  /** A table with every slot UNUSED and every pid 0 obeys the pid discipline with the counter at 1. */
  lemma FreshTableKeepsPids(states: seq<ProcState>, pids: seq<int>)
    requires |states| == |pids|
    requires forall i :: 0 <= i < |states| ==> states[i] == Unused && pids[i] == 0
    ensures PidsValid(states, pids, 1)
  {
  }

  /** Returning a slot to UNUSED with pid 0 keeps the pid discipline. */
  lemma FreeKeepsPids(states: seq<ProcState>, pids: seq<int>, nextpid: int, i: nat)
    requires PidsValid(states, pids, nextpid) && i < |states|
    ensures PidsValid(states[i := Unused], pids[i := 0], nextpid)
  {
  }

  /**
   * Under the pid discipline a slot holds pid 0 exactly when it is UNUSED, so
   * the slot `kill(0)` hits is the lowest UNUSED one: the very slot the next
   * `allocproc` hands out, which keeps the kill flag.
   */
  lemma {:induction false} KillZeroHitsFreeSlot(states: seq<ProcState>, pids: seq<int>, nextpid: int)
    requires PidsValid(states, pids, nextpid)
    ensures IndexOf(pids, 0) == IndexOf(states, Unused)
  {
    var a, b := IndexOf(pids, 0), IndexOf(states, Unused);
    if a.Some? {
      assert states[a.value] == Unused;
      assert b.Some? && b.value <= a.value;
      assert pids[b.value] == 0;
    }
  }

  /**
   * The pid of each slot in use, None for UNUSED slots; `kill` restricted to
   * slots in use scans this sequence.
   */
  ghost predicate LiveView(states: seq<ProcState>, pids: seq<int>, live: seq<Option<int>>)
  {
    && |states| == |pids| == |live|
    && forall i :: 0 <= i < |live| ==> live[i] == if states[i] == Unused then None else Some(pids[i])
  }

  /**
   * Restricting `kill` to slots in use changes nothing for a real pid (any
   * pid but 0 hits the same slot) and makes `kill(0)` find nothing.
   */
  lemma {:induction false} LiveScanAgrees(states: seq<ProcState>, pids: seq<int>, nextpid: int, live: seq<Option<int>>, pid: int)
    requires PidsValid(states, pids, nextpid) && LiveView(states, pids, live)
    ensures pid != 0 ==> IndexOf(live, Some(pid)) == IndexOf(pids, pid)
    ensures pid == 0 ==> IndexOf(live, Some(pid)).None?
  {
    var a, b := IndexOf(live, Some(pid)), IndexOf(pids, pid);
    if pid != 0 {
      if a.Some? {
        assert pids[a.value] == pid;
        assert b.Some? && b.value <= a.value;
        assert states[b.value] != Unused;
        assert live[b.value] == Some(pid);
      }
    }
  }

  /** How `fork` ended: no child, a child released after a swap-file failure, or a child with its pid. */
  datatype ForkOutcome = NoChild | SwapFailed | Child(pid: int)

  /**
   * What `fork` returns to the parent, as written: -1 when no child was
   * made, the child's pid on success, and 0 when the child was released
   * after a swap-file failure.
   */
  function ForkReturn(o: ForkOutcome): (r: int)
    ensures o.Child? ==> r == o.pid
    ensures !o.Child? ==> r <= 0
    ensures o == NoChild ==> r < 0
  {
    match o
    case NoChild => -1
    case SwapFailed => 0
    case Child(pid) => pid
  }

  /**
   * A swap-file failure is reported with 0, the value the child itself sees
   * from `fork`: the parent takes itself for the child although no child exists.
   */
  lemma ForkReturnSwapFailedIsChildValue()
    ensures ForkReturn(SwapFailed) == 0 && !SwapFailed.Child?
  {
  }

  /** What `fork` evidently means to return: -1 for every failure, the child's pid on success. */
  function ForkReturnChecked(o: ForkOutcome): (r: int)
    ensures o.Child? ==> r == o.pid
    ensures !o.Child? ==> r == -1
  {
    if o.Child? then o.pid else -1
  }

  /**
   * With child pids positive, as `Fork` guarantees, the corrected return
   * value tells the three cases apart: positive exactly for a child, negative
   * exactly for a failure, never 0.
   */
  lemma ForkReturnCheckedDistinguishes(o: ForkOutcome)
    requires o.Child? ==> o.pid >= 1
    ensures ForkReturnChecked(o) > 0 <==> o.Child?
    ensures ForkReturnChecked(o) < 0 <==> !o.Child?
    ensures ForkReturnChecked(o) != 0
  {
  }

  /** `fork` gives no swap file to the children of `init` and `sh`. */
  predicate SwapExempt(parentName: string) {
    parentName == "init" || parentName == "sh"
  }

  /**
   * Whether the swap-file steps of `fork` succeed: creation is needed unless
   * the parent is exempt, and the copy is needed when the parent has a swap
   * file and the child has one (a new one, or the one its slot kept).
   */
  predicate SwapSetupOk(parentName: string, parentHasFile: bool, childHadFile: bool, createOk: bool, copyOk: bool) {
    && (SwapExempt(parentName) || createOk)
    && (!parentHasFile || (SwapExempt(parentName) && !childHadFile) || copyOk)
  }

  /** `copySwapFile`: every slot of `dst` receives the page in the same slot of `src`. */
  method CopySwapFile(src: array<Page>, dst: array<Page>)
    requires src.Length == dst.Length
    modifies dst
    ensures dst[..] == old(src[..])
  {
    var i := 0;
    while i < dst.Length
      invariant 0 <= i <= dst.Length
      invariant dst[..i] == old(src[..i])
      invariant src[i..] == old(src[i..])
    {
      dst[i] := src[i];
      i := i + 1;
    }
  }

  /** `procinit`: `NPROC` fresh UNUSED slots, each knowing its index. */
  method NewSlots(algo: SwapAlgo) returns (a: array<Proc>)
    ensures fresh(a) && a.Length == NPROC
    ensures forall k :: 0 <= k < NPROC ==> fresh(a[k]) && a[k].index == k && a[k].Valid()
    ensures forall k :: 0 <= k < NPROC ==> a[k].state == Unused && a[k].pid == 0 && !a[k].killed && a[k].algo == algo
  {
    var p0 := new Proc(0, algo);
    a := new Proc[NPROC](_ => p0);
    var i := 1;
    while i < NPROC
      invariant 1 <= i <= NPROC
      invariant forall k :: 0 <= k < i ==> fresh(a[k]) && a[k].index == k && a[k].Valid()
      invariant forall k :: 0 <= k < i ==> a[k].state == Unused && a[k].pid == 0 && !a[k].killed && a[k].algo == algo
    {
      a[i] := new Proc(i, algo);
      i := i + 1;
    }
  }

  /** The process table (`proc[NPROC]`) and the pid counter (`nextpid`). */
  class ProcTable {
    const procs: array<Proc>
    var nextpid: int

    ghost function Procs(): set<Proc>
      reads procs
    {
      set i | 0 <= i < procs.Length :: procs[i]
    }

    /** Every slot knows its own index, so the slots are distinct objects. */
    ghost predicate Indexed()
      reads procs
    {
      procs.Length == NPROC && forall i :: 0 <= i < NPROC ==> procs[i].index == i
    }

    /** The slots are indexed and each is well formed. */
    ghost predicate Shape()
      reads procs
    {
      Indexed() && forall i :: 0 <= i < NPROC ==> procs[i].Valid()
    }

    /** `p` is the process in its own slot of this table. */
    ghost predicate Slot(p: Proc)
      reads procs
    {
      p.index < procs.Length && procs[p.index] == p
    }

    /** The table is well formed and the pids obey `PidsValid`. */
    ghost predicate Valid()
      reads this, procs, Procs()`state, Procs()`pid
    {
      Shape() && PidsValid(States(), Pids(), nextpid)
    }

    /** No UNUSED slot carries a pending kill, so a newly allocated process starts alive. */
    ghost predicate UnusedClean()
      reads procs, Procs()`state, Procs()`killed
    {
      forall i :: 0 <= i < procs.Length && procs[i].state == Unused ==> !procs[i].killed
    }

    ghost function States(): (s: seq<ProcState>)
      reads procs, Procs()`state
      ensures |s| == procs.Length && forall i :: 0 <= i < procs.Length ==> s[i] == procs[i].state
    {
      StatesOf(procs[..])
    }

    ghost function Pids(): (s: seq<int>)
      reads procs, Procs()`pid
      ensures |s| == procs.Length && forall i :: 0 <= i < procs.Length ==> s[i] == procs[i].pid
    {
      PidsOf(procs[..])
    }

    ghost function Chans(): (s: seq<int>)
      reads procs, Procs()`chan
      ensures |s| == procs.Length && forall i :: 0 <= i < procs.Length ==> s[i] == procs[i].chan
    {
      ChansOf(procs[..])
    }

    /** The pid of each slot in use, None for UNUSED slots. */
    ghost function LivePids(): (s: seq<Option<int>>)
      reads procs, Procs()`state, Procs()`pid
      ensures |s| == procs.Length
      ensures forall i :: 0 <= i < procs.Length ==> s[i] == if procs[i].state == Unused then None else Some(procs[i].pid)
    {
      LivePidsOf(procs[..])
    }

    constructor (algo: SwapAlgo)
      ensures Valid() && nextpid == 1 && fresh(procs) && fresh(Procs())
      ensures forall i :: 0 <= i < NPROC ==> procs[i].state == Unused && procs[i].algo == algo
    {
      var a := NewSlots(algo);
      procs := a;
      nextpid := 1;
      new;
      FreshTableKeepsPids(States(), Pids());
    }

    /** `allocpid`: hands out the counter and advances it by one. */
    method AllocPid() returns (pid: int)
      modifies this`nextpid
      ensures pid == old(nextpid) && nextpid == old(nextpid) + 1
    {
      pid := nextpid;
      nextpid := nextpid + 1;
    }

    /** The scan of `allocproc`: the lowest-index UNUSED slot, if any. */
    method ScanUnused() returns (k: Option<nat>)
      requires Valid()
      ensures k == IndexOf(old(States()), Unused)
    {
      var i := 0;
      while i < NPROC
        invariant 0 <= i <= NPROC
        invariant forall j :: 0 <= j < i ==> procs[j].state != Unused
      {
        if procs[i].state == Unused {
          IndexOfFirst(States(), Unused, i);
          return Some(i);
        }
        i := i + 1;
      }
      IndexOfAbsent(States(), Unused);
      return None;
    }

    /** The first step after `found:`: the UNUSED slot `p` gets the next pid and becomes USED. */
    method Claim(p: Proc)
      requires Valid() && Slot(p) && p.state == Unused
      modifies this`nextpid, p`pid, p`state
      ensures Valid()
      ensures p.state == Used && p.pid == old(nextpid) && nextpid == old(nextpid) + 1
    {
      ghost var s0, p0, n0 := States(), Pids(), nextpid;
      var pid := AllocPid();
      p.TakePid(pid);
      assert States() == s0[p.index := Used];
      assert Pids() == p0[p.index := n0];
      ClaimKeepsPids(s0, p0, n0, p.index, Used);
    }

    /** `freeproc` on a slot of the table keeps the table's invariant. */
    method Release(p: Proc)
      requires Valid() && Slot(p)
      modifies p`trapframe, p`pagetable, p`currPsycPage, p.swapUsed, p.counters
      modifies p`sz, p`pid, p`parent, p`name, p`chan, p`killed, p`xstate, p`state
      ensures Valid() && p.Freed()
    {
      ghost var s0, p0 := States(), Pids();
      p.FreeProc();
      assert States() == s0[p.index := Unused];
      assert Pids() == p0[p.index := 0];
      FreeKeepsPids(s0, p0, nextpid, p.index);
    }

    /**
     * `allocproc` from the `found:` label on, for the UNUSED slot `p`: it gets
     * the next pid and becomes USED; the trapframe page and then the page table
     * are attached, and when either allocation failed the slot is released again
     * by `freeproc`, the pid staying consumed. Only once both are in place is the
     * saved context's stack pointer set to the top of the kernel stack.
     */
    method Setup(p: Proc, trapframeOk: bool, pagetable: PageTable?) returns (ok: bool)
      requires Valid() && Slot(p) && p.state == Unused
      modifies this`nextpid, p`pid, p`state, p`trapframe, p`pagetable, p`contextSp
      modifies p`currPsycPage, p`sz, p`parent, p`name, p`chan, p`killed, p`xstate, p.swapUsed, p.counters
      ensures Valid() && nextpid == old(nextpid) + 1
      ensures ok == (trapframeOk && pagetable != null)
      ensures ok ==> p.state == Used && p.pid == old(nextpid) && p.killed == old(p.killed)
      ensures ok ==> p.trapframe && p.pagetable == pagetable && p.contextSp == p.kstack + PGSIZE
      ensures !ok ==> p.Freed() && p.contextSp == old(p.contextSp)
    {
      Claim(p);
      ok := Attach(p, trapframeOk, pagetable);
    }

    /** The trapframe page and the page table `proc_pagetable` returned (null when it failed) recorded in slot `p`. */
    method RecordFrames(p: Proc, pt: PageTable?)
      requires Valid() && Slot(p)
      modifies p`trapframe, p`pagetable
      ensures Valid() && p.trapframe && p.pagetable == pt
    {
      p.trapframe, p.pagetable := true, pt;
    }

    /** The new context of `allocproc` in slot `p`: its stack pointer at the top of the kernel stack. */
    method InitContext(p: Proc)
      requires Valid() && Slot(p)
      modifies p`contextSp
      ensures Valid() && p.contextSp == p.kstack + PGSIZE
    {
      p.contextSp := p.kstack + PGSIZE;
    }

    /**
     * The allocations of `allocproc` for the claimed slot `p`: the trapframe
     * page, then the page table; a failure releases the slot, and only when
     * both are in place is the saved context's stack pointer set.
     */
    method Attach(p: Proc, trapframeOk: bool, pagetable: PageTable?) returns (ok: bool)
      requires Valid() && Slot(p)
      modifies p`trapframe, p`pagetable, p`contextSp
      modifies p`currPsycPage, p`sz, p`pid, p`parent, p`name, p`chan, p`killed, p`xstate, p`state, p.swapUsed, p.counters
      ensures Valid()
      ensures ok == (trapframeOk && pagetable != null)
      ensures ok ==> unchanged(p`state, p`pid, p`killed)
      ensures ok ==> p.trapframe && p.pagetable == pagetable && p.contextSp == p.kstack + PGSIZE
      ensures !ok ==> p.Freed() && p.contextSp == old(p.contextSp)
    {
      if !trapframeOk {
        Release(p);
        return false;
      }
      RecordFrames(p, pagetable);
      if pagetable == null {
        Release(p);
        return false;
      }
      InitContext(p);
      return true;
    }

    /**
     * `allocproc`: takes the lowest-index UNUSED slot and sets it up; with no
     * UNUSED slot nothing changes. No other slot is touched.
     */
    method AllocProc(trapframeOk: bool, pagetable: PageTable?) returns (r: Option<nat>)
      requires Valid()
      modifies this`nextpid, FreeSlotFootprint()
      ensures Valid()
      ensures var k := IndexOf(old(States()), Unused);
        && (k.None? ==> r.None? && nextpid == old(nextpid))
        && (k.Some? ==> nextpid == old(nextpid) + 1)
        && (r.Some? <==> k.Some? && trapframeOk && pagetable != null)
        && (r.Some? ==> r == k)
        && (r.Some? ==> procs[r.value].state == Used && procs[r.value].pid == old(nextpid))
        && (r.Some? ==> procs[r.value].killed == old(procs[r.value].killed))
        && (r.Some? ==> procs[r.value].trapframe && procs[r.value].pagetable == pagetable)
        && (r.Some? ==> procs[r.value].contextSp == procs[r.value].kstack + PGSIZE)
        && (k.Some? && r.None? ==> procs[k.value].Freed())
    {
      var k := ScanUnused();
      if k.None? {
        return None;
      }
      var ok := Setup(procs[k.value], trapframeOk, pagetable);
      r := if ok then k else None;
    }

    /**
     * The lowest-index UNUSED slot, which `allocproc` takes, and the arrays it
     * owns; empty when every slot is in use.
     */
    ghost function FreeSlotFootprint(): set<object>
      reads procs, Procs()`state
    {
      var k := IndexOf(States(), Unused);
      if k.Some? && k.value < procs.Length then
        {procs[k.value], procs[k.value].swapUsed, procs[k.value].counters, procs[k.value].swapFile}
      else {}
    }

    /**
     * `fork` called by the live process in slot `me`: `allocproc` takes the
     * lowest-index UNUSED slot `k` for the child, then the child is set up as
     * `ForkInto` says.
     */
    method Fork(me: nat, trapframeOk: bool, pagetable: PageTable?, copyOk: bool, createOk: bool, swapCopyOk: bool)
      returns (o: ForkOutcome, k: Option<nat>)
      requires Valid() && me < NPROC && procs[me].state != Unused
      modifies this`nextpid, FreeSlotFootprint()
      ensures Valid() && k == IndexOf(old(States()), Unused)
      ensures k.None? ==> o == NoChild && nextpid == old(nextpid)
      ensures k.Some? ==> (o == NoChild <==> !(trapframeOk && pagetable != null && copyOk))
      ensures k.Some? ==> (o.Child? <==> trapframeOk && pagetable != null && copyOk && SwapSetupOk(
        old(procs[me].name), old(procs[me].hasSwapFile), old(procs[k.value].hasSwapFile), createOk, swapCopyOk))
      ensures o.Child? ==> k.Some? && o.pid == old(nextpid) >= 1
      ensures o.Child? ==> procs[k.value].pid == o.pid && procs[k.value].state == Runnable
      ensures k.Some? && !o.Child? ==> procs[k.value].Freed()
      ensures o.Child? ==>
        && procs[k.value].parent == procs[me]
        && procs[k.value].sz == old(procs[me].sz) && procs[k.value].name == old(procs[me].name)
    {
      k := ScanUnused();
      if k.None? {
        return NoChild, k;
      }
      var np, p := procs[k.value], procs[me];
      assert np != p;
      o := ForkInto(np, p, trapframeOk, pagetable, copyOk, createOk, swapCopyOk);
      assert procs[k.value] == np;
    }

    /** `fork` once `allocproc` has found the UNUSED slot `np` for the child of `p`. */
    method ForkInto(np: Proc, p: Proc, trapframeOk: bool, pagetable: PageTable?, copyOk: bool, createOk: bool, swapCopyOk: bool)
      returns (o: ForkOutcome)
      requires Valid() && Slot(np) && Slot(p) && np != p && np.state == Unused && p.state != Unused
      modifies this`nextpid, np, np.swapUsed, np.counters, np.swapFile
      ensures Valid() && nextpid == old(nextpid) + 1
      ensures o == NoChild <==> !(trapframeOk && pagetable != null && copyOk)
      ensures o.Child? <==> (trapframeOk && pagetable != null && copyOk
        && SwapSetupOk(old(p.name), old(p.hasSwapFile), old(np.hasSwapFile), createOk, swapCopyOk))
      ensures o.Child? ==> o.pid == old(nextpid) >= 1 && np.pid == o.pid && np.state == Runnable
      ensures o.Child? ==> np.parent == p && np.sz == old(p.sz) && np.name == old(p.name)
      ensures !o.Child? ==> np.Freed()
    {
      ghost var name, sz, hasFile, childHadFile := p.name, p.sz, p.hasSwapFile, np.hasSwapFile;
      var ok := Setup(np, trapframeOk, pagetable);
      if !ok {
        return NoChild;
      }
      assert p.name == name && p.sz == sz && p.hasSwapFile == hasFile && np.hasSwapFile == childHadFile;
      o := ForkFrom(np, p, copyOk, createOk, swapCopyOk);
    }

    /** `fork`'s copy of the parent's size and name into the child, and the parent link. */
    method Inherit(np: Proc, p: Proc)
      requires Valid() && Slot(np)
      modifies np`sz, np`name, np`parent
      ensures Valid() && np.sz == old(p.sz) && np.name == old(p.name) && np.parent == p
    {
      np.InheritFrom(p);
    }

    /** `createSwapFile`: the child gets a swap file on disk (its slots are written before they are read). */
    method CreateSwapFile(np: Proc)
      requires Valid() && Slot(np)
      modifies np`hasSwapFile, np`swapFileOnDisk
      ensures Valid() && np.hasSwapFile && np.swapFileOnDisk
    {
      np.hasSwapFile, np.swapFileOnDisk := true, true;
    }

    /**
     * `removeSwapFile`: the child's swap file is deleted from disk. The
     * pointer to it stays set; `exit` clears its own afterwards.
     */
    method RemoveSwapFile(np: Proc)
      requires Valid() && Slot(np)
      modifies np`swapFileOnDisk
      ensures Valid() && !np.swapFileOnDisk
    {
      np.swapFileOnDisk := false;
    }

    /** The last step of a successful `fork`: the child becomes RUNNABLE. */
    method MakeRunnable(np: Proc)
      requires Valid() && Slot(np) && np.state != Unused
      modifies np`state
      ensures Valid() && np.state == Runnable
    {
      ghost var s0 := States();
      np.state := Runnable;
      assert States() == s0[np.index := Runnable];
      StateStepKeepsPids(s0, Pids(), nextpid, np.index, Runnable);
    }

    /**
     * The first swap-file step of `fork`: unless the parent is exempt the
     * child gets a swap file, and when that fails (`createOk` false) the
     * child is released.
     */
    method GiveSwapFile(np: Proc, p: Proc, createOk: bool) returns (ok: bool)
      requires Valid() && Slot(np) && Slot(p) && np != p
      modifies np, np.swapUsed, np.counters
      ensures Valid()
      ensures ok <==> SwapExempt(p.name) || createOk
      ensures ok ==> unchanged(np`sz, np`pid, np`parent, np`name, np`state)
      ensures ok ==> np.hasSwapFile == (old(np.hasSwapFile) || !SwapExempt(p.name))
      ensures !ok ==> np.Freed()
    {
      if SwapExempt(p.name) {
        return true;
      }
      if !createOk {
        Release(np);
        return false;
      }
      CreateSwapFile(np);
      return true;
    }

    /**
     * The second swap-file step of `fork`: when parent and child both have a
     * swap file the parent's is copied into the child's; when that copy fails
     * (`swapCopyOk` false) the child's swap file is removed and the child released.
     */
    method CopyParentSwap(np: Proc, p: Proc, swapCopyOk: bool) returns (ok: bool)
      requires Valid() && Slot(np) && Slot(p) && np != p
      modifies np, np.swapUsed, np.counters, np.swapFile
      ensures Valid()
      ensures ok <==> !p.hasSwapFile || !old(np.hasSwapFile) || swapCopyOk
      ensures ok ==> unchanged(np`sz, np`pid, np`parent, np`name, np`state, np`hasSwapFile)
      ensures ok && p.hasSwapFile && np.hasSwapFile ==> np.swapFile[..] == old(p.swapFile[..])
      ensures !ok ==> np.Freed() && np.hasSwapFile && !np.swapFileOnDisk
    {
      if !p.hasSwapFile || !np.hasSwapFile {
        return true;
      }
      if !swapCopyOk {
        RemoveSwapFile(np);
        Release(np);
        return false;
      }
      CopySwap(np, p);
      return true;
    }

    /** `copySwapFile`: the child's swap file becomes a copy of the parent's. */
    method CopySwap(np: Proc, p: Proc)
      requires Valid() && Slot(np) && Slot(p) && np != p
      modifies np.swapFile
      ensures Valid() && np.swapFile[..] == old(p.swapFile[..])
    {
      CopySwapFile(p.swapFile, np.swapFile);
    }

    /**
     * `fork` after `allocproc` succeeded with slot `np`, for the parent `p`:
     * the user memory is copied (`copyOk`), size, name and parent link are
     * set, then the swap file is set up. A failed memory copy releases the
     * child with no pid to report; a failed swap-file step releases it and is
     * reported as `SwapFailed`. Otherwise the child becomes RUNNABLE.
     */
    method ForkFrom(np: Proc, p: Proc, copyOk: bool, createOk: bool, swapCopyOk: bool) returns (o: ForkOutcome)
      requires Valid() && Slot(np) && Slot(p) && np != p && np.state == Used
      modifies np, np.swapUsed, np.counters, np.swapFile
      ensures Valid()
      ensures o == NoChild <==> !copyOk
      ensures o.Child? <==> copyOk && SwapSetupOk(old(p.name), old(p.hasSwapFile), old(np.hasSwapFile), createOk, swapCopyOk)
      ensures o.Child? ==> o.pid == old(np.pid) && np.pid == o.pid && np.state == Runnable
      ensures o.Child? ==> np.parent == p && np.sz == old(p.sz) && np.name == old(p.name)
      ensures !o.Child? ==> np.Freed()
    {
      if !copyOk {
        Release(np);
        return NoChild;
      }
      Inherit(np, p);
      o := FinishFork(np, p, createOk, swapCopyOk);
    }

    /** The swap-file steps of `fork` and, when they succeed, the child made RUNNABLE. */
    method FinishFork(np: Proc, p: Proc, createOk: bool, swapCopyOk: bool) returns (o: ForkOutcome)
      requires Valid() && Slot(np) && Slot(p) && np != p && np.state == Used
      modifies np, np.swapUsed, np.counters, np.swapFile
      ensures Valid() && o != NoChild
      ensures o.Child? <==> SwapSetupOk(p.name, old(p.hasSwapFile), old(np.hasSwapFile), createOk, swapCopyOk)
      ensures o.Child? ==> o.pid == old(np.pid) && np.pid == o.pid && np.state == Runnable
      ensures o.Child? ==> unchanged(np`parent, np`sz, np`name)
      ensures !o.Child? ==> np.Freed()
    {
      var ok := GiveSwapFile(np, p, createOk);
      if !ok {
        return SwapFailed;
      }
      ok := CopyParentSwap(np, p, swapCopyOk);
      if !ok {
        return SwapFailed;
      }
      var pid := np.pid;
      MakeRunnable(np);
      return Child(pid);
    }

    /**
     * `wakeup(chan)` called from slot `me` (None outside any process): every
     * SLEEPING process other than the caller whose channel is `chan` becomes
     * RUNNABLE; nothing else changes.
     */
    method Wakeup(chan: int, me: Option<nat>)
      requires Valid()
      modifies Procs()`state
      ensures Valid()
      ensures States() == Woken(old(States()), old(Chans()), me, chan)
    {
      ghost var s0, c0 := States(), Chans();
      WakeAll(chan, me);
      WokenKeepsPids(s0, c0, me, chan, Pids(), nextpid);
    }

    /** One step of `wakeup`'s loop: slot `p` is woken if it sleeps on `chan` and is not the caller. */
    method WakeOne(p: Proc, chan: int, me: Option<nat>)
      requires Indexed() && Slot(p)
      modifies p`state
      ensures p.state == if Some(p.index) != me && old(p.state) == Sleeping && p.chan == chan then Runnable else old(p.state)
      ensures forall j :: 0 <= j < NPROC && j != p.index ==> procs[j].state == old(procs[j].state)
    {
      if Some(p.index) != me && p.state == Sleeping && p.chan == chan {
        p.state := Runnable;
      }
    }

    /** The loop of `wakeup`. */
    method WakeAll(chan: int, me: Option<nat>)
      requires Indexed()
      modifies Procs()`state
      ensures States() == Woken(old(States()), old(Chans()), me, chan)
    {
      ghost var s0, c0 := States(), Chans();
      ghost var w := Woken(s0, c0, me, chan);
      var i := 0;
      while i < NPROC
        invariant 0 <= i <= NPROC
        invariant forall j :: 0 <= j < i ==> procs[j].state == w[j]
        invariant forall j :: i <= j < NPROC ==> procs[j].state == s0[j]
      {
        WakeOne(procs[i], chan, me);
        i := i + 1;
      }
      assert States() == w;
    }

    /** The scan of `kill`: the first slot holding `pid`, whatever its state. */
    method ScanPid(pid: int) returns (k: Option<nat>)
      requires Valid()
      ensures k == IndexOf(old(Pids()), pid)
    {
      var i := 0;
      while i < NPROC
        invariant 0 <= i <= NPROC
        invariant forall j :: 0 <= j < i ==> procs[j].pid != pid
      {
        if procs[i].pid == pid {
          IndexOfFirst(Pids(), pid, i);
          return Some(i);
        }
        i := i + 1;
      }
      IndexOfAbsent(Pids(), pid);
      return None;
    }

    /** The scan of the corrected `kill`: the first slot in use holding `pid`. */
    method ScanLivePid(pid: int) returns (k: Option<nat>)
      requires Valid()
      ensures k == IndexOf(old(LivePids()), Some(pid))
    {
      var i := 0;
      while i < NPROC
        invariant 0 <= i <= NPROC
        invariant forall j :: 0 <= j < i ==> procs[j].state == Unused || procs[j].pid != pid
      {
        if procs[i].state != Unused && procs[i].pid == pid {
          IndexOfFirst(LivePids(), Some(pid), i);
          return Some(i);
        }
        i := i + 1;
      }
      IndexOfAbsent(LivePids(), Some(pid));
      return None;
    }

    /** The hit of `kill`: the kill flag is set and a SLEEPING process becomes RUNNABLE. */
    method MarkKilled(p: Proc)
      requires Valid() && Slot(p)
      modifies p`killed, p`state
      ensures Valid() && p.killed
      ensures p.state == if old(p.state) == Sleeping then Runnable else old(p.state)
      ensures forall i :: 0 <= i < NPROC && i != p.index ==> procs[i].killed == old(procs[i].killed) && procs[i].state == old(procs[i].state)
    {
      ghost var s0 := States();
      p.SetKilled();
      assert States() == s0[p.index := p.state];
      StateStepKeepsPids(s0, Pids(), nextpid, p.index, p.state);
    }

    /** `MarkKilled` on a slot in use: no UNUSED slot gains a pending kill. */
    method MarkKilledLive(p: Proc)
      requires Valid() && Slot(p) && p.state != Unused
      modifies p`killed, p`state
      ensures Valid() && p.killed
      ensures p.state == if old(p.state) == Sleeping then Runnable else old(p.state)
      ensures forall i :: 0 <= i < NPROC && i != p.index ==> procs[i].killed == old(procs[i].killed) && procs[i].state == old(procs[i].state)
      ensures old(UnusedClean()) ==> UnusedClean()
    {
      MarkKilled(p);
    }

    /**
     * `kill(pid)`: the first slot holding `pid` gets its kill flag set and, if
     * SLEEPING, becomes RUNNABLE; the result is 0. With no slot holding `pid`
     * the result is -1 and nothing changes. The scan does not look at the
     * state, so pid 0 matches an UNUSED slot.
     */
    method Kill(pid: int) returns (r: int)
      requires Valid()
      modifies Procs()`killed, Procs()`state
      ensures Valid()
      ensures var k := IndexOf(old(Pids()), pid);
        && (r == if k.Some? then 0 else -1)
        && (k.Some? ==> procs[k.value].killed)
        && (k.Some? ==> procs[k.value].state == if old(procs[k.value].state) == Sleeping then Runnable else old(procs[k.value].state))
        && (forall i :: 0 <= i < NPROC && Some(i) != k ==>
              procs[i].killed == old(procs[i].killed) && procs[i].state == old(procs[i].state))
    {
      var k := ScanPid(pid);
      if k.None? {
        return -1;
      }
      var p := procs[k.value];
      MarkKilled(p);
      assert procs[k.value] == p;
      return 0;
    }

    /**
     * `kill` restricted to slots in use: the first live slot holding `pid` is
     * marked, so an UNUSED slot never carries a kill into its next process.
     */
    method KillLive(pid: int) returns (r: int)
      requires Valid()
      modifies Procs()`killed, Procs()`state
      ensures Valid()
      ensures old(UnusedClean()) ==> UnusedClean()
      ensures var k := IndexOf(old(LivePids()), Some(pid));
        && (r == if k.Some? then 0 else -1)
        && (k.Some? ==> procs[k.value].killed)
        && (k.Some? ==> procs[k.value].state == if old(procs[k.value].state) == Sleeping then Runnable else old(procs[k.value].state))
        && (forall i :: 0 <= i < NPROC && Some(i) != k ==>
              procs[i].killed == old(procs[i].killed) && procs[i].state == old(procs[i].state))
    {
      var k := ScanLivePid(pid);
      if k.None? {
        return -1;
      }
      var p := procs[k.value];
      MarkKilledLive(p);
      assert procs[k.value] == p;
      return 0;
    }
  }
}
