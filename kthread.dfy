/**
 * The kernel-thread array of a process: setting it up, handing out thread
 * ids, and the placement of each thread's kernel stack and trapframe. A
 * thread's trapframe is named by its position among the process's
 * trapframes, counted in trapframes from `Proc.baseTrapframes`.
 */
module Kthread {
  import opened Opt
  import opened Riscv
  import opened Kproc

  /** The kernel stack of thread `j` of the process in slot `pi`: each (process, thread) pair has its own `KSTACK` index. */
  function ThreadStack(pi: nat, j: nat): int {
    Kstack(pi * NKT + j)
  }

  /** Two different (process, thread) pairs get stacks at least two pages apart, so neither touches the other or its guard page. */
  lemma ThreadStacksApart(p1: nat, j1: nat, p2: nat, j2: nat)
    requires j1 < NKT && j2 < NKT && (p1 != p2 || j1 != j2)
    ensures ThreadStack(p1, j1) - ThreadStack(p2, j2) >= 2 * PGSIZE
         || ThreadStack(p2, j2) - ThreadStack(p1, j1) >= 2 * PGSIZE
  {
    KstacksApart(p1, j1, p2, j2, NKT);
  }

  /** Every thread stack of the table lies above address 0 and ends below the trampoline's guard. */
  lemma {:induction false} ThreadStackInRange(pi: nat, j: nat)
    requires pi < NPROC && j < NKT
    ensures 0 < ThreadStack(pi, j) && ThreadStack(pi, j) + PGSIZE <= TRAMPOLINE - PGSIZE
  {
    assert pi * NKT <= (NPROC - 1) * NKT by {
      MulMonotone(pi, NPROC - 1, NKT);
    }
  }

  /**
   * `get_kthread_trapframe`: thread `j`'s trapframe is the `j`-th after the
   * process's base, so the threads of one process occupy the NKT trapframes
   * from the base on.
   */
  function KthreadTrapframe(base: nat, j: nat): (r: nat)
    requires j < NKT
    ensures base <= r < base + NKT
  {
    base + j
  }

  /** Different threads of one process never share a trapframe. */
  lemma TrapframesDistinct(base: nat, j1: nat, j2: nat)
    requires j1 < NKT && j2 < NKT && j1 != j2
    ensures KthreadTrapframe(base, j1) != KthreadTrapframe(base, j2)
  {
  }

  /**
   * `kthreadinit`: every thread slot of `p` becomes UNUSED, belongs to `p`
   * and gets the kernel stack of its (process, thread) pair; its trapframe
   * is left as it was.
   */
  method KthreadInit(p: Proc)
    requires p.Valid()
    modifies p.kthreads
    ensures forall j :: 0 <= j < NKT ==>
      p.kthreads[j] == KThread(TUnused, p, ThreadStack(p.index, j), old(p.kthreads[j].trapframe))
  {
    var j := 0;
    while j < NKT
      invariant 0 <= j <= NKT
      invariant forall k :: 0 <= k < j ==>
        p.kthreads[k] == KThread(TUnused, p, ThreadStack(p.index, k), old(p.kthreads[k].trapframe))
      invariant forall k :: j <= k < NKT ==> p.kthreads[k] == old(p.kthreads[k])
    {
      p.kthreads[j] := p.kthreads[j].(state := TUnused, pp := p, kstack := ThreadStack(p.index, j));
      j := j + 1;
    }
  }

  /**
   * `alloctid`: the current counter is the new thread id and the counter
   * moves past it, so every later id is larger and no id is handed out twice.
   */
  method AllocTid(p: Proc) returns (tid: int)
    modifies p`tidCounter
    ensures tid == old(p.tidCounter) && p.tidCounter == tid + 1
  {
    tid := p.tidCounter;
    p.tidCounter := p.tidCounter + 1;
  }

  /**
   * `allocproc_help_function`: the first thread gets the first trapframe
   * after the base, and the saved context's stack pointer is the top of
   * that thread's kernel stack. No other thread slot changes.
   */
  method AllocprocHelp(p: Proc)
    requires p.Valid()
    modifies p.kthreads, p`contextSp
    ensures p.kthreads[0] == old(p.kthreads[0]).(trapframe := Some(KthreadTrapframe(p.baseTrapframes, 0)))
    ensures p.contextSp == p.kthreads[0].kstack + PGSIZE
    ensures forall j :: 1 <= j < NKT ==> p.kthreads[j] == old(p.kthreads[j])
  {
    p.kthreads[0] := p.kthreads[0].(trapframe := Some(KthreadTrapframe(p.baseTrapframes, 0)));
    p.contextSp := p.kthreads[0].kstack + PGSIZE;
  }

  /**
   * After `kthreadinit` the stack pointer `allocproc_help_function` sets is
   * the top of thread 0's own stack: one page above `ThreadStack(index, 0)`.
   */
  method InitThenHelp(p: Proc)
    requires p.Valid()
    modifies p.kthreads, p`contextSp
    ensures p.contextSp == ThreadStack(p.index, 0) + PGSIZE
    ensures p.kthreads[0].trapframe == Some(p.baseTrapframes)
    ensures forall j :: 0 <= j < NKT ==> p.kthreads[j].state == TUnused && p.kthreads[j].pp == p
  {
    KthreadInit(p);
    AllocprocHelp(p);
  }
}
