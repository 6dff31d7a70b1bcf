/**
 * The user-level thread library: a fixed table of threads, each FREE,
 * RUNNABLE or RUNNING with a priority, the pointer to the current thread and
 * the flag that lets the scheduler be started once. The register switch
 * (`uswtch`) is abstracted: a scheduling decision is reported as the index of
 * the thread switched to, or as the process exit it causes.
 */
module Uthread {
  import opened Opt

  datatype ThreadState = Free | Runnable | Running

  /** One entry of `THREADS`; the saved context and the stack are not modelled. */
  datatype UThread = UThread(state: ThreadState, priority: int)

  /** What a scheduling call ends in: a switch to a thread, or `exit(status)`. */
  datatype Outcome = SwitchTo(thread: nat) | Exit(status: int)

  /** A thread the scan may pick: RUNNABLE and not the skipped (current) one. */
  predicate Eligible(ts: seq<UThread>, skip: Option<nat>, j: nat)
    requires j < |ts|
  {
    Some(j) != skip && ts[j].state == Runnable
  }

  /**
   * The scan of `usched` and `usched1` over the first `upto` entries: the
   * first eligible thread is taken and replaced only by one of strictly
   * higher priority.
   */
  function Best(ts: seq<UThread>, skip: Option<nat>, upto: nat): (b: Option<nat>)
    requires upto <= |ts|
    ensures b.Some? ==> b.value < upto
  {
    if upto == 0 then None
    else
      var b := Best(ts, skip, upto - 1);
      var j := upto - 1;
      if !Eligible(ts, skip, j) then b
      else if b.None? then Some(j)
      else if ts[j].priority > ts[b.value].priority then Some(j)
      else b
  }

  /** `k` has the highest priority among the eligible threads below `upto`, and is the earliest such. */
  ghost predicate HighestFirst(ts: seq<UThread>, skip: Option<nat>, upto: nat, k: nat)
    requires upto <= |ts|
  {
    && k < upto
    && Eligible(ts, skip, k)
    && (forall j :: 0 <= j < upto && Eligible(ts, skip, j) ==> ts[j].priority <= ts[k].priority)
    && (forall j :: 0 <= j < k && Eligible(ts, skip, j) ==> ts[j].priority < ts[k].priority)
  }

  /** The scan finds nothing exactly when no thread is eligible, and otherwise finds the highest, earliest one. */
  lemma {:induction false} BestIsHighestFirst(ts: seq<UThread>, skip: Option<nat>, upto: nat)
    requires upto <= |ts|
    ensures Best(ts, skip, upto).None? <==> (forall j :: 0 <= j < upto ==> !Eligible(ts, skip, j))
    ensures Best(ts, skip, upto).Some? ==> HighestFirst(ts, skip, upto, Best(ts, skip, upto).value)
  {
    if upto > 0 {
      BestIsHighestFirst(ts, skip, upto - 1);
    }
  }

  /**
   * The decision of `usched` for current thread `curr`: the best other thread,
   * unless the current one is RUNNABLE and strictly more important; the
   * current one if nothing else is RUNNABLE and it is; otherwise None (the
   * process exits).
   */
  function Pick(ts: seq<UThread>, curr: nat): Option<nat>
    requires curr < |ts|
  {
    var b := Best(ts, Some(curr), |ts|);
    if b.Some? then
      if ts[curr].state == Runnable && ts[b.value].priority < ts[curr].priority then Some(curr) else b
    else if ts[curr].state == Runnable then Some(curr)
    else None
  }

  /**
   * `usched` exits exactly when no thread at all is RUNNABLE; otherwise it
   * picks a RUNNABLE thread of the highest priority present, and the current
   * thread only when no other RUNNABLE thread matches its priority.
   */
  lemma PickIsHighest(ts: seq<UThread>, curr: nat)
    requires curr < |ts|
    ensures Pick(ts, curr).None? <==> (forall j :: 0 <= j < |ts| ==> ts[j].state != Runnable)
    ensures Pick(ts, curr).Some? ==>
      var k := Pick(ts, curr).value;
      && k < |ts|
      && ts[k].state == Runnable
      && (forall j :: 0 <= j < |ts| && ts[j].state == Runnable ==> ts[j].priority <= ts[k].priority)
    ensures Pick(ts, curr) == Some(curr) ==>
      forall j :: 0 <= j < |ts| && j != curr && ts[j].state == Runnable ==> ts[j].priority < ts[curr].priority
  {
    BestIsHighestFirst(ts, Some(curr), |ts|);
    var b := Best(ts, Some(curr), |ts|);
    forall j | 0 <= j < |ts| && j != curr && ts[j].state == Runnable
      ensures Eligible(ts, Some(curr), j)
    {
    }
    if b.None? && ts[curr].state != Runnable {
      forall j | 0 <= j < |ts|
        ensures ts[j].state != Runnable
      {
        assert !Eligible(ts, Some(curr), j);
      }
    }
  }

  /** Among other threads the earliest one of the highest priority is picked, even against an equal current thread. */
  lemma PickOtherIsEarliest(ts: seq<UThread>, curr: nat)
    requires curr < |ts|
    requires Pick(ts, curr).Some? && Pick(ts, curr) != Some(curr)
    ensures HighestFirst(ts, Some(curr), |ts|, Pick(ts, curr).value)
    ensures ts[curr].state == Runnable ==> ts[curr].priority <= ts[Pick(ts, curr).value].priority
  {
    BestIsHighestFirst(ts, Some(curr), |ts|);
  }

  /** A thread that has just exited (marked FREE) is never picked. */
  lemma ExitedNeverPicked(ts: seq<UThread>, curr: nat)
    requires curr < |ts| && ts[curr].state == Free
    ensures Pick(ts, curr) != Some(curr)
  {
    BestIsHighestFirst(ts, Some(curr), |ts|);
  }

  /** The library's global state: `THREADS`, `curr_thread` and the `started` flag of `uthread_start_all`. */
  class Threads {
    const threads: array<UThread>
    var curr: Option<nat>
    var started: bool

    ghost predicate Valid()
      reads this
    {
      curr.Some? ==> curr.value < threads.Length
    }

    /** The zero-initialised globals: every slot FREE, no current thread, not started. */
    constructor (maxThreads: nat)
      ensures Valid() && fresh(threads) && !started && curr.None?
      ensures threads.Length == maxThreads
      ensures forall j :: 0 <= j < maxThreads ==> threads[j].state == Free
    {
      threads := new UThread[maxThreads](_ => UThread(Free, 0));
      curr := None;
      started := false;
    }

    /**
     * `uthread_create`: the first FREE slot gets the priority and becomes
     * RUNNABLE (0 is returned); with no FREE slot -1 is returned and nothing
     * changes.
     */
    method Create(priority: int) returns (r: int)
      requires Valid()
      modifies threads
      ensures Valid()
      ensures r == 0 <==> exists j :: 0 <= j < threads.Length && old(threads[j]).state == Free
      ensures r == 0 || r == -1
      ensures r == -1 ==> threads[..] == old(threads[..])
      ensures r == 0 ==> exists k :: (0 <= k < threads.Length && old(threads[k]).state == Free
        && (forall j :: 0 <= j < k ==> old(threads[j]).state != Free)
        && threads[..] == old(threads[..])[k := UThread(Runnable, priority)])
    {
      r := -1;
      var i := 0;
      while r != 0 && i < threads.Length
        invariant 0 <= i <= threads.Length
        invariant r == -1 ==> threads[..] == old(threads[..]) && forall j :: 0 <= j < i ==> threads[j].state != Free
        invariant r == 0 ==> (0 < i && old(threads[i - 1]).state == Free
          && (forall j :: 0 <= j < i - 1 ==> old(threads[j]).state != Free)
          && threads[..] == old(threads[..])[i - 1 := UThread(Runnable, priority)])
        invariant r == 0 || r == -1
      {
        if threads[i].state == Free {
          r := 0;
          threads[i] := UThread(Runnable, priority);
        }
        i := i + 1;
      }
    }

    /**
     * The scan shared by `usched` (skipping the current thread) and `usched1`
     * (skipping none): it only reads the table.
     */
    method ScanBest(skip: Option<nat>) returns (found: bool, best: nat)
      ensures found <==> Best(threads[..], skip, threads.Length).Some?
      ensures found ==> best == Best(threads[..], skip, threads.Length).value
    {
      found := false;
      best := 0;
      var i := 0;
      while i < threads.Length
        invariant 0 <= i <= threads.Length
        invariant found <==> Best(threads[..], skip, i).Some?
        invariant found ==> best == Best(threads[..], skip, i).value
      {
        if Some(i) != skip {
          if !found && threads[i].state == Runnable {
            found := true;
            best := i;
          }
          if threads[i].state == Runnable && threads[i].priority > threads[best].priority {
            best := i;
          }
        }
        i := i + 1;
      }
    }

    /**
     * `usched`: decides by `Pick`; the chosen thread becomes RUNNING and the
     * current one. When nothing is RUNNABLE the process exits with status 0
     * and the table is left as it was.
     */
    method Usched() returns (outcome: Outcome)
      requires Valid() && curr.Some?
      modifies this`curr, threads
      ensures Valid()
      ensures var p := Pick(old(threads[..]), old(curr).value);
        && (p.None? ==> outcome == Exit(0) && threads[..] == old(threads[..]) && curr == old(curr))
        && (p.Some? ==> (outcome == SwitchTo(p.value) && curr == p
              && threads[..] == old(threads[..])[p.value := old(threads[p.value]).(state := Running)]))
    {
      var c := curr.value;
      var found, toRun := ScanBest(Some(c));
      if found && threads[c].state == Runnable && threads[toRun].priority < threads[c].priority {
        toRun := c;
      }
      if !found && threads[c].state == Runnable {
        found := true;
        toRun := c;
      }
      if !found {
        return Exit(0);
      }
      curr := Some(toRun);
      threads[toRun] := threads[toRun].(state := Running);
      outcome := SwitchTo(toRun);
    }

    /**
     * `usched1`, the first scheduling: the earliest thread of the highest
     * priority among all RUNNABLE ones becomes RUNNING and current; with none
     * the process exits with status -1.
     */
    method Usched1() returns (outcome: Outcome)
      requires Valid()
      modifies this`curr, threads
      ensures Valid()
      ensures var b := Best(old(threads[..]), None, threads.Length);
        && (b.None? ==> outcome == Exit(-1) && threads[..] == old(threads[..]) && curr == old(curr))
        && (b.Some? ==> (outcome == SwitchTo(b.value) && curr == b
              && threads[..] == old(threads[..])[b.value := old(threads[b.value]).(state := Running)]))
    {
      var found, toRun := ScanBest(None);
      if !found {
        return Exit(-1);
      }
      curr := Some(toRun);
      threads[toRun] := threads[toRun].(state := Running);
      outcome := SwitchTo(toRun);
    }

    /** `uthread_yield`: the current thread becomes RUNNABLE again, then `usched` decides. */
    method Yield() returns (outcome: Outcome)
      requires Valid() && curr.Some?
      modifies this`curr, threads
      ensures Valid()
      ensures var ts := old(threads[..])[old(curr).value := old(threads[curr.value]).(state := Runnable)];
        var p := Pick(ts, old(curr).value);
        && (p.None? ==> outcome == Exit(0))
        && (p.Some? ==> (outcome == SwitchTo(p.value) && curr == p
              && threads[..] == ts[p.value := ts[p.value].(state := Running)]))
    {
      var c := curr.value;
      threads[c] := threads[c].(state := Runnable);
      outcome := Usched();
    }

    /** `uthread_exit`: the current thread is marked FREE, then `usched` decides; it is never picked again. */
    method ExitThread() returns (outcome: Outcome)
      requires Valid() && curr.Some?
      modifies this`curr, threads
      ensures Valid()
      ensures var ts := old(threads[..])[old(curr).value := old(threads[curr.value]).(state := Free)];
        var p := Pick(ts, old(curr).value);
        && (p.None? ==> outcome == Exit(0))
        && (p.Some? ==> (outcome == SwitchTo(p.value) && curr == p && p.value != old(curr).value
              && threads[..] == ts[p.value := ts[p.value].(state := Running)]))
    {
      var c := curr.value;
      threads[c] := threads[c].(state := Free);
      ExitedNeverPicked(threads[..], c);
      outcome := Usched();
    }

    /**
     * `uthread_start_all`: the first call marks the library started and runs
     * `usched1` (None stands for the -1 of every later call, which changes
     * nothing).
     */
    method StartAll() returns (r: Option<Outcome>)
      requires Valid()
      modifies this, threads
      ensures Valid()
      ensures old(started) ==> r.None? && started && curr == old(curr) && threads[..] == old(threads[..])
      ensures !old(started) ==> (started && r.Some?
        && var b := Best(old(threads[..]), None, threads.Length);
        && (b.None? ==> r.value == Exit(-1) && curr == old(curr) && threads[..] == old(threads[..]))
        && (b.Some? ==> (r.value == SwitchTo(b.value) && curr == b
              && threads[..] == old(threads[..])[b.value := old(threads[b.value]).(state := Running)])))
    {
      if started {
        return None;
      }
      started := true;
      var o := Usched1();
      r := Some(o);
    }

    /** `uthread_set_priority`: stores the new priority of the current thread and returns the previous one. */
    method SetPriority(priority: int) returns (prev: int)
      requires Valid() && curr.Some?
      modifies threads
      ensures prev == old(threads[curr.value]).priority
      ensures threads[..] == old(threads[..])[curr.value := old(threads[curr.value]).(priority := priority)]
    {
      var c := curr.value;
      prev := threads[c].priority;
      threads[c] := threads[c].(priority := priority);
    }
  }
}
