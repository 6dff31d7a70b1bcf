/**
 * The three page-replacement policies that choose which resident page to
 * page out: second-chance FIFO with a wrapping cursor (SCFIFO), aging
 * counters with the smallest counter evicted (NFUA), and aging counters
 * ranked by their number of set bits first (LAPA). A candidate is a
 * resident user page: its entry is valid and user-accessible.
 */
module Replacement {
  import opened Riscv
  import opened Kproc

  /** A resident user page, the only kind a policy may choose. */
  predicate Candidate(ptes: map<nat, bv64>, i: nat) {
    i in ptes && IsResidentUser(ptes[i])
  }

  // ---------------------------------------------------------------- SCFIFO

  /** The resident user pages whose accessed bit is set. */
  ghost function AccessedPages(ptes: map<nat, bv64>): set<nat> {
    set k | k in ptes && IsResidentUser(ptes[k]) && IsAccessed(ptes[k])
  }

  /**
   * `after` differs from `before` only by cleared accessed bits, and only on
   * resident user pages whose accessed bit was set and whose address is at
   * or below `sz`.
   */
  ghost predicate OnlyAccessCleared(before: map<nat, bv64>, after: map<nat, bv64>, sz: nat) {
    && before.Keys == after.Keys
    && forall k :: k in before ==>
         || after[k] == before[k]
         || (k * PGSIZE <= sz && Candidate(before, k) && IsAccessed(before[k]) && after[k] == ClearAccessed(before[k]))
  }

  /**
   * How many more turns of the SCFIFO loop pass before the cursor, now
   * `cur`, reaches page `t` (when no turn ends the loop first): the cursor
   * visits `cur`, `cur + PGSIZE`, ... while it is at most `sz`, then starts
   * again at 0.
   */
  ghost function Turns(cur: nat, sz: nat, t: nat): nat
    requires t * PGSIZE <= sz
  {
    if cur > sz then t
    else if cur / PGSIZE <= t && cur + (t - cur / PGSIZE) * PGSIZE <= sz then t - cur / PGSIZE
    else (sz - cur) / PGSIZE + 1 + t
  }

  /** A turn of the loop that does not visit page `t` brings the cursor one turn closer to it. */
  lemma TurnsStep(cur: nat, wrapped: nat, sz: nat, t: nat)
    requires t * PGSIZE <= sz
    requires wrapped == if cur > sz then 0 else cur
    requires wrapped / PGSIZE != t
    ensures Turns(wrapped + PGSIZE, sz, t) < Turns(cur, sz, t)
  {
  }

  /** Clearing the accessed bit of an accessed resident user page removes it from `AccessedPages`. */
  lemma ClearShrinks(ptes: map<nat, bv64>, k: nat)
    requires Candidate(ptes, k) && IsAccessed(ptes[k])
    ensures AccessedPages(ptes[k := ClearAccessed(ptes[k])]) == AccessedPages(ptes) - {k}
    ensures |AccessedPages(ptes[k := ClearAccessed(ptes[k])])| < |AccessedPages(ptes)|
  {
    ClearAccessedKeeps(ptes[k]);
    assert k in AccessedPages(ptes);
  }

  /** Giving one more accessed page at or below `sz` its second chance keeps `OnlyAccessCleared`, and keeps every candidate a candidate. */
  lemma ClearStep(before: map<nat, bv64>, ptes: map<nat, bv64>, k: nat, sz: nat)
    requires OnlyAccessCleared(before, ptes, sz)
    requires Candidate(ptes, k) && IsAccessed(ptes[k]) && k * PGSIZE <= sz
    ensures OnlyAccessCleared(before, ptes[k := ClearAccessed(ptes[k])], sz)
    ensures forall i :: Candidate(ptes, i) ==> Candidate(ptes[k := ClearAccessed(ptes[k])], i)
  {
    ClearAccessedKeeps(ptes[k]);
    if ptes[k] != before[k] {
      ClearAccessedKeeps(before[k]);
    }
  }

  /** The page SCFIFO looks at with the cursor at `cur`: the cursor's page, or page 0 once the cursor is past `sz`. */
  function ScanStart(cur: nat, sz: nat): nat {
    if cur > sz then 0 else cur / PGSIZE
  }

  /** The number of pages SCFIFO cycles over: those at or below `sz`. */
  function CyclePages(sz: nat): nat {
    sz / PGSIZE + 1
  }

  /** Page `t`'s place in SCFIFO's cycle over pages 0 to `n - 1` from page `s`: `s` first, then upwards, wrapping to 0. */
  function Pos(s: nat, n: nat, t: nat): (r: nat)
    requires s < n && t < n
    ensures r < n && (r == 0 <==> t == s)
  {
    if t >= s then t - s else n - s + t
  }

  /** Two pages with the same place in the cycle are the same page. */
  lemma PosInjective(s: nat, n: nat, t1: nat, t2: nat)
    requires s < n && t1 < n && t2 < n && Pos(s, n, t1) == Pos(s, n, t2)
    ensures t1 == t2
  {
  }

  /** Page `k` is a resident user page among the first `m` places of the cycle. */
  predicate Passed(before: map<nat, bv64>, s: nat, n: nat, m: nat, k: nat) {
    s < n && k < n && Candidate(before, k) && Pos(s, n, k) < m
  }

  /**
   * After the first `m` places of the cycle: the resident user pages passed
   * all had their accessed bit set and now have it cleared, and nothing
   * else has changed.
   */
  ghost predicate ClearedUpTo(before: map<nat, bv64>, after: map<nat, bv64>, s: nat, n: nat, m: nat) {
    && after.Keys == before.Keys
    && (forall k: nat :: k in before ==> after[k] == if Passed(before, s, n, m, k) then ClearAccessed(before[k]) else before[k])
    && (forall k: nat :: Passed(before, s, n, m, k) ==> IsAccessed(before[k]))
  }

  /**
   * SCFIFO's second-chance order over the cycle of `n` pages from page `s`.
   * Either `v` is the first resident user page whose accessed bit is clear
   * and every resident user page before it has had its bit cleared, or
   * every resident user page in the cycle was accessed, each has had its
   * bit cleared in one full turn, and `v` is the first of them.
   */
  ghost predicate ScfifoOrder(before: map<nat, bv64>, after: map<nat, bv64>, s: nat, n: nat, v: nat) {
    && s < n && v < n && Candidate(before, v)
    && (|| (!IsAccessed(before[v]) && ClearedUpTo(before, after, s, n, Pos(s, n, v)))
        || (&& ClearedUpTo(before, after, s, n, n)
            && forall t: nat :: t < n && Candidate(before, t) ==> Pos(s, n, v) <= Pos(s, n, t)))
  }

  /** The second-chance order determines the victim and the accessed bits cleared. */
  lemma ScfifoOrderUnique(before: map<nat, bv64>, a1: map<nat, bv64>, a2: map<nat, bv64>, s: nat, n: nat, v1: nat, v2: nat)
    requires ScfifoOrder(before, a1, s, n, v1) && ScfifoOrder(before, a2, s, n, v2)
    ensures v1 == v2 && a1 == a2
  {
    if Pos(s, n, v1) < Pos(s, n, v2) {
      assert Passed(before, s, n, Pos(s, n, v2), v1) && Passed(before, s, n, n, v1);
      assert false;
    } else if Pos(s, n, v2) < Pos(s, n, v1) {
      assert Passed(before, s, n, Pos(s, n, v1), v2) && Passed(before, s, n, n, v2);
      assert false;
    }
    PosInjective(s, n, v1, v2);
    var m := if IsAccessed(before[v1]) then n else Pos(s, n, v1);
    assert Passed(before, s, n, n, v1);
    assert ClearedUpTo(before, a1, s, n, m) && ClearedUpTo(before, a2, s, n, m);
    assert forall k | k in a1 :: a1[k] == a2[k];
  }

  /**
   * What SCFIFO's search has done once the cursor has reached place `pl`
   * of the cycle, in its first turn or (`second`) its second: the cursor is
   * on a page boundary at that place, the pages passed are cleared (all of
   * them after a full turn), and in the second turn the places passed again
   * held no resident user page.
   */
  ghost predicate ScfifoSoFar(before: map<nat, bv64>, ptes: map<nat, bv64>, s: nat, n: nat,
                              second: bool, pl: nat, cur: nat, sz: nat) {
    && s < n && n == CyclePages(sz) && pl < n && (cur > sz || cur % PGSIZE == 0)
    && ScanStart(cur, sz) < n && Pos(s, n, ScanStart(cur, sz)) == pl
    && ClearedUpTo(before, ptes, s, n, if second then n else pl)
    && (second ==> forall k: nat :: k < n && Candidate(before, k) ==> pl <= Pos(s, n, k))
  }

  /** The search starts with the cursor's page first in the cycle. */
  lemma ScfifoStart(before: map<nat, bv64>, cur: nat, sz: nat)
    requires cur > sz || cur % PGSIZE == 0
    ensures ScfifoSoFar(before, before, ScanStart(cur, sz), CyclePages(sz), false, 0, cur, sz)
  {
  }

  /** Moving the cursor on from a page at or below `sz` takes it to the next place of the cycle. */
  lemma ScanNext(cur: nat, sz: nat, s: nat, n: nat, pl: nat)
    requires cur <= sz && cur % PGSIZE == 0 && n == CyclePages(sz) && s < n && pl < n
    requires cur / PGSIZE < n && Pos(s, n, cur / PGSIZE) == pl
    ensures (cur + PGSIZE > sz || (cur + PGSIZE) % PGSIZE == 0) && ScanStart(cur + PGSIZE, sz) < n
    ensures Pos(s, n, ScanStart(cur + PGSIZE, sz)) == if pl + 1 < n then pl + 1 else 0
  {
    var q := cur / PGSIZE;
    assert cur == q * PGSIZE;
    if cur + PGSIZE <= sz {
      assert (cur + PGSIZE) / PGSIZE == q + 1;
    } else {
      assert q + 1 == n by {
        assert sz < (q + 1) * PGSIZE;
      }
    }
  }

  /** A resident user page with its accessed bit set at place `pl` can only be met in the first turn; clearing it passes it. */
  lemma ScfifoClearStep(before: map<nat, bv64>, ptes: map<nat, bv64>, s: nat, n: nat, second: bool, pl: nat, k: nat)
    requires s < n && k < n && pl < n && Pos(s, n, k) == pl
    requires ClearedUpTo(before, ptes, s, n, if second then n else pl)
    requires Candidate(ptes, k) && IsAccessed(ptes[k])
    ensures !second && ClearedUpTo(before, ptes[k := ClearAccessed(ptes[k])], s, n, pl + 1)
  {
    ClearAccessedKeeps(before[k]);
    if second {
      // every page of the cycle was passed, so k's bit would be clear already
      assert false;
    }
    assert !Passed(before, s, n, pl, k);
    forall t: nat | Passed(before, s, n, pl + 1, t) && t != k
      ensures Passed(before, s, n, pl, t)
    {
      if Pos(s, n, t) == pl {
        PosInjective(s, n, t, k);
      }
    }
  }

  /**
   * A place holding no resident user page passes nothing, and in the
   * second turn it cannot hold the first of them, so that turn does not
   * run out while some resident user page `t` lies in the cycle.
   */
  lemma ScfifoSkipStep(before: map<nat, bv64>, ptes: map<nat, bv64>, s: nat, n: nat, second: bool, pl: nat, k: nat, t: nat)
    requires s < n && k < n && pl < n && Pos(s, n, k) == pl
    requires ClearedUpTo(before, ptes, s, n, if second then n else pl)
    requires second ==> forall j: nat :: j < n && Candidate(before, j) ==> pl <= Pos(s, n, j)
    requires !Candidate(ptes, k) && t < n && Candidate(ptes, t)
    ensures ClearedUpTo(before, ptes, s, n, if second then n else pl + 1)
    ensures second ==> pl + 1 < n && forall j: nat :: j < n && Candidate(before, j) ==> pl + 1 <= Pos(s, n, j)
  {
    if k in before {
      ClearAccessedKeeps(before[k]);
    }
    ClearAccessedKeeps(before[t]);
    assert !Candidate(before, k);
    forall j: nat | j < n && Candidate(before, j)
      ensures Pos(s, n, j) != pl
    {
      if Pos(s, n, j) == pl {
        PosInjective(s, n, j, k);
      }
    }
    if !second {
      forall j: nat | Passed(before, s, n, pl + 1, j)
        ensures Passed(before, s, n, pl, j)
      {
      }
    } else {
      assert Candidate(before, t);
    }
  }

  /** A resident user page with its accessed bit clear at place `pl` is the victim in the second-chance order. */
  lemma ScfifoFound(before: map<nat, bv64>, ptes: map<nat, bv64>, s: nat, n: nat, second: bool, pl: nat, k: nat)
    requires s < n && k < n && pl < n && Pos(s, n, k) == pl
    requires ClearedUpTo(before, ptes, s, n, if second then n else pl)
    requires second ==> forall j: nat :: j < n && Candidate(before, j) ==> pl <= Pos(s, n, j)
    requires Candidate(ptes, k) && !IsAccessed(ptes[k])
    ensures ScfifoOrder(before, ptes, s, n, k)
  {
    ClearAccessedKeeps(before[k]);
    assert Candidate(before, k);
    if !second {
      assert !Passed(before, s, n, pl, k);
    }
  }

  /**
   * What holds at the head of each turn of SCFIFO's search: the resident
   * user page `t` at or below `sz` that makes the search end is still one,
   * only accessed bits have been cleared, and from a cursor that started
   * on a page boundary (`aligned`) the search has kept to the cycle.
   */
  ghost predicate ScanInv(before: map<nat, bv64>, ptes: map<nat, bv64>, sz: nat, t: nat, aligned: bool,
                          s: nat, n: nat, second: bool, pl: nat, cur: nat) {
    && Candidate(ptes, t) && t * PGSIZE <= sz
    && OnlyAccessCleared(before, ptes, sz)
    && (aligned ==> ScfifoSoFar(before, ptes, s, n, second, pl, cur, sz))
  }

  /**
   * A turn of the search that gives the page at the cursor, wrapped to
   * `w`, its second chance: one accessed page fewer, the invariant kept.
   */
  lemma ScfifoClearTurn(before: map<nat, bv64>, ptes: map<nat, bv64>, ptes': map<nat, bv64>, sz: nat, t: nat, aligned: bool,
                        s: nat, n: nat, second: bool, pl: nat, cur: nat, w: nat, k: nat)
    returns (second': bool, pl': nat)
    requires ScanInv(before, ptes, sz, t, aligned, s, n, second, pl, cur) && w == (if cur > sz then 0 else cur)
    requires k == w / PGSIZE && Candidate(ptes, k) && IsAccessed(ptes[k]) && ptes' == ptes[k := ClearAccessed(ptes[k])]
    ensures ScanInv(before, ptes', sz, t, aligned, s, n, second', pl', w + PGSIZE)
    ensures |AccessedPages(ptes')| < |AccessedPages(ptes)|
  {
    ClearShrinks(ptes, k);
    assert k * PGSIZE <= sz;
    ClearStep(before, ptes, k, sz);
    second', pl' := second, pl;
    if aligned {
      ScfifoClearStep(before, ptes, s, n, second, pl, k);
      ScanNext(w, sz, s, n, pl);
      if pl + 1 < n {
        second', pl' := false, pl + 1;
      } else {
        second', pl' := true, 0;
      }
    }
  }

  /** A turn of the search past a place, wrapped to `w`, holding no resident user page: the cursor comes closer to page `t`. */
  lemma ScfifoSkipTurn(before: map<nat, bv64>, ptes: map<nat, bv64>, sz: nat, t: nat, aligned: bool,
                       s: nat, n: nat, second: bool, pl: nat, cur: nat, w: nat)
    returns (second': bool, pl': nat)
    requires ScanInv(before, ptes, sz, t, aligned, s, n, second, pl, cur) && w == (if cur > sz then 0 else cur)
    requires !Candidate(ptes, w / PGSIZE)
    ensures ScanInv(before, ptes, sz, t, aligned, s, n, second', pl', w + PGSIZE)
    ensures Turns(w + PGSIZE, sz, t) < Turns(cur, sz, t)
  {
    TurnsStep(cur, w, sz, t);
    second', pl' := second, pl;
    if aligned {
      ScfifoSkipStep(before, ptes, s, n, second, pl, w / PGSIZE, t);
      ScanNext(w, sz, s, n, pl);
      if pl + 1 < n {
        second', pl' := second, pl + 1;
      } else {
        second', pl' := true, 0;
      }
    }
  }

  /** The turn that finds a resident user page, at the cursor wrapped to `w`, whose accessed bit is clear. */
  lemma ScfifoFoundTurn(before: map<nat, bv64>, ptes: map<nat, bv64>, sz: nat, t: nat, aligned: bool,
                        s: nat, n: nat, second: bool, pl: nat, cur: nat, w: nat)
    requires ScanInv(before, ptes, sz, t, aligned, s, n, second, pl, cur) && w == (if cur > sz then 0 else cur)
    requires Candidate(ptes, w / PGSIZE) && !IsAccessed(ptes[w / PGSIZE])
    ensures ScanFound(before, ptes, sz, aligned, s, n, w)
  {
    if aligned {
      ScfifoFound(before, ptes, s, n, second, pl, w / PGSIZE);
    }
  }

  /**
   * `scfifo`: from the cursor on, wrapping to 0 once the cursor is past
   * `sz`, the first resident user page whose accessed bit is clear is the
   * victim, and each accessed resident user page passed on the way has its
   * accessed bit cleared (its second chance). The cursor stays on the
   * victim. The loop only ends when some resident user page lies at or below
   * `sz`: that is the precondition. From a cursor on a page boundary (it
   * only ever moves by whole pages from 0) the choice follows the
   * second-chance order over the pages at or below `sz`.
   */
  method PickScfifo(p: Proc) returns (victim: nat)
    requires p.pagetable != null
    requires exists i: nat :: Candidate(p.pagetable.ptes, i) && i * PGSIZE <= p.sz
    modifies p.pagetable`ptes, p`currPsycPage
    ensures Candidate(p.pagetable.ptes, victim) && !IsAccessed(p.pagetable.ptes[victim])
    ensures p.currPsycPage <= p.sz && p.currPsycPage / PGSIZE == victim
    ensures OnlyAccessCleared(old(p.pagetable.ptes), p.pagetable.ptes, p.sz)
    ensures old(p.currPsycPage) > p.sz || old(p.currPsycPage) % PGSIZE == 0 ==>
      && p.currPsycPage == victim * PGSIZE
      && ScfifoOrder(old(p.pagetable.ptes), p.pagetable.ptes, ScanStart(old(p.currPsycPage), p.sz), CyclePages(p.sz), victim)
  {
    var ptes, cur;
    ptes, cur, victim := ScfifoSearch(p.pagetable.ptes, p.currPsycPage, p.sz);
    p.pagetable.ptes := ptes;
    p.currPsycPage := cur;
  }

  /** The loop of `scfifo` over the page table `ptes0` and the cursor `cur0`, giving the new entries, cursor and victim. */
  method ScfifoSearch(ptes0: map<nat, bv64>, cur0: nat, sz: nat) returns (ptes: map<nat, bv64>, cur: nat, victim: nat)
    requires exists i: nat :: Candidate(ptes0, i) && i * PGSIZE <= sz
    ensures Candidate(ptes, victim) && !IsAccessed(ptes[victim])
    ensures cur <= sz && cur / PGSIZE == victim
    ensures OnlyAccessCleared(ptes0, ptes, sz)
    ensures cur0 > sz || cur0 % PGSIZE == 0 ==>
      cur == victim * PGSIZE && ScfifoOrder(ptes0, ptes, ScanStart(cur0, sz), CyclePages(sz), victim)
  {
    ptes, cur := ptes0, cur0;
    ghost var t: nat :| Candidate(ptes, t) && t * PGSIZE <= sz;
    ghost var aligned := cur > sz || cur % PGSIZE == 0;
    ghost var s, n := ScanStart(cur, sz), CyclePages(sz);
    ghost var second, pl := false, 0;
    if aligned {
      ScfifoStart(ptes0, cur, sz);
    }
    while true
      // stated as one fact, so that each turn is checked against it whole
      invariant ScanInv(ptes0, ptes, sz, t, aligned, s, n, second, pl, cur) == true
      decreases |AccessedPages(ptes)|, Turns(cur, sz, t)
    {
      var found;
      ptes, cur, found, second, pl := ScfifoTurn(ptes0, ptes, sz, t, aligned, s, n, second, pl, cur, cur0);
      if found {
        victim := cur / PGSIZE;
        break;
      }
    }
  }

  /** How SCFIFO's search ends with the cursor at `cur`: see `PickScfifo`. */
  ghost predicate ScanFound(before: map<nat, bv64>, ptes: map<nat, bv64>, sz: nat, aligned: bool, s: nat, n: nat, cur: nat) {
    && Candidate(ptes, cur / PGSIZE) && !IsAccessed(ptes[cur / PGSIZE]) && cur <= sz
    && OnlyAccessCleared(before, ptes, sz)
    && (aligned ==> cur == cur / PGSIZE * PGSIZE && ScfifoOrder(before, ptes, s, n, cur / PGSIZE))
  }

  /** One turn of the loop of `scfifo`: the cursor, wrapped, names a page that is the victim, gets its second chance, or is passed by. */
  method ScfifoTurn(ghost before: map<nat, bv64>, ptes: map<nat, bv64>, sz: nat, ghost t: nat, ghost aligned: bool,
                    ghost s: nat, ghost n: nat, ghost second: bool, ghost pl: nat, cur: nat, ghost cur0: nat)
    returns (ptes': map<nat, bv64>, cur': nat, found: bool, ghost second': bool, ghost pl': nat)
    requires ScanInv(before, ptes, sz, t, aligned, s, n, second, pl, cur)
    requires aligned == (cur0 > sz || cur0 % PGSIZE == 0) && s == ScanStart(cur0, sz) && n == CyclePages(sz)
    ensures found ==> ScanFound(before, ptes', sz, aligned, s, n, cur') == true
    ensures !found ==> ScanInv(before, ptes', sz, t, aligned, s, n, second', pl', cur') == true
    ensures !found ==> |AccessedPages(ptes')| < |AccessedPages(ptes)| || (ptes' == ptes && Turns(cur', sz, t) < Turns(cur, sz, t))
  {
    ptes', cur', found := ptes, cur, false;
    second', pl' := second, pl;
    if cur' > sz {
      cur' := 0;
    }
    var k: nat := cur' / PGSIZE;
    if k in ptes' && IsResidentUser(ptes'[k]) {
      if !IsAccessed(ptes'[k]) {
        ScfifoFoundTurn(before, ptes, sz, t, aligned, s, n, second, pl, cur, cur');
        found := true;
        return;
      }
      ptes' := ptes'[k := ClearAccessed(ptes'[k])];
      second', pl' := ScfifoClearTurn(before, ptes, ptes', sz, t, aligned, s, n, second, pl, cur, cur', k);
      cur' := cur' + PGSIZE;
    } else {
      second', pl' := ScfifoSkipTurn(before, ptes, sz, t, aligned, s, n, second, pl, cur, cur');
      cur' := cur' + PGSIZE;
    }
  }


  // ---------------------------------------------------------- aging counters

  /** The counter's top bit, 2^31. */
  const MSB: uint32 := 0x8000_0000

  /** `1 << 31` on a 32-bit signed int: the least int of two's complement. */
  const INT_SHIFT_31: int := -0x8000_0000

  /**
   * The kernel sets the top bit with `1 << 31` on a signed int; OR-ed into
   * the unsigned 32-bit counter that int is taken modulo 2^32, which is
   * exactly the top bit.
   */
  lemma IntShiftIsMsb()
    ensures INT_SHIFT_31 % 0x1_0000_0000 == MSB as int
  {
  }

  /**
   * One aging step of a counter: `c >>= 1`, then `c |= MSB` when the page
   * was accessed. On an unsigned value the shift is halving, and the halved
   * value is below 2^31, so OR-ing in the top bit adds it.
   */
  function Aged(c: uint32, accessed: bool): uint32 {
    c / 2 + (if accessed then MSB else 0)
  }

  /** The top bit of an aged counter records the access; the bits below are the old history shifted down. */
  lemma AgedBits(c: uint32, accessed: bool)
    ensures (Aged(c, accessed) >= MSB) == accessed
    ensures Aged(c, accessed) % MSB == c / 2
  {
  }

  /** A page accessed in the last tick always ranks above one that was not, whatever their histories. */
  lemma AgedRecentWins(c1: uint32, c2: uint32)
    ensures Aged(c2, false) < Aged(c1, true)
  {
  }

  /**
   * The counters after one tick: each resident user page below page `n`
   * ages by its accessed bit; every other counter is unchanged.
   */
  function Ticked(cs: seq<uint32>, ptes: map<nat, bv64>, n: nat): (r: seq<uint32>)
    ensures |r| == |cs|
    ensures forall j :: 0 <= j < |cs| && !(j < n && Candidate(ptes, j)) ==> r[j] == cs[j]
  {
    seq(|cs|, j requires 0 <= j < |cs| => AgeAt(cs[j], ptes, n, j))
  }

  /** Counter `j` after one tick. */
  function AgeAt(c: uint32, ptes: map<nat, bv64>, n: nat, j: nat): uint32 {
    if j < n && Candidate(ptes, j) then Aged(c, IsAccessed(ptes[j])) else c
  }

  /** After a tick, a scanned resident user page's counter holds its accessed bit on top and its old history below. */
  lemma TickedRecords(cs: seq<uint32>, ptes: map<nat, bv64>, n: nat, j: nat)
    requires j < |cs| && j < n && Candidate(ptes, j)
    ensures (Ticked(cs, ptes, n)[j] >= MSB) == IsAccessed(ptes[j])
    ensures Ticked(cs, ptes, n)[j] % MSB == cs[j] / 2
  {
    assert Ticked(cs, ptes, n)[j] == Aged(cs[j], IsAccessed(ptes[j]));
    AgedBits(cs[j], IsAccessed(ptes[j]));
  }

  /** The number of pages the policies scan: every page below `PGROUNDUP(sz)`. */
  function ScanPages(sz: nat): nat {
    PgRoundUp(sz) / PGSIZE
  }

  /**
   * `nfua_tick` and `lapa_tick`: every resident user page below `sz` has its
   * counter aged by its accessed bit. The accessed bits are read, not cleared.
   */
  method Tick(p: Proc)
    requires p.Valid() && p.pagetable != null && ScanPages(p.sz) <= MAX_TOTAL_PAGES
    modifies p.counters
    ensures p.counters[..] == Ticked(old(p.counters[..]), p.pagetable.ptes, ScanPages(p.sz))
  {
    var n := PgRoundUp(p.sz) / PGSIZE;
    var ptes := p.pagetable.ptes;
    ghost var cs := p.counters[..];
    var i := 0;
    while i < n
      invariant 0 <= i <= n
      invariant forall j :: 0 <= j < i ==> p.counters[j] == AgeAt(cs[j], ptes, n, j)
      invariant forall j :: i <= j < MAX_TOTAL_PAGES ==> p.counters[j] == cs[j]
    {
      if i in ptes && IsResidentUser(ptes[i]) {
        p.counters[i] := p.counters[i] / 2;
        if IsAccessed(ptes[i]) {
          // the halved counter is below 2^31, so OR-ing in the top bit adds it
          IntShiftIsMsb();
          p.counters[i] := p.counters[i] + (INT_SHIFT_31 % 0x1_0000_0000) as uint32;
        }
      }
      i := i + 1;
    }
    assert p.counters[..] == Ticked(cs, ptes, n);
  }

  // -------------------------------------------------------------------- NFUA

  /**
   * `idx` is the NFUA victim among the pages below `n`: a candidate with the
   * smallest counter, and the lowest-index one among equals.
   */
  ghost predicate NfuaVictim(ptes: map<nat, bv64>, cs: seq<uint32>, n: nat, idx: nat)
    requires n <= |cs|
  {
    && idx < n && Candidate(ptes, idx)
    && forall j :: 0 <= j < n && Candidate(ptes, j) ==> cs[idx] <= cs[j] && (j < idx ==> cs[idx] < cs[j])
  }

  /** At most one page is the NFUA victim. */
  lemma NfuaVictimUnique(ptes: map<nat, bv64>, cs: seq<uint32>, n: nat, i1: nat, i2: nat)
    requires n <= |cs| && NfuaVictim(ptes, cs, n, i1) && NfuaVictim(ptes, cs, n, i2)
    ensures i1 == i2
  {
  }

  /**
   * The selection loop of `nfua`, `found` starting at 0: the first candidate
   * is taken, then a candidate replaces it only with a strictly smaller
   * counter. With no candidate the index stays 0.
   */
  method NfuaSelect(ptes: map<nat, bv64>, cs: seq<uint32>, n: nat) returns (idx: nat)
    requires n <= |cs|
    ensures (exists j :: 0 <= j < n && Candidate(ptes, j)) ==> NfuaVictim(ptes, cs, n, idx)
    ensures (forall j :: 0 <= j < n ==> !Candidate(ptes, j)) ==> idx == 0
  {
    var found := false;
    idx := 0;
    var i := 0;
    while i < n
      invariant 0 <= i <= n
      invariant !found ==> forall j :: 0 <= j < i ==> !Candidate(ptes, j)
      invariant found ==> NfuaVictim(ptes, cs, i, idx)
      invariant !found ==> idx == 0
    {
      if i in ptes && IsResidentUser(ptes[i]) {
        if !found {
          found := true;
          idx := i;
        } else if cs[i] < cs[idx] {
          idx := i;
        }
      }
      i := i + 1;
    }
  }

  /** `nfua`: one tick, then the page with the smallest counter among the resident user pages below `sz`. */
  method PickNfua(p: Proc) returns (idx: nat)
    requires p.Valid() && p.pagetable != null && ScanPages(p.sz) <= MAX_TOTAL_PAGES
    modifies p.counters
    ensures p.counters[..] == Ticked(old(p.counters[..]), p.pagetable.ptes, ScanPages(p.sz))
    ensures (exists j :: 0 <= j < ScanPages(p.sz) && Candidate(p.pagetable.ptes, j)) ==>
      NfuaVictim(p.pagetable.ptes, p.counters[..], ScanPages(p.sz), idx)
    ensures (forall j :: 0 <= j < ScanPages(p.sz) ==> !Candidate(p.pagetable.ptes, j)) ==> idx == 0
  {
    Tick(p);
    idx := NfuaSelect(p.pagetable.ptes, p.counters[..], PgRoundUp(p.sz) / PGSIZE);
  }

  // -------------------------------------------------------------------- LAPA

  /**
   * The number of set bits of `a`: its lowest binary digit plus the set bits
   * of the rest.
   */
  function Ones(a: nat): nat {
    if a == 0 then 0 else a % 2 + Ones(a / 2)
  }

  /** 2 to the power `k`. */
  function Pow2(k: nat): (r: nat)
    ensures r >= 1
  {
    if k == 0 then 1 else 2 * Pow2(k - 1)
  }

  /**
   * A value below 2^k has at most k set bits, and exactly k only when all of
   * its k bits are set.
   */
  lemma {:induction false} OnesBound(a: nat, k: nat)
    requires a < Pow2(k)
    ensures Ones(a) <= k
    ensures Ones(a) == k <==> a == Pow2(k) - 1
  {
    if k == 0 {
      assert a == 0;
    } else if a == 0 {
      assert Pow2(k) - 1 != 0 by { assert Pow2(k) == 2 * Pow2(k - 1); }
    } else {
      OnesBound(a / 2, k - 1);
      assert Pow2(k) == 2 * Pow2(k - 1);
    }
  }

  lemma Pow2Of32()
    ensures Pow2(32) == 0x1_0000_0000
  {
    assert Pow2(8) == 0x100;
    assert Pow2(16) == 0x1_0000;
    assert Pow2(24) == 0x100_0000;
  }

  /**
   * A counter has at most 32 set bits, and 32 exactly when it is all ones:
   * the value `freeproc` and a swap-in give a LAPA counter.
   */
  lemma OnesFull(a: uint32)
    ensures Ones(a as nat) <= 32
    ensures Ones(a as nat) == 32 <==> a == ALL_ONES
  {
    Pow2Of32();
    OnesBound(a as nat, 32);
  }

  /**
   * `popcount`: while `a` is not 0, count its low bit (`a & 1`) and shift it
   * right by one (`a >>= 1`, halving on an unsigned value).
   */
  method PopCount(a0: uint32) returns (r: nat)
    ensures r == Ones(a0 as nat)
  {
    var a := a0;
    r := 0;
    while a != 0
      invariant r + Ones(a as nat) == Ones(a0 as nat)
    {
      r := if a % 2 == 1 then r + 1 else r;
      a := a / 2;
    }
  }

  /** LAPA's order: fewer set bits first, then the smaller counter. */
  predicate LapaBefore(c1: uint32, c2: uint32) {
    Ones(c1 as nat) < Ones(c2 as nat) || (Ones(c1 as nat) == Ones(c2 as nat) && c1 < c2)
  }

  /**
   * `idx` is the LAPA victim among the pages below `n`: a candidate that no
   * other candidate precedes in LAPA's order, and the lowest-index one
   * among equals.
   */
  ghost predicate LapaVictim(ptes: map<nat, bv64>, cs: seq<uint32>, n: nat, idx: nat)
    requires n <= |cs|
  {
    && idx < n && Candidate(ptes, idx)
    && forall j :: 0 <= j < n && Candidate(ptes, j) ==>
         !LapaBefore(cs[j], cs[idx]) && (j < idx ==> LapaBefore(cs[idx], cs[j]))
  }

  /** At most one page is the LAPA victim. */
  lemma LapaVictimUnique(ptes: map<nat, bv64>, cs: seq<uint32>, n: nat, i1: nat, i2: nat)
    requires n <= |cs| && LapaVictim(ptes, cs, n, i1) && LapaVictim(ptes, cs, n, i2)
    ensures i1 == i2
  {
  }

  /**
   * A page whose counter is all ones (just reset) is the LAPA victim only
   * when every candidate's counter is all ones: any page with some history
   * of not being accessed goes first.
   */
  lemma LapaFreshLast(ptes: map<nat, bv64>, cs: seq<uint32>, n: nat, idx: nat, j: nat)
    requires n <= |cs| && LapaVictim(ptes, cs, n, idx) && cs[idx] == ALL_ONES
    requires j < n && Candidate(ptes, j)
    ensures cs[j] == ALL_ONES
  {
    OnesFull(cs[j]);
    OnesFull(cs[idx]);
  }

  /**
   * The selection loop of `lapa`, `found` starting at 0: the first candidate
   * is taken, then a candidate replaces it when it has fewer set bits, or as
   * many and a smaller counter. With no candidate the index stays 0.
   */
  method LapaSelect(ptes: map<nat, bv64>, cs: seq<uint32>, n: nat) returns (idx: nat)
    requires n <= |cs|
    ensures (exists j :: 0 <= j < n && Candidate(ptes, j)) ==> LapaVictim(ptes, cs, n, idx)
    ensures (forall j :: 0 <= j < n ==> !Candidate(ptes, j)) ==> idx == 0
  {
    var found := false;
    idx := 0;
    var i := 0;
    while i < n
      invariant 0 <= i <= n
      invariant !found ==> forall j :: 0 <= j < i ==> !Candidate(ptes, j)
      invariant found ==> LapaVictim(ptes, cs, i, idx)
      invariant !found ==> idx == 0
    {
      if i in ptes && IsResidentUser(ptes[i]) {
        if !found {
          found := true;
          idx := i;
        } else {
          var pop1 := PopCount(cs[i]);
          var pop2 := PopCount(cs[idx]);
          if pop1 < pop2 {
            idx := i;
          } else if pop1 == pop2 && cs[i] < cs[idx] {
            idx := i;
          }
        }
      }
      i := i + 1;
    }
  }

  /** `lapa`: one tick, then the first page in LAPA's order among the resident user pages below `sz`. */
  method PickLapa(p: Proc) returns (idx: nat)
    requires p.Valid() && p.pagetable != null && ScanPages(p.sz) <= MAX_TOTAL_PAGES
    modifies p.counters
    ensures p.counters[..] == Ticked(old(p.counters[..]), p.pagetable.ptes, ScanPages(p.sz))
    ensures (exists j :: 0 <= j < ScanPages(p.sz) && Candidate(p.pagetable.ptes, j)) ==>
      LapaVictim(p.pagetable.ptes, p.counters[..], ScanPages(p.sz), idx)
    ensures (forall j :: 0 <= j < ScanPages(p.sz) ==> !Candidate(p.pagetable.ptes, j)) ==> idx == 0
  {
    Tick(p);
    idx := LapaSelect(p.pagetable.ptes, p.counters[..], PgRoundUp(p.sz) / PGSIZE);
  }
}
