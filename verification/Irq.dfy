/** Interrupt handler chains threaded through a static pool (irq_handle.c). */
module Irq {

  const NR_IRQ_HANDLE: int := 32
  const NR_HARD_INTR: int := 16
  const NULL: int := -1

  /** struct IRQ_t: a routine, and the pool index of the next handler. */
  datatype Handler = Handler(routine: int, next: int)

  /** One successful call of add_irq_handle. */
  datatype Registration = Registration(irq: int, routine: int)

  datatype Outcome = Registered | Panic | OutOfBounds

  datatype Effect = Syscall | Halt | Handled(calls: seq<int>)

  // ----- what a sequence of registrations means -----

  /** The handlers registered for irq, newest first. */
  function HandlersFor(log: seq<Registration>, irq: int): seq<int> {
    if log == [] then []
    else
      var rest := HandlersFor(log[..|log| - 1], irq);
      var last := log[|log| - 1];
      if last.irq == irq then [last.routine] + rest else rest
  }

  /** `from` tells the registration each routine comes from: newest first, all those for irq and no others. */
  ghost predicate NewestFirst(routines: seq<int>, log: seq<Registration>, irq: int, from: seq<nat>) {
    && |from| == |routines|
    && (forall i :: 0 <= i < |from| ==> from[i] < |log| && log[from[i]].irq == irq && routines[i] == log[from[i]].routine)
    && (forall i, j :: 0 <= i < j < |from| ==> from[i] > from[j])
    && (forall k :: 0 <= k < |log| && log[k].irq == irq ==> k in from)
  }

  ghost predicate IsNewestFirst(routines: seq<int>, log: seq<Registration>, irq: int) {
    exists from: seq<nat> :: NewestFirst(routines, log, irq, from)
  }

  lemma InFront(from: seq<nat>, n: nat)
    ensures forall k :: k in [n] + from <==> k == n || k in from
    ensures forall i :: 0 < i < |from| + 1 ==> ([n] + from)[i] == from[i - 1]
  {
  }

  lemma OneMoreRegistration(routines: seq<int>, log: seq<Registration>, irq: int, from: seq<nat>, r: Registration)
    requires NewestFirst(routines, log, irq, from) && r.irq == irq
    ensures NewestFirst([r.routine] + routines, log + [r], irq, [|log|] + from)
  {
    var all, longer, called := [|log|] + from, log + [r], [r.routine] + routines;
    InFront(from, |log|);
    assert forall i :: 0 < i < |called| ==> called[i] == routines[i - 1];
    assert forall k :: 0 <= k < |log| ==> longer[k] == log[k];
    forall i | 0 <= i < |all|
      ensures all[i] < |longer| && longer[all[i]].irq == irq && called[i] == longer[all[i]].routine
      ensures i > 0 ==> all[i] < |log|
    {
    }
  }

  lemma OtherRegistration(routines: seq<int>, log: seq<Registration>, irq: int, from: seq<nat>, r: Registration)
    requires NewestFirst(routines, log, irq, from) && r.irq != irq
    ensures NewestFirst(routines, log + [r], irq, from)
  {
  }

  /** HandlersFor lists the routines registered for irq, newest first. */
  lemma {:induction false} HandlersInOrder(log: seq<Registration>, irq: int) returns (from: seq<nat>)
    ensures NewestFirst(HandlersFor(log, irq), log, irq, from)
  {
    hide NewestFirst;
    if log == [] {
      from := [];
      NoRegistration(irq);
    } else {
      var before, r := log[..|log| - 1], log[|log| - 1];
      from := HandlersInOrder(before, irq);
      assert before + [r] == log;
      if r.irq == irq {
        OneMoreRegistration(HandlersFor(before, irq), before, irq, from, r);
        from := [|before|] + from;
      } else {
        OtherRegistration(HandlersFor(before, irq), before, irq, from, r);
      }
    }
  }

  lemma HandlersAreNewestFirst(log: seq<Registration>, irq: int)
    ensures IsNewestFirst(HandlersFor(log, irq), log, irq)
  {
    var from := HandlersInOrder(log, irq);
    hide NewestFirst, HandlersFor;
  }

  lemma NoRegistration(irq: int)
    ensures NewestFirst([], [], irq, [])
  {
  }

  /** The newest registration for irq, or NULL. */
  function Newest(log: seq<Registration>, irq: int): (k: int)
    ensures k == NULL || (0 <= k < |log| && log[k].irq == irq)
    ensures forall j :: 0 <= j < |log| && k < j ==> log[j].irq != irq
  {
    if log == [] then NULL
    else if log[|log| - 1].irq == irq then |log| - 1
    else Newest(log[..|log| - 1], irq)
  }

  lemma {:induction false} HandlersFromNewest(log: seq<Registration>, irq: int)
    ensures var k := Newest(log, irq);
            HandlersFor(log, irq) == if k == NULL then [] else [log[k].routine] + HandlersFor(log[..k], irq)
  {
    if log != [] && log[|log| - 1].irq != irq {
      var init := log[..|log| - 1];
      HandlersFromNewest(init, irq);
      if Newest(init, irq) != NULL {
        assert init[..Newest(init, irq)] == log[..Newest(init, irq)];
      }
    }
  }

  // ----- chains in the pool -----

  /** Every link leads to an earlier entry. */
  ghost predicate LinksFall(pool: seq<Handler>) {
    forall j :: 0 <= j < |pool| ==> NULL <= pool[j].next < j
  }

  /** The pool indices reached from index k by following `next`. */
  ghost function Chain(pool: seq<Handler>, k: int): seq<int>
    requires LinksFall(pool) && NULL <= k < |pool|
    decreases k
  {
    if k == NULL then [] else [k] + Chain(pool, pool[k].next)
  }

  /** The used prefix of the pool mirrors the registrations: handler k is registration k, linked to
      the previous registration for the same interrupt. */
  ghost predicate Mirrors(pool: seq<Handler>, log: seq<Registration>) {
    && |pool| == |log|
    && forall k :: 0 <= k < |log| ==>
         pool[k] == Handler(log[k].routine, Newest(log[..k], log[k].irq))
  }

  lemma MirrorsFall(pool: seq<Handler>, log: seq<Registration>)
    requires Mirrors(pool, log)
    ensures LinksFall(pool)
  {
  }

  /** The chain of an interrupt holds exactly its registrations, so the chains are disjoint and
      together are the used part of the pool. */
  lemma {:induction false} ChainMembers(pool: seq<Handler>, log: seq<Registration>, irq: int, n: nat)
    requires Mirrors(pool, log) && LinksFall(pool) && n <= |log|
    ensures forall k :: k in Chain(pool, Newest(log[..n], irq)) <==> 0 <= k < n && log[k].irq == irq
    decreases n
  {
    var k := Newest(log[..n], irq);
    assert forall j :: 0 <= j < n ==> log[..n][j] == log[j];
    assert forall j :: k < j < n && 0 <= j ==> log[j].irq != irq;
    hide Newest;
    if k != NULL {
      assert pool[k].next == Newest(log[..k], irq);
      ChainMembers(pool, log, irq, k);
      var rest := Chain(pool, Newest(log[..k], irq));
      assert Chain(pool, k) == [k] + rest;
      assert forall j :: j in [k] + rest <==> j == k || j in rest;
    }
  }

  /** A chain is acyclic: its indices strictly fall. */
  lemma {:induction false} ChainFalls(pool: seq<Handler>, k: int)
    requires LinksFall(pool) && NULL <= k < |pool|
    ensures forall i, j :: 0 <= i < j < |Chain(pool, k)| ==> Chain(pool, k)[i] > Chain(pool, k)[j]
    ensures forall i :: 0 <= i < |Chain(pool, k)| ==> 0 <= Chain(pool, k)[i] <= k
    decreases k
  {
    if k != NULL {
      ChainFalls(pool, pool[k].next);
    }
  }

  /** The handlers at the indices of a chain have these routines. */
  ghost predicate HasRoutines(pool: seq<Handler>, chain: seq<int>, routines: seq<int>) {
    && |routines| == |chain|
    && forall i :: 0 <= i < |chain| ==> 0 <= chain[i] < |pool| && routines[i] == pool[chain[i]].routine
  }

  lemma OneMoreRoutine(pool: seq<Handler>, k: int, chain: seq<int>, routines: seq<int>)
    requires 0 <= k < |pool| && HasRoutines(pool, chain, routines)
    ensures HasRoutines(pool, [k] + chain, [pool[k].routine] + routines)
  {
  }

  /** Walking the chain meets the registered routines, newest first. */
  lemma {:induction false} ChainRoutines(pool: seq<Handler>, log: seq<Registration>, irq: int, n: nat)
    requires Mirrors(pool, log) && LinksFall(pool) && n <= |log|
    ensures HasRoutines(pool, Chain(pool, Newest(log[..n], irq)), HandlersFor(log[..n], irq))
    decreases n
  {
    var k := Newest(log[..n], irq);
    HandlersFromNewest(log[..n], irq);
    hide Newest, HandlersFor, HasRoutines;
    if k == NULL {
      NoRoutines(pool);
    } else {
      assert log[..n][..k] == log[..k];
      assert pool[k] == Handler(log[k].routine, Newest(log[..k], irq));
      ChainRoutines(pool, log, irq, k);
      OneMoreRoutine(pool, k, Chain(pool, Newest(log[..k], irq)), HandlersFor(log[..k], irq));
    }
  }

  lemma NoRoutines(pool: seq<Handler>)
    ensures HasRoutines(pool, [], [])
  {
  }

  /** One step along a chain: call a handler, go on with the registrations before it. */
  lemma WalkStep(pool: seq<Handler>, log: seq<Registration>, n: nat, irq: int)
    requires Mirrors(pool, log) && n <= |log|
    requires Newest(log[..n], irq) != NULL
    ensures var f := Newest(log[..n], irq);
            && 0 <= f < n && f < |pool|
            && HandlersFor(log[..n], irq) == [pool[f].routine] + HandlersFor(log[..f], irq)
            && pool[f].next == Newest(log[..f], irq)
  {
    var f := Newest(log[..n], irq);
    HandlersFromNewest(log[..n], irq);
    assert log[..n][..f] == log[..f];
  }

  /** A new registration becomes the newest one of its interrupt and of no other. */
  lemma NewestAppend(log: seq<Registration>, r: Registration, irq: int)
    ensures Newest(log + [r], irq) == if r.irq == irq then |log| else Newest(log, irq)
  {
    assert (log + [r])[..|log|] == log;
  }

  lemma MirrorsAppend(pool: seq<Handler>, log: seq<Registration>, r: Registration)
    requires Mirrors(pool, log)
    ensures Mirrors(pool + [Handler(r.routine, Newest(log, r.irq))], log + [r])
  {
    assert forall k :: 0 <= k <= |log| ==> (log + [r])[..k] == log[..k];
    assert log[..|log|] == log;
  }

  // ----- the tables of irq_handle.c -----

  class IrqTable {
    const handlePool: array<Handler>
    const handles: array<int>
    var handleCount: int
    ghost var log: seq<Registration>

    /** Static storage: no handler, every chain empty. */
    constructor ()
      ensures Valid() && log == []
      ensures fresh(handlePool) && fresh(handles)
    {
      handlePool := new Handler[NR_IRQ_HANDLE](_ => Handler(0, NULL));
      handles := new int[NR_HARD_INTR](_ => NULL);
      handleCount := 0;
      log := [];
    }

    ghost predicate Valid()
      reads this, handlePool, handles
    {
      && handlePool.Length == NR_IRQ_HANDLE && handles.Length == NR_HARD_INTR
      && 0 <= handleCount <= NR_IRQ_HANDLE
      && Mirrors(handlePool[..handleCount], log)
      && (forall k :: 0 <= k < |log| ==> 0 <= log[k].irq < NR_HARD_INTR)
      && (forall irq :: 0 <= irq < NR_HARD_INTR ==> handles[irq] == Newest(log, irq))
    }

    /** The chains of the real tables: each is acyclic and holds exactly the used pool entries that
        were registered for its interrupt, in the order of HandlersFor. */
    lemma Chains(irq: int)
      requires Valid() && 0 <= irq < NR_HARD_INTR
      ensures var pool := handlePool[..handleCount];
              && LinksFall(pool) && NULL <= handles[irq] < |pool|
              && var chain := Chain(pool, handles[irq]);
                 && (forall k :: k in chain <==> 0 <= k < handleCount && log[k].irq == irq)
                 && (forall i, j :: 0 <= i < j < |chain| ==> chain[i] > chain[j])
                 && |chain| == |HandlersFor(log, irq)|
                 && forall i :: 0 <= i < |chain| ==>
                      0 <= chain[i] < |pool| && HandlersFor(log, irq)[i] == pool[chain[i]].routine
    {
      var pool := handlePool[..handleCount];
      assert log[..|log|] == log;
      MirrorsFall(pool, log);
      hide Newest, Mirrors, LinksFall, Chain, HandlersFor;
      ChainMembers(pool, log, irq, |log|);
      ChainFalls(pool, handles[irq]);
      ChainRoutines(pool, log, irq, |log|);
    }

    /** add_irq_handle.  Its own assertions admit a count of 32 and a negative interrupt number,
        both of which index outside the tables. */
    method AddIrqHandle(irq: int, func: int) returns (r: Outcome)
      requires Valid()
      modifies this`handleCount, this`log, handlePool, handles
      ensures Valid()
      ensures r == Panic <==> irq >= 16
      ensures r == Registered <==> 0 <= irq < 16 && old(handleCount) < 32
      ensures log == if r == Registered then old(log) + [Registration(irq, func)] else old(log)
      ensures handleCount == |log|
    {
      if !(irq < NR_HARD_INTR) || !(handleCount <= NR_IRQ_HANDLE) {
        return Panic;
      }
      if handleCount == NR_IRQ_HANDLE || irq < 0 {
        return OutOfBounds;
      }
      hide Newest, Mirrors;
      var ptr := handleCount;
      handleCount := handleCount + 1;
      handlePool[ptr] := Handler(func, handles[irq]);
      handles[irq] := ptr;
      ghost var entry := Registration(irq, func);
      MirrorsAppend(old(handlePool[..handleCount]), log, entry);
      forall i | 0 <= i < NR_HARD_INTR
        ensures handles[i] == Newest(log + [entry], i)
      {
        NewestAppend(log, entry, i);
      }
      log := log + [entry];
      assert handlePool[..handleCount] == old(handlePool[..handleCount]) + [handlePool[ptr]];
      return Registered;
    }

    /** Calling the handlers of one interrupt one by one; the routines leave the chains alone. */
    method CallHandlers(id: int) returns (calls: seq<int>)
      requires Valid() && 0 <= id < NR_HARD_INTR
      ensures calls == HandlersFor(log, id)
      ensures IsNewestFirst(calls, log, id)
    {
      HandlersAreNewestFirst(log, id);
      hide IsNewestFirst;
      calls := [];
      var f := handles[id];
      ghost var n := |log|;
      assert log[..n] == log;
      hide Newest, HandlersFor, Mirrors;
      while f != NULL
        invariant 0 <= n <= |log|
        invariant f == Newest(log[..n], id)
        invariant calls + HandlersFor(log[..n], id) == HandlersFor(log, id)
        decreases n
      {
        WalkStep(handlePool[..handleCount], log, n, id);
        calls := calls + [handlePool[f].routine];
        n := f;
        f := handlePool[f].next;
      }
      HandlersFromNewest(log[..n], id);
    }

    /** irq_handle. */
    method IrqHandle(irq: int) returns (r: Effect)
      requires Valid()
      ensures r == if irq == 0x80 then Syscall
                   else if 1000 <= irq < 1016 then Handled(HandlersFor(log, irq - 1000))
                   else Halt
      ensures r.Handled? ==> IsNewestFirst(r.calls, log, irq - 1000)
    {
      hide IsNewestFirst;
      if irq < 0 {
        return Halt;
      } else if irq == 0x80 {
        return Syscall;
      } else if irq < 1000 {
        return Halt;
      }
      var id := irq - 1000;
      if !(id < NR_HARD_INTR) {
        return Halt;
      }
      var calls := CallHandlers(id);
      return Handled(calls);
    }
  }
}
