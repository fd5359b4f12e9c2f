/** The ELF loader (elf.c) and the program break (mm.c). */
module Loader {

  const PT_LOAD: int := 1
  const ELF_MAGIC: int := 0x464C_457F
  const KOFFSET: int := 0xC000_0000
  const STACK_SIZE: int := 0x10_0000

  /** The fields of Elf32_Phdr the loader uses. */
  datatype Phdr = Phdr(pType: int, offset: nat, vaddr: nat, filesz: nat, memsz: nat)

  /** One call of mm_malloc: a range of virtual addresses. */
  datatype Request = Request(start: nat, len: nat)

  // ----- the program break -----

  /** The two break variables and the memory requested so far. */
  datatype Break = Break(cur: nat, max: nat, requests: seq<Request>)

  /** mm_brk */
  function BrkStep(b: Break, newBrk: nat): Break {
    if newBrk == 0 then b
    else if newBrk > b.max then Break(newBrk, newBrk, b.requests + [Request(b.max, newBrk - b.max)])
    else b.(cur := newBrk)
  }

  function BrkRun(b: Break, calls: seq<nat>): Break {
    if calls == [] then b else BrkStep(BrkRun(b, calls[..|calls| - 1]), calls[|calls| - 1])
  }

  /** The requests are nonempty, the first starts at `from`, each starts where the one before ends,
      and the last ends at `to`. */
  ghost predicate Tiles(requests: seq<Request>, from: nat, to: nat) {
    if requests == [] then from == to
    else
      var last := requests[|requests| - 1];
      last.len > 0 && last.start + last.len == to && Tiles(requests[..|requests| - 1], from, last.start)
  }

  /** Address a lies in one of the requests. */
  ghost predicate IsRequested(requests: seq<Request>, a: nat) {
    exists i :: 0 <= i < |requests| && requests[i].start <= a < requests[i].start + requests[i].len
  }

  lemma RequestedByLast(requests: seq<Request>, a: nat)
    requires requests != []
    ensures var last := requests[|requests| - 1];
            IsRequested(requests, a) <==> IsRequested(requests[..|requests| - 1], a) || last.start <= a < last.start + last.len
  {
    var n := |requests| - 1;
    if IsRequested(requests[..n], a) {
      var i :| 0 <= i < n && requests[..n][i].start <= a < requests[..n][i].start + requests[..n][i].len;
      assert requests[i].start <= a < requests[i].start + requests[i].len;
    }
    if IsRequested(requests, a) {
      var i :| 0 <= i <= n && requests[i].start <= a < requests[i].start + requests[i].len;
      assert i < n ==> requests[..n][i].start <= a < requests[..n][i].start + requests[..n][i].len;
    }
  }

  /** Tiling means that every address of the range is requested exactly once, and no other is. */
  lemma {:induction false} TilesCoverOnce(requests: seq<Request>, from: nat, to: nat, addr: nat)
    requires Tiles(requests, from, to)
    ensures from <= to
    ensures from <= addr < to <==> IsRequested(requests, addr)
    ensures forall i, j :: 0 <= i < j < |requests| ==> requests[i].start + requests[i].len <= requests[j].start
    ensures forall i :: 0 <= i < |requests| ==> requests[i].start + requests[i].len <= to
  {
    if requests != [] {
      var n := |requests| - 1;
      var before := requests[..n];
      TilesCoverOnce(before, from, requests[n].start, addr);
      RequestedByLast(requests, addr);
      hide Tiles, IsRequested;
      assert forall i :: 0 <= i < n ==> before[i] == requests[i];
    }
  }

  /** Over any calls of brk: the break is at most the maximum, the maximum never falls, and the
      requests made tile the growth of the maximum. */
  lemma {:induction false} BrkSafety(b: Break, calls: seq<nat>)
    requires b.cur <= b.max
    ensures var r := BrkRun(b, calls);
            && r.cur <= r.max && b.max <= r.max
            && b.requests <= r.requests
            && Tiles(r.requests[|b.requests|..], b.max, r.max)
    ensures forall k :: 0 <= k <= |calls| ==> BrkRun(b, calls[..k]).max <= BrkRun(b, calls).max
  {
    if calls == [] {
      assert calls[..0] == calls;
    } else {
      var n := |calls| - 1;
      BrkSafety(b, calls[..n]);
      BrkStepTiles(b, BrkRun(b, calls[..n]), calls[n]);
      assert calls[..|calls|] == calls;
      assert forall k :: 0 <= k <= n ==> calls[..n][..k] == calls[..k];
      hide BrkStep, Tiles;
    }
  }

  /** The break is the last nonzero one asked for. */
  lemma {:induction false} BrkIsLast(b: Break, calls: seq<nat>, k: int)
    requires -1 <= k < |calls| && (k >= 0 ==> calls[k] != 0) && forall j :: k < j < |calls| ==> calls[j] == 0
    ensures BrkRun(b, calls).cur == if k >= 0 then calls[k] else b.cur
  {
    if k < |calls| - 1 {
      BrkIsLast(b, calls[..|calls| - 1], k);
    }
  }

  /** The maximum is the largest break ever asked for, or the one there was. */
  lemma {:induction false} MaxIsLargest(b: Break, calls: seq<nat>)
    ensures var r := BrkRun(b, calls);
            b.max <= r.max && (forall k :: 0 <= k < |calls| ==> calls[k] <= r.max) && (r.max == b.max || r.max in calls)
  {
    if calls != [] {
      var n := |calls| - 1;
      MaxIsLargest(b, calls[..n]);
      var before := BrkRun(b, calls[..n]);
      assert BrkRun(b, calls).max == if calls[n] > before.max then calls[n] else before.max;
      hide BrkRun, BrkStep;
      assert forall k :: 0 <= k < n ==> calls[..n][k] == calls[k];
    }
  }

  lemma BrkStepTiles(b: Break, r: Break, newBrk: nat)
    requires r.cur <= r.max && b.max <= r.max && b.requests <= r.requests
    requires Tiles(r.requests[|b.requests|..], b.max, r.max)
    ensures var s := BrkStep(r, newBrk);
            && s.cur <= s.max && r.max <= s.max && b.requests <= s.requests
            && Tiles(s.requests[|b.requests|..], b.max, s.max)
  {
    var s := BrkStep(r, newBrk);
    if s.requests != r.requests {
      var grown := s.requests[|b.requests|..];
      assert grown[..|grown| - 1] == r.requests[|b.requests|..];
    }
  }

  // ----- the loader -----

  /** The program header visited in iteration i: the pointer moves by 0, 1, 2, ... */
  function Visited(i: nat): nat {
    if i == 0 then 0 else Visited(i - 1) + i
  }

  lemma {:induction false} VisitedIsTriangular(i: nat)
    ensures 2 * Visited(i) == i * (i + 1)
  {
    if i > 0 {
      VisitedIsTriangular(i - 1);
    }
  }

  lemma VisitedNext(ph: seq<Phdr>, n: nat, i: nat)
    requires i < n && Visited(n - 1) < |ph|
    ensures Visited(i) == (if i == 0 then 0 else Visited(i - 1) + i) < |ph|
  {
    PrefixInRange(ph, n);
  }

  lemma {:induction false} VisitedGrows(i: nat, j: nat)
    requires i < j
    ensures Visited(i) < Visited(j)
  {
    if i < j - 1 {
      VisitedGrows(i, j - 1);
    }
  }

  ghost predicate IsVisited(phnum: nat, h: nat) {
    exists i: nat :: i < phnum && Visited(i) == h
  }

  /** The loop visits every program header if and only if there are at most two. */
  lemma EveryHeaderVisited(phnum: nat)
    ensures (forall h: nat :: h < phnum ==> IsVisited(phnum, h)) <==> phnum <= 2
  {
    assert Visited(0) == 0 && Visited(1) == 1 && Visited(2) == 3;
    if phnum > 2 {
      forall i: nat
        ensures Visited(i) != 2
      {
        if i > 2 {
          VisitedGrows(2, i);
        }
      }
      assert !IsVisited(phnum, 2);
    }
  }

  /** The end of a segment as the loader records it, in 32 bits. */
  function SegmentBreak(h: Phdr): nat {
    (h.vaddr + h.memsz - 1) % 0x1_0000_0000
  }

  /** It is the address of the last byte, modulo 2^32. */
  lemma SegmentBreakMeans(h: Phdr)
    ensures SegmentBreak(h) < 0x1_0000_0000 && (h.vaddr + h.memsz - 1 - SegmentBreak(h)) % 0x1_0000_0000 == 0
  {
    var n := h.vaddr + h.memsz - 1;
    assert n - SegmentBreak(h) == (n / 0x1_0000_0000) * 0x1_0000_0000;
  }

  function Max(a: nat, b: nat): nat {
    if a < b then b else a
  }

  /** The largest break of the segments visited in the first n iterations, from b on. */
  function LargestBreak(ph: seq<Phdr>, n: nat, b: nat): nat
    requires n == 0 || Visited(n - 1) < |ph|
  {
    if n == 0 then b
    else
      var h := ph[Visited(n - 1)];
      PrefixInRange(ph, n);
      var before := LargestBreak(ph, n - 1, b);
      if h.pType == PT_LOAD then Max(before, SegmentBreak(h)) else before
  }

  lemma PrefixInRange(ph: seq<Phdr>, n: nat)
    requires n == 0 || Visited(n - 1) < |ph|
    ensures forall i: nat :: i < n ==> Visited(i) < |ph|
  {
    forall i: nat | i < n
      ensures Visited(i) < |ph|
    {
      if i < n - 1 {
        VisitedGrows(i, n - 1);
      }
    }
  }

  /** It is an upper bound of all of them, and one of them unless it is b. */
  lemma {:induction false} LargestBreakIsMaximum(ph: seq<Phdr>, n: nat, b: nat)
    requires forall i: nat :: i < n ==> Visited(i) < |ph|
    ensures n == 0 || Visited(n - 1) < |ph|
    ensures var m := LargestBreak(ph, n, b);
            && b <= m
            && (forall i: nat :: i < n && ph[Visited(i)].pType == PT_LOAD ==> SegmentBreak(ph[Visited(i)]) <= m)
            && (m == b || exists i: nat :: i < n && ph[Visited(i)].pType == PT_LOAD && SegmentBreak(ph[Visited(i)]) == m)
  {
    if n > 0 {
      LargestBreakIsMaximum(ph, n - 1, b);
    }
  }

  /** The requests for the segments visited in the first n iterations. */
  function SegmentRequests(ph: seq<Phdr>, n: nat): seq<Request>
    requires n == 0 || Visited(n - 1) < |ph|
  {
    if n == 0 then []
    else
      var h := ph[Visited(n - 1)];
      PrefixInRange(ph, n);
      SegmentRequests(ph, n - 1) + if h.pType == PT_LOAD then [Request(h.vaddr, h.memsz)] else []
  }

  /** The i-th iteration loads a segment. */
  predicate Loads(ph: seq<Phdr>, i: nat) {
    Visited(i) < |ph| && ph[Visited(i)].pType == PT_LOAD
  }

  /** `from` lists, in order, the first n iterations that load a segment, and no others. */
  ghost predicate AreLoads(ph: seq<Phdr>, n: nat, from: seq<nat>) {
    && (forall i :: 0 <= i < |from| ==> from[i] < n && Loads(ph, from[i]))
    && (forall i, j :: 0 <= i < j < |from| ==> from[i] < from[j])
    && (forall k: nat :: k < n && Loads(ph, k) ==> k in from)
  }

  /** Each request is for the range in memory of the segment of its iteration. */
  ghost predicate AreRequests(requests: seq<Request>, ph: seq<Phdr>, from: seq<nat>) {
    && |from| == |requests|
    && forall i :: 0 <= i < |from| ==>
         Visited(from[i]) < |ph|
         && requests[i].start == ph[Visited(from[i])].vaddr && requests[i].len == ph[Visited(from[i])].memsz
  }

  lemma NextLoad(ph: seq<Phdr>, n: nat, from: seq<nat>)
    requires AreLoads(ph, n, from)
    ensures AreLoads(ph, n + 1, if Loads(ph, n) then from + [n] else from)
  {
    hide Loads;
    if Loads(ph, n) {
      var all := from + [n];
      forall k: nat | k < n + 1 && Loads(ph, k)
        ensures k in all
      {
        assert k < n ==> k in from;
      }
    }
  }

  lemma NextRequest(requests: seq<Request>, ph: seq<Phdr>, n: nat, from: seq<nat>)
    requires AreRequests(requests, ph, from) && Visited(n) < |ph|
    ensures AreRequests(requests + [Request(ph[Visited(n)].vaddr, ph[Visited(n)].memsz)], ph, from + [n])
  {
    hide Visited;
  }

  lemma NothingRequested(ph: seq<Phdr>)
    ensures AreLoads(ph, 0, []) && AreRequests(SegmentRequests(ph, 0), ph, [])
  {
  }

  lemma SegmentRequestsNext(ph: seq<Phdr>, n: nat)
    requires Visited(n) < |ph|
    ensures n == 0 || Visited(n - 1) < |ph|
    ensures SegmentRequests(ph, n + 1) ==
            if Loads(ph, n) then SegmentRequests(ph, n) + [Request(ph[Visited(n)].vaddr, ph[Visited(n)].memsz)]
            else SegmentRequests(ph, n)
  {
    PrefixInRange(ph, n + 1);
    hide Visited;
  }

  /** The loader requests the range of each segment it loads, in order, and nothing else. */
  lemma {:induction false} SegmentRequestsInOrder(ph: seq<Phdr>, n: nat) returns (from: seq<nat>)
    requires n == 0 || Visited(n - 1) < |ph|
    ensures AreLoads(ph, n, from) && AreRequests(SegmentRequests(ph, n), ph, from)
  {
    hide Visited, Loads, SegmentRequests, AreLoads, AreRequests;
    if n == 0 {
      from := [];
      NothingRequested(ph);
    } else {
      SegmentRequestsNext(ph, n - 1);
      from := SegmentRequestsInOrder(ph, n - 1);
      NextLoad(ph, n - 1, from);
      NextRequest(SegmentRequests(ph, n - 1), ph, n - 1, from);
      if Loads(ph, n - 1) {
        from := from + [n - 1];
      }
    }
  }

  /** Address a lies in a segment visited in the first n iterations. */
  ghost predicate InSegment(ph: seq<Phdr>, n: nat, a: nat) {
    exists i: nat :: i < n && Loads(ph, i) && ph[Visited(i)].vaddr <= a < ph[Visited(i)].vaddr + ph[Visited(i)].memsz
  }

  /** The segments visited lie inside the 32-bit address space. */
  ghost predicate NoWrap(ph: seq<Phdr>, n: nat) {
    forall i: nat :: i < n && Loads(ph, i) ==> 1 <= ph[Visited(i)].vaddr + ph[Visited(i)].memsz <= 0x1_0000_0000
  }

  /** A segment of at least one byte ends with address a. */
  ghost predicate EndsSegment(ph: seq<Phdr>, n: nat, a: nat) {
    exists i: nat :: i < n && Loads(ph, i) && ph[Visited(i)].memsz > 0 && ph[Visited(i)].vaddr + ph[Visited(i)].memsz == a + 1
  }

  /** No segment goes beyond the largest break, and those that contain it end there. */
  lemma SegmentsBelow(ph: seq<Phdr>, n: nat, a: nat)
    requires (forall i: nat :: i < n ==> Visited(i) < |ph|) && NoWrap(ph, n)
    ensures n == 0 || Visited(n - 1) < |ph|
    ensures var m := LargestBreak(ph, n, 0);
            && (InSegment(ph, n, a) ==> a <= m)
            && (a == m ==> (InSegment(ph, n, a) <==> EndsSegment(ph, n, a)))
  {
    LargestBreakIsMaximum(ph, n, 0);
    hide LargestBreak, Visited;
    forall i: nat | i < n && Loads(ph, i)
      ensures ph[Visited(i)].vaddr + ph[Visited(i)].memsz - 1 <= LargestBreak(ph, n, 0)
    {
      assert SegmentBreak(ph[Visited(i)]) <= LargestBreak(ph, n, 0);
    }
  }

  /** From the breaks the loader leaves in a program started with none, over any calls of brk: an
      address of a segment is requested again by brk exactly if it is the break the loader left,
      the break has grown, and a segment ends with that address. */
  lemma GrowthOverlaps(ph: seq<Phdr>, n: nat, b: Break, calls: seq<nat>, a: nat)
    requires (forall i: nat :: i < n ==> Visited(i) < |ph|) && NoWrap(ph, n)
    requires n == 0 || Visited(n - 1) < |ph|
    requires b.cur == b.max == LargestBreak(ph, n, 0)
    ensures b.requests <= BrkRun(b, calls).requests
    ensures InSegment(ph, n, a) && IsRequested(BrkRun(b, calls).requests[|b.requests|..], a)
            <==> a == b.max < BrkRun(b, calls).max && EndsSegment(ph, n, b.max)
  {
    SegmentsBelow(ph, n, a);
    BrkSafety(b, calls);
    var r := BrkRun(b, calls);
    TilesCoverOnce(r.requests[|b.requests|..], b.max, r.max, a);
    hide BrkRun, Tiles, IsRequested, LargestBreak, Visited, InSegment, EndsSegment, NoWrap;
  }

  /** Unless all segments visited are empty, the break the loader leaves is the last byte of one, so
      that the first growth requests it a second time. */
  lemma BreakEndsSegment(ph: seq<Phdr>, n: nat)
    requires (forall i: nat :: i < n ==> Visited(i) < |ph|) && NoWrap(ph, n)
    requires n == 0 || Visited(n - 1) < |ph|
    requires forall i: nat :: i < n && Loads(ph, i) ==> ph[Visited(i)].memsz > 0
    ensures EndsSegment(ph, n, LargestBreak(ph, n, 0)) <==> exists i: nat :: i < n && Loads(ph, i)
  {
    LargestBreakIsMaximum(ph, n, 0);
    hide LargestBreak, Visited;
    if j: nat :| j < n && Loads(ph, j) {
      assert SegmentBreak(ph[Visited(j)]) <= LargestBreak(ph, n, 0);
      if LargestBreak(ph, n, 0) == 0 {
        LastByte(ph, n, j);
      } else {
        var i: nat :| i < n && Loads(ph, i) && SegmentBreak(ph[Visited(i)]) == LargestBreak(ph, n, 0);
        LastByte(ph, n, i);
      }
    }
  }

  lemma LastByte(ph: seq<Phdr>, n: nat, i: nat)
    requires NoWrap(ph, n) && i < n && Loads(ph, i) && ph[Visited(i)].memsz > 0
    ensures EndsSegment(ph, n, SegmentBreak(ph[Visited(i)]))
  {
    hide Visited;
  }

  /** The i-th iteration loads a segment that is larger in the file than in memory. */
  predicate RunsAway(ph: seq<Phdr>, i: nat) {
    Loads(ph, i) && ph[Visited(i)].filesz > ph[Visited(i)].memsz
  }

  /** One of the first n iterations does. */
  ghost predicate AnyRunsAway(ph: seq<Phdr>, n: nat) {
    exists i: nat :: i < n && RunsAway(ph, i)
  }

  lemma NextRunsAway(ph: seq<Phdr>, n: nat, i: nat)
    requires i < n
    ensures AnyRunsAway(ph, i + 1) <==> AnyRunsAway(ph, i) || RunsAway(ph, i)
    ensures RunsAway(ph, i) ==> AnyRunsAway(ph, n)
  {
    hide RunsAway;
  }

  /** The headers visited are there, and mm_malloc puts the segments at disjoint places in physical
      memory. */
  ghost predicate Loadable(ph: seq<Phdr>, phnum: nat, place: seq<nat>, memSize: nat) {
    && |place| == phnum
    && (phnum == 0 || Visited(phnum - 1) < |ph|)
    && (forall i: nat :: i < phnum && Loads(ph, i) ==> place[i] + ph[Visited(i)].memsz <= memSize)
    && (forall i: nat, j: nat :: i < j < phnum && Loads(ph, i) && Loads(ph, j) ==>
          place[i] + ph[Visited(i)].memsz <= place[j] || place[j] + ph[Visited(j)].memsz <= place[i])
  }

  /** The byte of a segment k bytes from its start: what the disk returns for its 32-bit offset, then zero. */
  function SegmentByte(disk: int -> int, h: Phdr, k: nat): int {
    if k < h.filesz then disk((h.offset + k) % 0x1_0000_0000) else 0
  }

  /** The i-th segment is in place. */
  ghost predicate InPlace(mem: seq<int>, disk: int -> int, ph: seq<Phdr>, place: seq<nat>, i: nat)
    requires i < |place|
  {
    Loads(ph, i) ==>
      var h := ph[Visited(i)];
      place[i] + h.memsz <= |mem| &&
      forall a :: place[i] <= a < place[i] + h.memsz ==> mem[a] == SegmentByte(disk, h, a - place[i])
  }

  /** Address a belongs to no segment of the first n iterations. */
  ghost predicate Untouched(ph: seq<Phdr>, place: seq<nat>, n: nat, a: int)
    requires n <= |place|
  {
    forall i: nat :: i < n && Loads(ph, i) ==> !(place[i] <= a < place[i] + ph[Visited(i)].memsz)
  }

  lemma NothingToLoad(mem: seq<int>, disk: int -> int, ph: seq<Phdr>, place: seq<nat>, i: nat)
    requires i < |place| && !Loads(ph, i)
    ensures InPlace(mem, disk, ph, place, i)
  {
  }

  /** Loading another segment leaves a segment in place. */
  lemma InPlaceKept(m: seq<int>, m': seq<int>, disk: int -> int, ph: seq<Phdr>, place: seq<nat>, i: nat, j: nat)
    requires i < j < |place| && Visited(j) < |ph| && |m| == |m'| && InPlace(m, disk, ph, place, i)
    requires Loads(ph, i) && Loads(ph, j) ==>
               place[i] + ph[Visited(i)].memsz <= place[j] || place[j] + ph[Visited(j)].memsz <= place[i]
    requires forall a :: 0 <= a < |m| && !(place[j] <= a < place[j] + ph[Visited(j)].memsz) ==> m'[a] == m[a]
    requires Loads(ph, j)
    ensures InPlace(m', disk, ph, place, i)
  {
  }

  /** What one header does to the breaks, which the loader keeps equal, and to the requests. */
  function HeaderStep(b: Break, h: Phdr): Break {
    if h.pType != PT_LOAD then b
    else
      var m := Max(b.cur, SegmentBreak(h));
      Break(m, m, b.requests + [Request(h.vaddr, h.memsz)])
  }

  /** The state of the program after the first n iterations, from break b and the given requests. */
  function LoadedState(ph: seq<Phdr>, n: nat, b: nat, requests: seq<Request>): Break
    requires n == 0 || Visited(n - 1) < |ph|
  {
    var m := LargestBreak(ph, n, b);
    Break(m, m, requests + SegmentRequests(ph, n))
  }

  lemma NextHeader(ph: seq<Phdr>, n: nat, b: nat, requests: seq<Request>)
    requires Visited(n) < |ph|
    ensures n == 0 || Visited(n - 1) < |ph|
    ensures LoadedState(ph, n + 1, b, requests) == HeaderStep(LoadedState(ph, n, b, requests), ph[Visited(n)])
  {
    PrefixInRange(ph, n + 1);
    hide Visited;
  }

  /** After n iterations the segments visited are in place and all other memory is as in m0. */
  ghost predicate Loaded(m0: seq<int>, m: seq<int>, disk: int -> int, ph: seq<Phdr>, place: seq<nat>, n: nat)
    requires n <= |place|
  {
    && |m| == |m0|
    && (forall i: nat :: i < n ==> InPlace(m, disk, ph, place, i))
    && (forall a :: 0 <= a < |m| && Untouched(ph, place, n, a) ==> m[a] == m0[a])
  }

  lemma NothingLoaded(m: seq<int>, disk: int -> int, ph: seq<Phdr>, place: seq<nat>, b: nat, requests: seq<Request>)
    ensures Loaded(m, m, disk, ph, place, 0) && !AnyRunsAway(ph, 0)
    ensures LoadedState(ph, 0, b, requests) == Break(b, b, requests)
  {
  }

  /** What a loaded memory holds, byte by byte. */
  lemma SegmentContents(m0: seq<int>, m: seq<int>, disk: int -> int, ph: seq<Phdr>, place: seq<nat>, n: nat)
    requires n <= |place| && Loaded(m0, m, disk, ph, place, n)
    ensures forall i: nat :: i < n && Loads(ph, i) ==> place[i] + ph[Visited(i)].memsz <= |m|
    ensures forall i: nat, a :: i < n && Loads(ph, i) && place[i] <= a < place[i] + ph[Visited(i)].memsz ==>
              var k, h := a - place[i], ph[Visited(i)];
              m[a] == if k < h.filesz then disk((h.offset + k) % 0x1_0000_0000) else 0
  {
    hide Visited;
    assert forall i: nat :: i < n && Loads(ph, i) ==> InPlace(m, disk, ph, place, i);
  }

  lemma UntouchedBefore(ph: seq<Phdr>, place: seq<nat>, n: nat, a: int)
    requires Visited(n) < |ph| && n < |place| && Untouched(ph, place, n + 1, a)
    ensures Untouched(ph, place, n, a) && !(Loads(ph, n) && place[n] <= a < place[n] + ph[Visited(n)].memsz)
  {
    hide Visited;
    forall i: nat | i < n + 1 && Loads(ph, i)
      ensures !(place[i] <= a < place[i] + ph[Visited(i)].memsz)
    {
    }
  }

  lemma LoadedNext(m0: seq<int>, m: seq<int>, m': seq<int>, disk: int -> int, ph: seq<Phdr>, place: seq<nat>, n: nat)
    requires n < |place| && Visited(n) < |ph| && Loaded(m0, m, disk, ph, place, n) && |m'| == |m|
    requires forall i: nat :: i <= n ==> InPlace(m', disk, ph, place, i)
    requires forall a :: 0 <= a < |m| && !(Loads(ph, n) && place[n] <= a < place[n] + ph[Visited(n)].memsz) ==> m'[a] == m[a]
    ensures Loaded(m0, m', disk, ph, place, n + 1)
  {
    hide InPlace, Untouched, Loads, Visited;
    forall a | 0 <= a < |m'| && Untouched(ph, place, n + 1, a)
      ensures m'[a] == m0[a]
    {
      UntouchedBefore(ph, place, n, a);
    }
  }

  /** How the loader ends: at its assertion on the magic number; in a memset whose length
      memsz - filesz wraps around to almost 2^32; or by entering the program. */
  datatype Outcome = WrongMagic | RunAway | Entered(entry: nat)

  class Program {
    var curBrk: nat
    var maxBrk: nat
    ghost var requests: seq<Request>

    constructor ()
      ensures State() == Break(0, 0, [])
    {
      curBrk, maxBrk, requests := 0, 0, [];
    }

    ghost function State(): Break
      reads this
    {
      Break(curBrk, maxBrk, requests)
    }

    /** mm_malloc: memory for a range of virtual addresses. */
    method Allocate(start: nat, len: nat)
      modifies this`requests
      ensures requests == old(requests) + [Request(start, len)]
    {
      requests := requests + [Request(start, len)];
    }

    /** mm_brk */
    method Brk(newBrk: nat) returns (r: nat)
      modifies this
      ensures State() == BrkStep(old(State()), newBrk)
      ensures curBrk == if newBrk == 0 then old(curBrk) else newBrk
      ensures maxBrk == if newBrk > old(maxBrk) then newBrk else old(maxBrk)
      ensures requests == if newBrk > old(maxBrk) then old(requests) + [Request(old(maxBrk), newBrk - old(maxBrk))] else old(requests)
      ensures r == curBrk
    {
      if newBrk != 0 {
        if newBrk > maxBrk {
          Allocate(maxBrk, newBrk - maxBrk);
          maxBrk := newBrk;
        }
        curBrk := newBrk;
      }
      r := curBrk;
    }

    /** Reading a segment from the disk and clearing the rest of it. */
    method CopySegment(mem: array<int>, disk: int -> int, h: Phdr, addr: nat)
      requires h.filesz <= h.memsz && addr + h.memsz <= mem.Length
      modifies mem
      ensures forall a :: addr <= a < addr + h.memsz ==> mem[a] == SegmentByte(disk, h, a - addr)
      ensures forall a :: addr <= a < addr + h.filesz ==> mem[a] == disk((h.offset + (a - addr)) % 0x1_0000_0000)
      ensures forall a :: addr + h.filesz <= a < addr + h.memsz ==> mem[a] == 0
      ensures forall a :: 0 <= a < mem.Length && !(addr <= a < addr + h.memsz) ==> mem[a] == old(mem[a])
    {
      var k := 0;
      while k < h.filesz
        invariant 0 <= k <= h.filesz
        invariant forall a :: addr <= a < addr + k ==> mem[a] == SegmentByte(disk, h, a - addr)
        invariant forall a :: 0 <= a < mem.Length && !(addr <= a < addr + h.memsz) ==> mem[a] == old(mem[a])
      {
        mem[addr + k] := disk((h.offset + k) % 0x1_0000_0000);
        k := k + 1;
      }
      while k < h.memsz
        invariant h.filesz <= k <= h.memsz
        invariant forall a :: addr <= a < addr + k ==> mem[a] == SegmentByte(disk, h, a - addr)
        invariant forall a :: 0 <= a < mem.Length && !(addr <= a < addr + h.memsz) ==> mem[a] == old(mem[a])
      {
        mem[addr + k] := 0;
        k := k + 1;
      }
    }

    /** Copying the i-th segment leaves the earlier ones in place. */
    method PutInPlace(mem: array<int>, disk: int -> int, ph: seq<Phdr>, place: seq<nat>, i: nat)
      requires Loadable(ph, |place|, place, mem.Length) && i < |place| && Loads(ph, i) && !RunsAway(ph, i)
      requires forall j: nat :: j < i ==> InPlace(mem[..], disk, ph, place, j)
      modifies mem
      ensures forall j: nat :: j <= i ==> InPlace(mem[..], disk, ph, place, j)
      ensures var h := ph[Visited(i)];
              forall a :: 0 <= a < mem.Length && !(place[i] <= a < place[i] + h.memsz) ==> mem[a] == old(mem[a])
    {
      var h := ph[Visited(i)];
      ghost var before := mem[..];
      CopySegment(mem, disk, h, place[i]);
      forall j: nat | j < i
        ensures InPlace(mem[..], disk, ph, place, j)
      {
        InPlaceKept(before, mem[..], disk, ph, place, j, i);
      }
    }

    /** One iteration of the loader, at the i-th header visited. */
    method LoadHeader(ghost m0: seq<int>, ph: seq<Phdr>, i: nat, index: nat, place: seq<nat>, disk: int -> int, mem: array<int>)
      returns (ranAway: bool)
      requires Loadable(ph, |place|, place, mem.Length) && i < |place| && index == Visited(i) < |ph| && curBrk == maxBrk
      requires Loaded(m0, mem[..], disk, ph, place, i)
      modifies this, mem
      ensures ranAway <==> RunsAway(ph, i)
      ensures !ranAway ==> Loaded(m0, mem[..], disk, ph, place, i + 1)
      ensures !ranAway ==> State() == HeaderStep(old(State()), ph[index]) && curBrk == maxBrk
    {
      hide InPlace, Untouched, SegmentByte, Loadable, Visited;
      ghost var before := mem[..];
      var h := ph[index];
      if h.pType == PT_LOAD {
        Allocate(h.vaddr, h.memsz);
        if h.memsz < h.filesz {
          return true;
        }
        PutInPlace(mem, disk, ph, place, i);
        var newBrk := SegmentBreak(h);
        if curBrk < newBrk {
          curBrk := newBrk;
          maxBrk := newBrk;
        }
      } else {
        NothingToLoad(mem[..], disk, ph, place, i);
      }
      LoadedNext(m0, before, mem[..], disk, ph, place, i);
      ranAway := false;
    }

    /** The loop over the program headers. */
    method LoadHeaders(ph: seq<Phdr>, phnum: nat, place: seq<nat>, disk: int -> int, mem: array<int>) returns (ranAway: bool)
      requires Loadable(ph, phnum, place, mem.Length)
      requires curBrk == maxBrk
      modifies this, mem
      ensures ranAway <==> AnyRunsAway(ph, phnum)
      ensures !ranAway ==> Loaded(old(mem[..]), mem[..], disk, ph, place, phnum)
      ensures !ranAway ==> State() == LoadedState(ph, phnum, old(curBrk), old(requests))
    {
      assert |place| == phnum && (phnum == 0 || Visited(phnum - 1) < |ph|);
      ghost var m0 := mem[..];
      NothingLoaded(m0, disk, ph, place, curBrk, requests);
      hide InPlace, SegmentByte, Loadable, Loaded, LoadedState, RunsAway, AnyRunsAway, Loads, Untouched, HeaderStep, LargestBreak, SegmentRequests, Visited;
      var index := 0;
      var loopVar := 0;
      while loopVar < phnum
        invariant 0 <= loopVar <= phnum
        invariant index == if loopVar == 0 then 0 else Visited(loopVar - 1)
        invariant loopVar == 0 || Visited(loopVar - 1) < |ph|
        invariant !AnyRunsAway(ph, loopVar)
        invariant Loaded(m0, mem[..], disk, ph, place, loopVar)
        invariant State() == LoadedState(ph, loopVar, old(curBrk), old(requests)) && curBrk == maxBrk
      {
        VisitedNext(ph, phnum, loopVar);
        index := index + loopVar;
        NextHeader(ph, loopVar, old(curBrk), old(requests));
        NextRunsAway(ph, phnum, loopVar);
        ranAway := LoadHeader(m0, ph, loopVar, index, place, disk, mem);
        if ranAway {
          return;
        }
        loopVar := loopVar + 1;
      }
      ranAway := false;
    }

    /** loader: unless the magic number is wrong or the clearing of a segment runs away, every segment
        visited ends up in place, the breaks at the largest end of a segment, and one request per
        segment and one for the stack are made. */
    method Load(magic: int, entry: nat, ph: seq<Phdr>, phnum: nat, place: seq<nat>, disk: int -> int, mem: array<int>)
      returns (r: Outcome)
      requires Loadable(ph, phnum, place, mem.Length)
      requires curBrk == maxBrk
      modifies this, mem
      ensures r == WrongMagic <==> magic != 0x464C_457F
      ensures r == RunAway <==> magic == 0x464C_457F && AnyRunsAway(ph, phnum)
      ensures r == WrongMagic ==> State() == old(State()) && mem[..] == old(mem[..])
      ensures r.Entered? ==> r.entry == entry
      ensures r.Entered? ==> forall i: nat :: i < phnum ==> InPlace(mem[..], disk, ph, place, i)
      ensures r.Entered? ==> forall i: nat :: i < phnum && Loads(ph, i) ==> place[i] + ph[Visited(i)].memsz <= mem.Length
      ensures r.Entered? ==> forall i: nat, a :: i < phnum && Loads(ph, i) && place[i] <= a < place[i] + ph[Visited(i)].memsz ==>
                var k, h := a - place[i], ph[Visited(i)];
                mem[a] == if k < h.filesz then disk((h.offset + k) % 0x1_0000_0000) else 0
      ensures r.Entered? ==> forall a :: 0 <= a < mem.Length && Untouched(ph, place, phnum, a) ==> mem[a] == old(mem[a])
      ensures r.Entered? ==> State() == var b := LargestBreak(ph, phnum, old(curBrk));
                             Break(b, b, old(requests) + SegmentRequests(ph, phnum) + [Request(0xBFF0_0000, 0x10_0000)])
    {
      if magic != ELF_MAGIC {
        return WrongMagic;
      }
      var ranAway := LoadHeaders(ph, phnum, place, disk, mem);
      if ranAway {
        return RunAway;
      }
      Allocate(KOFFSET - STACK_SIZE, STACK_SIZE);
      SegmentContents(old(mem[..]), mem[..], disk, ph, place, phnum);
      return Entered(entry);
    }
  }
}
