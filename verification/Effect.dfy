/** The letters on the screen (effect.c): the live list in the pool, tied to the sequence of
    letters it stands for. */
module Effect {
  import opened Int32
  import opened FixedPoint
  import FloatBits
  import opened FlyList
  import opened Letters
  import opened Keyboard

  const POOL_SIZE: nat := 1000

  // ----- the constants of effect.c, through f2F -----

  const FLOAT_7_9: int32 := 0x40FC_CCCD
  const FLOAT_0_5: int32 := 0x3F00_0000

  /** The patterns are those of the singles nearest to 7.9 and 0.5. */
  lemma NearestSingles()
    ensures exists f: nat :: f < 0x80_0000 && FloatBits.Pattern(false, 129, f) == FLOAT_7_9
              && 2 * Abs(10 * (0x80_0000 + f) - 79 * 0x20_0000) <= 10
    ensures FloatBits.Pattern(false, 126, 0) == FLOAT_0_5
  {
    assert FloatBits.Pattern(false, 129, 8178893) == FLOAT_7_9;
  }

  lemma BorderAndSpeed()
    ensures forall r :: FloatBits.IsTruncatedValue(FLOAT_7_9, r) ==> r == 517734
    ensures forall r :: FloatBits.IsTruncatedValue(FLOAT_0_5, r) ==> r == 0x8000
    ensures FloatBits.Convertible(FLOAT_7_9) && FloatBits.Convertible(FLOAT_0_5)
  {
    BorderValue();
    SpeedValue();
    hide *;
    forall r | FloatBits.IsTruncatedValue(FLOAT_7_9, r)
      ensures r == 517734
    {
      FloatBits.TruncatedValueUnique(FLOAT_7_9, 517734, r);
    }
    forall r | FloatBits.IsTruncatedValue(FLOAT_0_5, r)
      ensures r == 0x8000
    {
      FloatBits.TruncatedValueUnique(FLOAT_0_5, 0x8000, r);
    }
  }

  lemma BorderValue()
    ensures FloatBits.Convertible(FLOAT_7_9) && FloatBits.IsTruncatedValue(FLOAT_7_9, 517734)
  {
    assert Pow2(5) == 32;
    hide Pow2;
    assert FloatBits.Exponent(FLOAT_7_9) == 129;
    assert FloatBits.Significand(FLOAT_7_9) == 16567501;
  }

  lemma SpeedValue()
    ensures FloatBits.Convertible(FLOAT_0_5) && FloatBits.IsTruncatedValue(FLOAT_0_5, 0x8000)
  {
    FloatBits.PowersUsed();
    hide Pow2;
    assert FloatBits.Exponent(FLOAT_0_5) == 126;
    assert FloatBits.Significand(FLOAT_0_5) == 0x80_0000;
  }

  /** The speed for a random number below 1000: 0.5 + r / 2000 in FLOAT. */
  function Speed(r: int): int
  {
    (r * 0x1_0000) / 2000 + 0x8000
  }

  lemma SpeedQuotient(r: int, q: int)
    requires 0 <= r < 1000
    requires IsTruncatedQuotient((r * 0x1_0000) * 0x1_0000, 2000 * 0x1_0000, q)
    ensures q + 0x8000 == Speed(r)
    ensures 0x8000 <= Speed(r) < 0x1_0000
  {
  }

  /** A letter for three values of rand(). */
  function NewLetter(ry: nat, rv: nat, rt: nat): (l: Letter)
    ensures LetterOk(l) && Falling(l)
  {
    Letter(0, ry % (SCR_WIDTH / 8 - 2) * 8 + 8, Speed(rv % 1000), rt % 26)
  }

  /** A new letter starts at the top, in a column of 8 pixels that is on the screen, at a speed of 0.5
      plus a whole number of thousandths of 0.5, and with one of the 26 texts. */
  lemma NewLetterMeans(ry: nat, rv: nat, rt: nat)
    ensures var l := NewLetter(ry, rv, rt);
            && l.x == 0 && l.y == 8 * (ry % 38) + 8 && 8 <= l.y && l.y + 8 <= 320 && l.y % 8 == 0
            && 2000 * (l.v - 0x8000) <= (rv % 1000) * 0x1_0000 < 2000 * (l.v - 0x8000 + 1)
            && l.text == rt % 26
  {
  }

  const UNUSED: Fly := Fly(0, 0, 0, 0, NULL, NULL)

  // ----- the letters a live list stands for -----

  function LetterOf(f: Fly): Letter {
    Letter(f.x, f.y, f.v, f.text)
  }

  /** The letters of the nodes on a list. */
  ghost function LettersOf(p: seq<Fly>, live: seq<int>): (ls: seq<Letter>)
    ensures |ls| == |live|
  {
    seq(|live|, i requires 0 <= i < |live| => if 0 <= live[i] < |p| then LetterOf(p[live[i]]) else Letter(0, 0, 0, 0))
  }

  lemma InsertedData(p: seq<Fly>, prev: int, next: int, obj: int)
    requires 0 <= obj < |p|
    requires prev == NULL || 0 <= prev < |p|
    requires next == NULL || 0 <= next < |p|
    ensures forall n :: 0 <= n < |p| ==> LetterOf(Inserted(p, prev, next, obj)[n]) == LetterOf(p[n])
  {
  }

  lemma RemovedData(p: seq<Fly>, node: int)
    requires 0 <= node < |p|
    requires p[node].prev == NULL || 0 <= p[node].prev < |p|
    requires p[node].next == NULL || 0 <= p[node].next < |p|
    ensures forall n :: 0 <= n < |p| ==> LetterOf(Removed(p, node)[n]) == LetterOf(p[n])
  {
  }

  /** What an allocation followed by the insertion at the head does to lists and letters. */
  lemma Adding(p0: seq<Fly>, p1: seq<Fly>, size: nat, available: seq<int>, head: int, live: seq<int>)
    requires LiveList(p0, head, live) && Partition(size, live, available) && Distinct(available)
    requires |p0| == |p1| == size + 1 && available != [] && size in available[1..]
    requires var n := available[0];
             && 0 <= n < size && p1[n].prev == NULL && p1[n].next == NULL
             && (live != [] ==> p1 == p0[n := p0[n].(prev := NULL, next := NULL)])
    ensures head == NULL <==> live == []
    ensures var n := available[0];
            && n !in available[1..]
            && Partition(size, [n] + live, available[1..])
            && if live == [] then
                 LiveList(p1, n, [n] + live) && LettersOf(p1, [n] + live)[1..] == []
               else
                 && 0 <= head < size && head !in available[1..]
                 && LiveList(Inserted(p1, NULL, head, n), n, [n] + live)
                 && LettersOf(Inserted(p1, NULL, head, n), [n] + live)[1..] == LettersOf(p0, live)
  {
    var n := available[0];
    PartitionNew(size, live, available);
    PartitionDisjoint(size, [n] + live, available[1..]);
    LiveRange(p0, head, live);
    if live == [] {
      assert [n] + live == [n];
      LiveSingleton(p1, n);
    } else {
      LiveFrame(p0, p1, head, live);
      assert ([n] + live)[1] == head;
      InsertAtHead(p1, head, live, n);
      InsertedData(p1, NULL, head, n);
      assert forall i :: 0 < i < |live| + 1 ==> ([n] + live)[i] == live[i - 1];
    }
  }

  /** What removing and freeing the k-th node does to lists and letters. */
  lemma Removing(p: seq<Fly>, size: nat, freeHead: int, free: seq<int>, head: int, live: seq<int>, k: int)
    requires LiveList(p, head, live) && FreeList(p, freeHead, free) && Partition(size, live, free)
    requires |p| == size + 1 && 0 <= k < |live|
    ensures var n := live[k];
            && 0 <= n < size && n !in free
            && (p[n].prev == NULL || (0 <= p[n].prev < size && p[n].prev !in free))
            && (p[n].next == NULL || (0 <= p[n].next < size && p[n].next !in free))
            && (n == head <==> k == 0)
            && var q := Removed(p, n); var r := q[n := q[n].(next := freeHead)];
               && LiveList(r, if k == 0 then p[n].next else head, Without(live, k))
               && Partition(size, Without(live, k), [n] + free)
               && LettersOf(r, Without(live, k)) == LettersOf(p, live)[..k] + LettersOf(p, live)[k + 1..]
  {
    var n := live[k];
    LiveRange(p, head, live);
    LiveNeighbours(p, head, live, k);
    RemoveAt(p, head, live, k);
    PartitionDisjoint(size, live, free);
    PartitionFree(size, live, free, k);
    SentinelIsFree(p, freeHead, free);
    RemovedData(p, n);
    var q := Removed(p, n);
    var r := q[n := q[n].(next := freeHead)];
    hide Removed, Partition, FreeList;
    LiveFrame(q, r, if k == 0 then p[n].next else head, Without(live, k));
    hide LiveList;
    LettersWithout(p, r, live, k);
  }

  /** Taking a node off the list takes its letter away. */
  lemma LettersWithout(p: seq<Fly>, r: seq<Fly>, live: seq<int>, k: int)
    requires 0 <= k < |live| && |p| == |r|
    requires forall n :: 0 <= n < |p| ==> LetterOf(r[n]) == LetterOf(p[n])
    ensures LettersOf(r, Without(live, k)) == LettersOf(p, live)[..k] + LettersOf(p, live)[k + 1..]
  {
  }

  /** What changing the data of the k-th node does to lists and letters. */
  lemma Changing(p: seq<Fly>, head: int, live: seq<int>, k: int, f: Fly)
    requires LiveList(p, head, live) && 0 <= k < |live|
    requires 0 <= live[k] < |p| ==> f.prev == p[live[k]].prev && f.next == p[live[k]].next
    ensures 0 <= live[k] < |p| && (0 <= k + 1 < |live| ==> 0 <= live[k + 1])
    ensures p[live[k]].next == At(live, k + 1) && LetterOf(p[live[k]]) == LettersOf(p, live)[k]
    ensures LiveList(p[live[k] := f], head, live)
    ensures LettersOf(p[live[k] := f], live) == LettersOf(p, live)[k := LetterOf(f)]
  {
    LiveRange(p, head, live);
    LiveNeighbours(p, head, live, k);
    LiveFrame(p, p[live[k] := f], head, live);
  }

  lemma Reading(p: seq<Fly>, head: int, live: seq<int>, k: int)
    requires LiveList(p, head, live) && 0 <= k < |live|
    ensures 0 <= live[k] < |p|
    ensures p[live[k]].next == At(live, k + 1) && LetterOf(p[live[k]]) == LettersOf(p, live)[k]
  {
    LiveRange(p, head, live);
    LiveNeighbours(p, head, live, k);
  }

  lemma HeadOf(p: seq<Fly>, head: int, live: seq<int>)
    requires LiveList(p, head, live)
    ensures head == At(live, 0)
    ensures forall i :: At(live, i) == NULL <==> !(0 <= i < |live|)
  {
    LiveRange(p, head, live);
  }

  lemma HundredUp()
    ensures IntToF(100) == 0x64_0000
  {
    Pow2Of16();
  }

  /** target and min of update_keypress after the first i letters. */
  ghost predicate Tracks(ls: seq<Letter>, flags: Keys, live: seq<int>, i: nat, target: int, min: int)
    requires |live| == |ls| && i <= |ls|
  {
    var k := Target(ls[..i], flags);
    && target == At(live, k)
    && min == if k == -1 then -0x64_0000 else ls[k].x
  }

  lemma TargetStart(ls: seq<Letter>, flags: Keys, live: seq<int>)
    requires |live| == |ls|
    ensures Tracks(ls, flags, live, 0, NULL, -0x64_0000)
  {
  }

  lemma TurnedOk(ls: seq<Letter>, k: int)
    requires LettersOk(ls)
    ensures LettersOk(Turned(ls, k))
  {
  }

  lemma TargetStep(ls: seq<Letter>, flags: Keys, live: seq<int>, i: nat, target: int, min: int)
    requires |live| == |ls| && i < |ls| && LettersOk(ls) && Tracks(ls, flags, live, i, target, min)
    ensures if Falling(ls[i]) && ls[i].x > min && flags[ls[i].text] then
              Tracks(ls, flags, live, i + 1, live[i], ls[i].x)
            else
              Tracks(ls, flags, live, i + 1, target, min)
  {
    assert ls[..i + 1][..i] == ls[..i];
    assert ls[..i + 1][i] == ls[i];
  }

  lemma TargetEnd(ls: seq<Letter>, flags: Keys, live: seq<int>, i: nat, target: int, min: int)
    requires |live| == |ls| && Tracks(ls, flags, live, |ls|, target, min) && i == |ls|
    ensures target == At(live, Target(ls, flags))
  {
    assert ls[..|ls|] == ls;
  }

  lemma HitAllStep(h: Hitting)
    ensures Target(h.letters, h.keys) != -1 ==>
              && HitAll(h) == HitAll(HitOnce(h)) && HitCount(h) == 1 + HitCount(HitOnce(h))
              && PressedCount(HitOnce(h).keys) < PressedCount(h.keys)
    ensures Target(h.letters, h.keys) == -1 ==> HitOnce(h) == h && HitAll(h) == h && HitCount(h) == 0
  {
    if Target(h.letters, h.keys) != -1 {
      HitOnceReleases(h);
    }
  }

  lemma LettersFront(ls: seq<Letter>, rest: seq<Letter>, l: Letter)
    requires ls != [] && ls[1..] == rest && LettersOk(rest) && LetterOk(l)
    ensures ls[0 := l] == [l] + rest && LettersOk([l] + rest)
  {
  }

  lemma SplitLetters(ls: seq<Letter>, l: Letter, k: int)
    requires 0 <= k < |ls|
    ensures ls[k := l][..k] + ls[k := l][k + 1..] == ls[..k] + [] + ls[k + 1..]
    ensures ls[k := l] == ls[..k] + [l] + ls[k + 1..]
  {
  }

  /** The letters during the walk: the first `done` have been advanced and kept or dropped. */
  ghost predicate Walked(ls: seq<Letter>, done: nat, current: seq<Letter>, hits: int, misses: int) {
    && done <= |ls|
    && current == Survivors(ls[..done]) + ls[done..]
    && hits == Hits(ls[..done]) && misses == Misses(ls[..done])
  }

  /** The position of the walk in the current list. */
  ghost function Position(ls: seq<Letter>, done: nat): nat
    requires done <= |ls|
  {
    |Survivors(ls[..done])|
  }

  lemma WalkStart(ls: seq<Letter>)
    ensures Walked(ls, 0, ls, 0, 0) && Position(ls, 0) == 0
  {
  }

  lemma WalkAt(ls: seq<Letter>, done: nat, current: seq<Letter>, hits: int, misses: int)
    requires Walked(ls, done, current, hits, misses) && Position(ls, done) < |current|
    ensures done < |ls| && current[Position(ls, done)] == ls[done]
  {
  }

  lemma WalkStep(ls: seq<Letter>, done: nat, current: seq<Letter>, hits: int, misses: int,
                 current': seq<Letter>, hits': int, misses': int)
    requires Walked(ls, done, current, hits, misses) && Position(ls, done) < |current|
    requires var k := Position(ls, done); var x := current[k].x + current[k].v;
             && current' == current[..k] + (if 0 <= x <= 12589466 then [current[k].(x := x)] else []) + current[k + 1..]
             && hits' == hits + (if x < 0 then 1 else 0)
             && misses' == misses + (if x > 12589466 then 1 else 0)
    ensures done < |ls| && Walked(ls, done + 1, current', hits', misses')
    ensures var k := Position(ls, done);
            Position(ls, done + 1) == if 0 <= current[k].x + current[k].v <= 12589466 then k + 1 else k
  {
    assert ls[..done + 1][..done] == ls[..done];
    assert ls[..done + 1][done] == ls[done];
    assert ls[done..] == [ls[done]] + ls[done + 1..];
  }

  lemma WalkEnd(ls: seq<Letter>, done: nat, current: seq<Letter>, hits: int, misses: int)
    requires Walked(ls, done, current, hits, misses) && |current| <= Position(ls, done)
    ensures current == Survivors(ls) && hits == Hits(ls) && misses == Misses(ls)
  {
    assert ls[..done] == ls;
  }

  lemma SurvivorsOk(ls: seq<Letter>)
    requires LettersOk(ls)
    ensures LettersOk(Survivors(ls))
  {
    if ls != [] {
      SurvivorsOk(ls[..|ls| - 1]);
    }
  }

  /** The update in fields: who survives and how, and how many leave on either side. */
  lemma UpdateMeans(ls: seq<Letter>)
    ensures exists from: seq<nat> :: ComeFrom(Survivors(ls), ls, from)
    ensures Hits(ls) == |LeavingTop(ls)| && Misses(ls) == |LeavingBottom(ls)|
  {
    var from := SurvivorsInOrder(ls);
    LeavingCounted(ls);
    hide *;
  }

  lemma LiveShape(p: seq<Fly>, head: int, live: seq<int>, i: int)
    requires LiveList(p, head, live) && 0 <= i < |live|
    ensures 0 <= live[i] < |p| && p[live[i]].next == At(live, i + 1) && p[live[i]].prev == At(live, i - 1)
  {
    LiveNeighbours(p, head, live, i);
    hide LiveList;
  }

  /** What the two lists look like that share a pool once it is initialised. */
  lemma ListsShape(p: seq<Fly>, head: int, live: seq<int>, freeHead: int, free: seq<int>)
    requires |p| >= 1 && LiveList(p, head, live) && FreeList(p, freeHead, free) && Partition(|p| - 1, live, free)
    ensures freeHead != NULL && free != [] && free[|free| - 1] == |p| - 1
    ensures forall n :: 0 <= n < |p| ==> (n in live <==> n !in free)
    ensures Distinct(live) && Distinct(free)
    ensures forall i :: 0 <= i < |live| ==>
              && 0 <= live[i] < |p| - 1
              && p[live[i]].next == At(live, i + 1) && p[live[i]].prev == At(live, i - 1)
    ensures head == At(live, 0)
  {
    LiveRange(p, head, live);
    SentinelIsFree(p, freeHead, free);
    LinkedTail(p, freeHead, free);
    hide LiveList, Linked, Distinct;
    forall i | 0 <= i < |live|
      ensures 0 <= live[i] < |p| - 1
      ensures p[live[i]].next == At(live, i + 1) && p[live[i]].prev == At(live, i - 1)
    {
      LiveShape(p, head, live, i);
      assert live[i] !in free;
    }
  }

  class TypingGame {
    const fly: FlyPool
    const keys: KeyState
    var head: int
    var hit: int
    var miss: int
    var interrupts: bool       // the interrupt flag, changed by cli and sti
    ghost var live: seq<int>   // the nodes from head on

    constructor ()
      ensures Valid() && Letters() == [] && hit == 0 && miss == 0 && interrupts
      ensures Flags() == seq(26, _ => false)
      ensures fresh(fly) && fresh(fly.pool) && fresh(keys) && fresh(keys.letterPressed)
    {
      fly := new FlyPool(POOL_SIZE);
      keys := new KeyState();
      head, hit, miss, interrupts, live := NULL, 0, 0, true, [];
    }

    /** Both lists are well formed and together are the whole pool. */
    ghost predicate WellLinked()
      reads this, fly, fly.pool
    {
      && fly.Valid() && fly.size == POOL_SIZE
      && LiveList(fly.pool[..], head, live)
      && (if fly.free == [] then live == [] else Partition(fly.size, live, fly.free))
    }

    ghost predicate Valid()
      reads this, fly, fly.pool, keys, keys.letterPressed
    {
      WellLinked() && keys.Valid() && LettersOk(Letters())
    }

    /** The pool has been initialised by the first allocation. */
    ghost predicate Started()
      reads fly
    {
      fly.free != []
    }

    /** Once started, each pool node is on exactly one of two acyclic lists: the free list, which
        ends in the sentinel and is never empty, so the pool is not initialised again; or the live
        list, on which prev and next are inverse. */
    lemma PoolShape()
      requires Valid() && Started()
      ensures fly.freeHead != NULL && fly.free[|fly.free| - 1] == POOL_SIZE
      ensures forall n :: 0 <= n <= POOL_SIZE ==> (n in live <==> n !in fly.free)
      ensures Distinct(live) && Distinct(fly.free)
      ensures forall i :: 0 <= i < |live| ==>
                && 0 <= live[i] < POOL_SIZE
                && fly.pool[live[i]].next == At(live, i + 1)
                && fly.pool[live[i]].prev == At(live, i - 1)
      ensures head == At(live, 0)
    {
      ListsShape(fly.pool[..], head, live, fly.freeHead, fly.free);
      hide LiveList, FreeList, Partition, Distinct, At;
    }

    /** The letters on the screen, from the head of the list. */
    ghost function Letters(): (ls: seq<Letter>)
      reads this, fly, fly.pool
      ensures |ls| == |live|
    {
      LettersOf(fly.pool[..], live)
    }

    ghost function Flags(): Keys
      requires keys.Valid()
      reads keys, keys.letterPressed
    {
      keys.Flags()
    }

    /** Allocating a node and putting it before the head, for create_new_letter. */
    method AddNode() returns (ok: bool)
      requires WellLinked()
      modifies this`head, this`live, fly`freeHead, fly`free, fly.pool
      ensures WellLinked()
      ensures ok <==> |old(live)| < POOL_SIZE
      ensures !ok ==> Letters() == old(Letters())
      ensures ok ==> live != [] && Letters()[1..] == old(Letters()) && Started()
    {
      ghost var p0, available := fly.pool[..], fly.Available();
      if fly.free == [] {
        PartitionInitially(fly.size, available);
      }
      PartitionDisjoint(fly.size, live, available);
      hide Partition, LiveList, FreeList, Inserted, LettersOf;
      var now: int;
      now, ok := fly.New();
      if !ok {
        return;
      }
      Adding(p0, fly.pool[..], fly.size, available, head, live);
      if head == NULL {
        head := now;
      } else {
        fly.Insert(NULL, head, now);
        head := now;
      }
      live := [now] + live;
    }

    /** The random speed of create_new_letter; nothing overflows. */
    method RandomSpeed(rv: nat) returns (v: int32)
      ensures v == Speed(rv % 1000) && 0x8000 <= v < 0x1_0000
    {
      Pow2Of16();
      BorderAndSpeed();
      hide Wrap, Pow2, IsTruncatedQuotient, FloatBits.Convertible, FloatBits.IsTruncatedValue, Speed;
      var numerator, denominator := IntToF(rv % 1000), IntToF(2000);
      var quotient, _ := DivF(numerator, denominator);
      SpeedQuotient(rv % 1000, quotient);
      var half, _ := FloatBits.FromFloat(FLOAT_0_5);
      v := quotient + half;
    }

    /** create_new_letter, for three values of rand().  The assertion in the allocation is `ok`. */
    method CreateNewLetter(ry: nat, rv: nat, rt: nat) returns (ok: bool)
      requires Valid()
      modifies this`head, this`live, fly`freeHead, fly`free, fly.pool, keys.letterPressed
      ensures Valid()
      ensures ok <==> |old(Letters())| < 1000
      ensures ok ==> Letters() == [NewLetter(ry, rv, rt)] + old(Letters())
      ensures ok ==> Flags() == Released(old(Flags()), rt % 26) && Started()
      ensures ok ==> |Letters()| == |old(Letters())| + 1 && Letters()[1..] == old(Letters())
      ensures ok ==> Letters()[0].x == 0 && Letters()[0].y == 8 * (ry % 38) + 8 && Letters()[0].text == rt % 26
      ensures ok ==> Letters()[0].v == 0x8000 + (rv % 1000) * 0x1_0000 / 2000
      ensures ok ==> Flags() == old(Flags())[rt % 26 := false]
      ensures !ok ==> Letters() == old(Letters()) && Flags() == old(Flags())
    {
      ghost var before := Letters();
      ok := AddNode();
      if !ok {
        return;
      }
      var y := ry % (SCR_WIDTH / 8 - 2) * 8 + 8;
      var v := RandomSpeed(rv);
      ghost var p := fly.pool[..];
      HeadOf(p, head, live);
      LettersFront(Letters(), before, NewLetter(ry, rv, rt));
      Changing(p, head, live, 0, if 0 <= head < |p| then p[head].(x := 0, y := y, v := v, text := rt % 26) else UNUSED);
      hide Partition, LiveList, FreeList, LettersOf;
      fly.SetData(head, 0, y, v, rt % 26);
      keys.ReleaseKey(fly.pool[head].text);
    }

    /** fly_remove and fly_free of the k-th letter, and the repair of the head. */
    method RemoveNode(node: int, next: int, ghost k: int)
      requires WellLinked() && 0 <= k < |live| && node == live[k] && next == At(live, k + 1)
      modifies this`head, this`live, fly`freeHead, fly`free, fly.pool
      ensures WellLinked() && live == Without(old(live), k)
      ensures Letters() == old(Letters())[..k] + old(Letters())[k + 1..]
      ensures Started()
    {
      ghost var p := fly.pool[..];
      HeadOf(p, head, live);
      Changing(p, head, live, k, if 0 <= node < |p| then p[node] else UNUSED);
      Removing(p, fly.size, fly.freeHead, fly.free, head, live, k);
      hide Partition, LiveList, FreeList, Removed, LettersOf;
      fly.Remove(node);
      fly.Free(node);
      if node == head {
        head := next;
      }
      live := Without(live, k);
    }

    /** Advancing the k-th letter by its velocity; the addition does not overflow. */
    method AdvanceNode(it: int, ghost k: int) returns (x: int32, next: int)
      requires WellLinked() && 0 <= k < |live| && it == live[k] && LetterOk(Letters()[k])
      modifies fly.pool
      ensures WellLinked()
      ensures var l := Advanced(old(Letters())[k]); Letters() == old(Letters())[k := l] && x == l.x
      ensures x == old(Letters())[k].x + old(Letters())[k].v
      ensures UPWARDS <= x <= MAX_X + 0x1_0000
      ensures next == At(live, k + 1)
    {
      ghost var p := fly.pool[..];
      Changing(p, head, live, k, if 0 <= it < |p| then p[it].(x := p[it].x + p[it].v) else UNUSED);
      hide Partition, LiveList, FreeList, LettersOf;
      next := fly.pool[it].next;
      x := fly.pool[it].x + fly.pool[it].v;
      fly.SetData(it, x, fly.pool[it].y, fly.pool[it].v, fly.pool[it].text);
    }

    /** The test of update_letter_pos for a letter outside the screen; nothing overflows. */
    method LeavesScreen(x: int32) returns (off: bool)
      requires UPWARDS <= x <= MAX_X + 0x1_0000
      ensures off <==> x < 0 || x + 517734 > 200 * 0x1_0000
      ensures off <==> !(0 <= x <= MAX_X)
    {
      BorderAndSpeed();
      Pow2Of16();
      hide FloatBits.IsTruncatedValue, FloatBits.Convertible, Pow2;
      var border, _ := FloatBits.FromFloat(FLOAT_7_9);
      var height := IntToF(SCR_HEIGHT);
      var bottom: int32 := x + border;
      off := x < 0 || bottom > height;
    }

    /** One iteration of update_letter_pos: advance the k-th letter, and take it off the list if it
        left the screen.  Returns the node to go on with. */
    method UpdateOne(it: int, ghost k: int) returns (next: int)
      requires WellLinked() && 0 <= k < |live| && it == live[k] && LetterOk(Letters()[k])
      modifies this`head, this`live, this`hit, this`miss, fly`freeHead, fly`free, fly.pool
      ensures WellLinked()
      ensures var ls := old(Letters()); var x := ls[k].x + ls[k].v; var stays := 0 <= x <= 12589466;
              && Letters() == ls[..k] + (if stays then [ls[k].(x := x)] else []) + ls[k + 1..]
              && hit == old(hit) + (if x < 0 then 1 else 0)
              && miss == old(miss) + (if x > 12589466 then 1 else 0)
              && next == At(live, if stays then k + 1 else k)
      ensures Started()
    {
      ghost var ls := Letters();
      hide Partition, LiveList, FreeList, LettersOf;
      SplitLetters(ls, Advanced(ls[k]), k);
      var x: int32;
      x, next := AdvanceNode(it, k);
      var off := LeavesScreen(x);
      if off {
        if x < 0 {
          hit := hit + 1;
        } else {
          miss := miss + 1;
        }
        RemoveNode(it, next, k);
      }
    }

    /** The walk over `ls` has reached node `it`, with `done` letters behind it. */
    ghost predicate WalkedTo(it: int, ls: seq<Letter>, done: nat, hit0: int, miss0: int)
      reads this, fly, fly.pool
    {
      && WellLinked()
      && Walked(ls, done, Letters(), hit - hit0, miss - miss0)
      && it == At(live, Position(ls, done))
    }

    method UpdateNext(it: int, ghost ls: seq<Letter>, ghost done: nat, ghost hit0: int, ghost miss0: int)
      returns (next: int)
      requires LettersOk(ls) && WalkedTo(it, ls, done, hit0, miss0) && it != NULL
      modifies this`head, this`live, this`hit, this`miss, fly`freeHead, fly`free, fly.pool
      ensures done < |ls| && WalkedTo(next, ls, done + 1, hit0, miss0)
      ensures Started()
    {
      ghost var k, current, hits, misses := Position(ls, done), Letters(), hit - hit0, miss - miss0;
      assert k < |live| && it == live[k];
      hide LiveList, Partition, LettersOf, Survivors, Hits, Misses, FreeList, Position, Walked, Advanced, OnScreen;
      WalkAt(ls, done, current, hits, misses);
      next := UpdateOne(it, k);
      WalkStep(ls, done, current, hits, misses, Letters(), hit - hit0, miss - miss0);
    }

    /** The loop of update_letter_pos. */
    method WalkLetters()
      requires Valid()
      modifies this`head, this`live, this`hit, this`miss, fly`freeHead, fly`free, fly.pool
      ensures Valid()
      ensures Letters() == Survivors(old(Letters()))
      ensures hit == old(hit) + Hits(old(Letters()))
      ensures miss == old(miss) + Misses(old(Letters()))
      ensures old(Started()) ==> Started()
    {
      ghost var ls, hit0, miss0 := Letters(), hit, miss;
      HeadOf(fly.pool[..], head, live);
      WalkStart(ls);
      hide LiveList, Partition, LettersOf, Survivors, Hits, Misses, FreeList;
      ghost var done: nat := 0;
      var it := head;
      while it != NULL
        invariant done <= |ls| && WalkedTo(it, ls, done, hit0, miss0)
        invariant old(Started()) ==> Started()
        decreases |ls| - done
      {
        it := UpdateNext(it, ls, done, hit0, miss0);
        done := done + 1;
      }
      HeadOf(fly.pool[..], head, live);
      WalkEnd(ls, done, Letters(), hit - hit0, miss - miss0);
      SurvivorsOk(ls);
    }

    /** update_letter_pos: nodes are freed during the walk, yet every letter is moved by its velocity
        once, and the ones on the screen are kept in order. */
    method UpdateLetterPos()
      requires Valid()
      modifies this`head, this`live, this`hit, this`miss, fly`freeHead, fly`free, fly.pool
      ensures Valid()
      ensures Letters() == Survivors(old(Letters()))
      ensures hit == old(hit) + Hits(old(Letters()))
      ensures miss == old(miss) + Misses(old(Letters()))
      ensures exists from: seq<nat> :: ComeFrom(Letters(), old(Letters()), from)
      ensures hit == old(hit) + |LeavingTop(old(Letters()))| && miss == old(miss) + |LeavingBottom(old(Letters()))|
      ensures old(Started()) ==> Started()
    {
      ghost var ls := Letters();
      hide Survivors, Hits, Misses, ComeFrom, LeavingTop, LeavingBottom, WellLinked, LettersOf;
      UpdateMeans(ls);
      WalkLetters();
    }

    /** The search of update_keypress: the lowest unhit letter whose key is pressed, or NULL. */
    method FindTarget() returns (target: int)
      requires Valid()
      ensures target == At(live, Target(Letters(), Flags()))
    {
      ghost var ls, flags, p := Letters(), Flags(), fly.pool[..];
      HeadOf(p, head, live);
      HundredUp();
      hide LiveList, Partition, FreeList, LettersOf, Wrap, ShiftLeft, Target, Tracks;
      target := NULL;
      var min: int32 := 0 - IntToF(100);
      var it := head;
      ghost var i: nat := 0;
      TargetStart(ls, flags, live);
      while it != NULL
        invariant i <= |ls| && it == At(live, i)
        invariant Tracks(ls, flags, live, i, target, min)
        decreases |ls| - i
      {
        Reading(p, head, live, i);
        TargetStep(ls, flags, live, i, target, min);
        var f := fly.pool[it];
        if f.v > 0 && f.x > min {
          var pressed := keys.QueryKey(f.text);
          if pressed {
            min := f.x;
            target := it;
          }
        }
        it := f.next;
        i := i + 1;
      }
      TargetEnd(ls, flags, live, i, target, min);
    }

    /** update_keypress.  Interrupts stay disabled after a hit and are enabled when nothing is hit. */
    method UpdateKeypress() returns (found: bool)
      requires Valid()
      modifies this`interrupts, fly.pool, keys.letterPressed
      ensures Valid()
      ensures found <==> Target(old(Letters()), old(Flags())) != -1
      ensures Hitting(Letters(), Flags()) == HitOnce(Hitting(old(Letters()), old(Flags())))
      ensures interrupts == !found
      ensures found ==> exists k :: LowestPressed(old(Letters()), old(Flags()), k) && TurnedAndReleased(old(Letters()), old(Flags()), Letters(), Flags(), k)
      ensures !found ==> NonePressed(old(Letters()), old(Flags())) && Letters() == old(Letters()) && Flags() == old(Flags())
    {
      ghost var ls, flags, p := Letters(), Flags(), fly.pool[..];
      interrupts := false;
      var target := FindTarget();
      HeadOf(p, head, live);
      hide LiveList, Partition, FreeList, LettersOf, Target;
      found := target != NULL;
      if found {
        ghost var k := Target(ls, flags);
        Changing(p, head, live, k, if 0 <= target < |p| then p[target].(v := UPWARDS) else UNUSED);
        keys.ReleaseKey(fly.pool[target].text);
        fly.SetData(target, fly.pool[target].x, fly.pool[target].y, UPWARDS, fly.pool[target].text);
        TurnedOk(ls, k);
      } else {
        interrupts := true;
      }
      HitOnceMeans(Hitting(ls, flags));
      assert found ==> TurnedAndReleased(ls, flags, Letters(), Flags(), Target(ls, flags));
    }

    /** The loop `while (update_keypress());` of the main loop. */
    method HitPressedKeys() returns (hits: nat)
      requires Valid()
      modifies this`interrupts, fly.pool, keys.letterPressed
      ensures Valid()
      ensures Hitting(Letters(), Flags()) == HitAll(Hitting(old(Letters()), old(Flags())))
      ensures hits == HitCount(Hitting(old(Letters()), old(Flags()))) <= 26
      ensures AllHit(Hitting(old(Letters()), old(Flags())), Hitting(Letters(), Flags()), hits)
      ensures interrupts
    {
      ghost var h0 := Hitting(Letters(), Flags());
      HitAllCorrect(h0);
      HitAllDone(h0);
      hide WellLinked, AllHit;
      hits := 0;
      var more := true;
      while more
        invariant Valid()
        invariant HitAll(h0) == HitAll(Hitting(Letters(), Flags()))
        invariant HitCount(h0) == hits + HitCount(Hitting(Letters(), Flags()))
        invariant !more ==> interrupts && Target(Letters(), Flags()) == -1
        decreases more, PressedCount(Flags())
      {
        HitAllStep(Hitting(Letters(), Flags()));
        more := UpdateKeypress();
        if more {
          hits := hits + 1;
        }
      }
    }
  }
}
