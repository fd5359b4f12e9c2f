/** The pool-backed doubly linked list of linklist.h.  A node is a pool index; the free list and
    the live list run through the same `next` field. */
module FlyList {

  const NULL: int := -1

  /** struct fly_t */
  datatype Fly = Fly(x: int, y: int, v: int, text: int, prev: int, next: int)

  /** The next node of a list after position i, or NULL. */
  ghost function After(list: seq<int>, i: int): int
    requires 0 <= i < |list|
  {
    if i + 1 < |list| then list[i + 1] else NULL
  }

  /** The node of a list before position i, or NULL. */
  ghost function Before(list: seq<int>, i: int): int
    requires 0 <= i < |list|
  {
    if i > 0 then list[i - 1] else NULL
  }

  /** The node at position i is a pool node linked to the next one. */
  ghost predicate NextOk(p: seq<Fly>, list: seq<int>, i: int)
    requires 0 <= i < |list|
  {
    0 <= list[i] < |p| && p[list[i]].next == After(list, i)
  }

  ghost predicate PrevOk(p: seq<Fly>, list: seq<int>, i: int)
    requires 0 <= i < |list|
  {
    0 <= list[i] < |p| && p[list[i]].prev == Before(list, i)
  }

  ghost predicate Distinct(list: seq<int>) {
    forall i, j :: 0 <= i < j < |list| ==> list[i] != list[j]
  }

  /** `list` is a NULL-terminated chain of distinct nodes through `next`, starting at head. */
  ghost predicate Linked(p: seq<Fly>, head: int, list: seq<int>) {
    && Distinct(list)
    && head == (if list == [] then NULL else list[0])
    && (forall i :: 0 <= i < |list| ==> NextOk(p, list, i))
  }

  /** The free list of a pool: it always ends in the sentinel, the last pool entry. */
  ghost predicate FreeList(p: seq<Fly>, head: int, free: seq<int>) {
    && free != []
    && Linked(p, head, free)
    && free[|free| - 1] == |p| - 1
  }

  /** The live list: `prev` and `next` are inverse. */
  ghost predicate LiveList(p: seq<Fly>, head: int, live: seq<int>) {
    && Linked(p, head, live)
    && (forall i :: 0 <= i < |live| ==> PrevOk(p, live, i))
  }

  /** Nodes outside the list may change freely. */
  lemma LinkedFrame(p: seq<Fly>, q: seq<Fly>, head: int, list: seq<int>)
    requires Linked(p, head, list) && |p| == |q|
    requires forall n :: 0 <= n < |p| && n in list ==> q[n].next == p[n].next
    ensures Linked(q, head, list)
  {
    forall i | 0 <= i < |list|
      ensures NextOk(q, list, i)
    {
      assert NextOk(p, list, i);
    }
  }

  lemma LinkedTail(p: seq<Fly>, head: int, list: seq<int>)
    requires Linked(p, head, list) && list != []
    ensures 0 <= head < |p| && Linked(p, p[head].next, list[1..]) && head !in list[1..]
    ensures p[head].next == NULL <==> |list| == 1
  {
    assert NextOk(p, list, 0);
    assert |list| > 1 ==> NextOk(p, list, 1);
    forall i | 0 <= i < |list[1..]|
      ensures NextOk(p, list[1..], i)
    {
      assert NextOk(p, list, i + 1);
    }
  }

  lemma LinkedPush(p: seq<Fly>, head: int, list: seq<int>, n: int)
    requires Linked(p, head, list) && n !in list
    requires 0 <= n < |p| && p[n].next == head
    ensures Linked(p, n, [n] + list)
  {
    var s := [n] + list;
    forall i | 0 <= i < |s|
      ensures NextOk(p, s, i)
    {
      if i > 0 {
        assert NextOk(p, list, i - 1);
      }
    }
  }

  /** The first allocation links the entries in order, up to the sentinel. */
  lemma WholePool(p: seq<Fly>, list: seq<int>)
    requires |p| >= 1 && list == seq(|p|, i => i)
    requires forall i :: 0 <= i < |p| ==> p[i].next == if i + 1 < |p| then i + 1 else NULL
    ensures FreeList(p, 0, list)
  {
    forall i | 0 <= i < |list|
      ensures NextOk(p, list, i)
    {
    }
  }

  /** NAME_insert on the pool contents. */
  function Inserted(p: seq<Fly>, prev: int, next: int, obj: int): (q: seq<Fly>)
    requires 0 <= obj < |p|
    requires prev == NULL || 0 <= prev < |p|
    requires next == NULL || 0 <= next < |p|
    ensures |q| == |p|
  {
    var a := p[obj := p[obj].(prev := prev, next := next)];
    var b := if prev == NULL then a else a[prev := a[prev].(next := obj)];
    if next == NULL then b else b[next := b[next].(prev := obj)]
  }

  /** NAME_remove on the pool contents. */
  function Removed(p: seq<Fly>, node: int): (q: seq<Fly>)
    requires 0 <= node < |p|
    requires p[node].prev == NULL || 0 <= p[node].prev < |p|
    requires p[node].next == NULL || 0 <= p[node].next < |p|
    ensures |q| == |p|
  {
    var prev, next := p[node].prev, p[node].next;
    var a := if prev == NULL then p else p[prev := p[prev].(next := next)];
    if next == NULL then a else a[next := a[next].(prev := prev)]
  }

  /** Insertion rewrites the two links of the node, the `next` of its predecessor and the `prev` of its
      successor only. */
  lemma InsertedFields(p: seq<Fly>, prev: int, next: int, obj: int, m: int)
    requires 0 <= obj < |p| && 0 <= m < |p|
    requires prev == NULL || (0 <= prev < |p| && prev != obj)
    requires next == NULL || (0 <= next < |p| && next != obj)
    ensures Inserted(p, prev, next, obj)[m] ==
            p[m].(next := if m == obj then next else if m == prev then obj else p[m].next,
                  prev := if m == obj then prev else if m == next then obj else p[m].prev)
  {
  }

  /** The node at position i of a list, NULL before its front and behind its end. */
  ghost function At(list: seq<int>, i: int): int {
    if 0 <= i < |list| then list[i] else NULL
  }

  /** The list with obj at position k. */
  function With(s: seq<int>, k: int, obj: int): (r: seq<int>)
    requires 0 <= k <= |s|
    ensures |r| == |s| + 1
    ensures forall i :: 0 <= i < |r| ==> r[i] == if i < k then s[i] else if i == k then obj else s[i - 1]
  {
    s[..k] + [obj] + s[k..]
  }

  lemma InsertedLink(p: seq<Fly>, head: int, live: seq<int>, k: int, obj: int, i: int)
    requires LiveList(p, head, live) && 0 <= k <= |live| && 0 <= obj < |p| && obj !in live && 0 <= i <= |live|
    requires At(live, k - 1) == NULL || 0 <= At(live, k - 1) < |p|
    requires At(live, k) == NULL || 0 <= At(live, k) < |p|
    ensures var q := Inserted(p, At(live, k - 1), At(live, k), obj);
            NextOk(q, With(live, k, obj), i) && PrevOk(q, With(live, k, obj), i)
  {
    var list := With(live, k, obj);
    var j := if i < k then i else i - 1;
    if i != k {
      LiveNeighbours(p, head, live, j);
      assert list[i] == live[j];
    } else {
      assert list[i] == obj;
    }
    if k < |live| {
      LiveNeighbours(p, head, live, k);
    }
    if k > 0 {
      LiveNeighbours(p, head, live, k - 1);
    }
    assert forall n :: 0 <= n < |live| ==> live[n] != obj;
    InsertedFields(p, At(live, k - 1), At(live, k), obj, list[i]);
    hide Inserted, LiveList, With;
  }

  lemma WithDistinct(s: seq<int>, k: int, obj: int)
    requires Distinct(s) && 0 <= k <= |s| && obj !in s
    ensures Distinct(With(s, k, obj))
  {
  }

  /** Inserting an unlinked node between any two neighbours of a live list, before its head or behind its
      last node, puts it there. */
  lemma InsertBetween(p: seq<Fly>, head: int, live: seq<int>, k: int, obj: int)
    requires LiveList(p, head, live) && 0 <= k <= |live|
    requires 0 <= obj < |p| && obj !in live
    ensures At(live, k - 1) == NULL || 0 <= At(live, k - 1) < |p|
    ensures At(live, k) == NULL || 0 <= At(live, k) < |p|
    ensures LiveList(Inserted(p, At(live, k - 1), At(live, k), obj), if k == 0 then obj else head, With(live, k, obj))
  {
    LiveRange(p, head, live);
    WithDistinct(live, k, obj);
    var q, list := Inserted(p, At(live, k - 1), At(live, k), obj), With(live, k, obj);
    assert (if k == 0 then obj else head) == list[0];
    hide Inserted, Distinct, With, NextOk, PrevOk, After, Before;
    forall i | 0 <= i < |list|
      ensures NextOk(q, list, i) && PrevOk(q, list, i)
    {
      InsertedLink(p, head, live, k, obj, i);
    }
  }

  /** Inserting an unlinked node before the head extends the live list. */
  lemma InsertAtHead(p: seq<Fly>, head: int, live: seq<int>, obj: int)
    requires LiveList(p, head, live) && live != []
    requires 0 <= obj < |p| && obj !in live
    ensures 0 <= head < |p|
    ensures LiveList(Inserted(p, NULL, head, obj), obj, [obj] + live)
  {
    LiveRange(p, head, live);
    InsertBetween(p, head, live, 0, obj);
    assert With(live, 0, obj) == [obj] + live;
    hide Inserted, LiveList;
  }

  function Without(s: seq<int>, k: int): (r: seq<int>)
    requires 0 <= k < |s|
    ensures |r| == |s| - 1
    ensures forall i :: 0 <= i < |r| ==> r[i] == s[if i < k then i else i + 1]
  {
    s[..k] + s[k + 1..]
  }

  /** Removal rewrites the `next` of the predecessor and the `prev` of the successor only. */
  lemma RemovedFields(p: seq<Fly>, node: int, m: int)
    requires 0 <= node < |p| && 0 <= m < |p|
    requires p[node].prev == NULL || 0 <= p[node].prev < |p|
    requires p[node].next == NULL || 0 <= p[node].next < |p|
    ensures Removed(p, node)[m] ==
            p[m].(next := if m == p[node].prev then p[node].next else p[m].next,
                  prev := if m == p[node].next then p[node].prev else p[m].prev)
  {
  }

  lemma LiveNeighbours(p: seq<Fly>, head: int, live: seq<int>, k: int)
    requires LiveList(p, head, live) && 0 <= k < |live|
    ensures 0 <= live[k] < |p|
    ensures p[live[k]].prev == Before(live, k)
    ensures p[live[k]].next == After(live, k)
    ensures p[live[k]].prev == NULL || 0 <= p[live[k]].prev < |p|
    ensures p[live[k]].next == NULL || 0 <= p[live[k]].next < |p|
    ensures forall i :: 0 <= i < |live| && i != k ==> live[i] != live[k]
  {
    assert NextOk(p, live, k) && PrevOk(p, live, k);
    assert k > 0 ==> NextOk(p, live, k - 1);
    assert k + 1 < |live| ==> NextOk(p, live, k + 1);
  }

  lemma WithoutDistinct(s: seq<int>, k: int)
    requires Distinct(s) && 0 <= k < |s|
    ensures Distinct(Without(s, k)) && s[k] !in Without(s, k)
  {
  }

  lemma RemovedLink(p: seq<Fly>, head: int, live: seq<int>, k: int, i: int)
    requires LiveList(p, head, live) && 0 <= k < |live| && 0 <= i < |live| - 1
    requires 0 <= live[k] < |p|
    requires p[live[k]].prev == NULL || 0 <= p[live[k]].prev < |p|
    requires p[live[k]].next == NULL || 0 <= p[live[k]].next < |p|
    ensures var q, list := Removed(p, live[k]), Without(live, k);
            NextOk(q, list, i) && PrevOk(q, list, i)
  {
    var j := if i < k then i else i + 1;
    LiveNeighbours(p, head, live, k);
    LiveNeighbours(p, head, live, j);
    RemovedFields(p, live[k], live[j]);
    hide Removed, LiveList;
  }

  /** Removing any node leaves the rest linked in the same order. */
  lemma RemoveAt(p: seq<Fly>, head: int, live: seq<int>, k: int)
    requires LiveList(p, head, live) && 0 <= k < |live|
    ensures 0 <= live[k] < |p|
    ensures p[live[k]].prev == NULL || 0 <= p[live[k]].prev < |p|
    ensures p[live[k]].next == NULL || 0 <= p[live[k]].next < |p|
    ensures LiveList(Removed(p, live[k]), if k == 0 then p[live[k]].next else head, Without(live, k))
    ensures live[k] !in Without(live, k)
  {
    LiveNeighbours(p, head, live, k);
    var q, list := Removed(p, live[k]), Without(live, k);
    var first := if k == 0 then p[live[k]].next else head;
    assert first == if list == [] then NULL else list[0];
    WithoutDistinct(live, k);
    hide Removed, Distinct, Without, NextOk, PrevOk, After, Before;
    forall i | 0 <= i < |list|
      ensures NextOk(q, list, i) && PrevOk(q, list, i)
    {
      RemovedLink(p, head, live, k, i);
    }
  }

  /** Two lists share the pool: no node is on both, and every node is on one. */
  ghost predicate Partition(size: int, live: seq<int>, free: seq<int>) {
    && (forall i :: 0 <= i < |live| ==> live[i] !in free)
    && (forall n :: 0 <= n <= size ==> n in live || n in free)
    && |live| + |free| == size + 1
  }

  lemma PartitionDisjoint(size: int, live: seq<int>, free: seq<int>)
    requires Partition(size, live, free)
    ensures forall i :: 0 <= i < |live| ==> live[i] !in free
    ensures |live| + |free| == size + 1
  {
  }

  /** Before the first allocation everything is free. */
  lemma PartitionInitially(size: int, free: seq<int>)
    requires 0 <= size && free == seq(size + 1, i => i)
    ensures Partition(size, [], free)
  {
    forall n | 0 <= n <= size
      ensures n in free
    {
      assert free[n] == n;
    }
  }

  /** An allocation moves the first free node to the live list. */
  lemma PartitionNew(size: int, live: seq<int>, free: seq<int>)
    requires Partition(size, live, free) && free != [] && Distinct(free)
    ensures Partition(size, [free[0]] + live, free[1..])
    ensures free[0] !in live && free[0] !in free[1..]
  {
    var n := free[0];
    assert free == [n] + free[1..];
    assert forall m :: m in free ==> m == n || m in free[1..];
  }

  /** Freeing a node moves it back. */
  lemma PartitionFree(size: int, live: seq<int>, free: seq<int>, k: int)
    requires Partition(size, live, free) && 0 <= k < |live|
    requires Distinct(live)
    ensures Partition(size, Without(live, k), [live[k]] + free)
  {
    var list := Without(live, k);
    forall n | 0 <= n <= size
      ensures n in list || n in [live[k]] + free
    {
      if n in live {
        var i :| 0 <= i < |live| && live[i] == n;
        if i < k {
          assert list[i] == n;
        } else if i > k {
          assert list[i - 1] == n;
        }
      }
    }
  }

  /** Nodes outside the live list, and data fields, may change freely. */
  lemma LiveFrame(p: seq<Fly>, q: seq<Fly>, head: int, live: seq<int>)
    requires LiveList(p, head, live) && |p| == |q|
    requires forall n :: 0 <= n < |p| && n in live ==> q[n].next == p[n].next && q[n].prev == p[n].prev
    ensures LiveList(q, head, live)
  {
    LinkedFrame(p, q, head, live);
    forall i | 0 <= i < |live|
      ensures PrevOk(q, live, i)
    {
      assert PrevOk(p, live, i);
    }
  }

  lemma SentinelIsFree(p: seq<Fly>, head: int, free: seq<int>)
    requires FreeList(p, head, free)
    ensures |p| - 1 in free
  {
  }

  lemma LiveSingleton(p: seq<Fly>, n: int)
    requires 0 <= n < |p| && p[n].prev == NULL && p[n].next == NULL
    ensures LiveList(p, n, [n])
  {
    assert NextOk(p, [n], 0) && PrevOk(p, [n], 0);
    assert [n] + [] == [n];
  }

  lemma LiveRange(p: seq<Fly>, head: int, live: seq<int>)
    requires LiveList(p, head, live)
    ensures forall i :: 0 <= i < |live| ==> 0 <= live[i] < |p|
    ensures Distinct(live)
    ensures head == if live == [] then NULL else live[0]
    ensures head == NULL <==> live == []
  {
    forall i | 0 <= i < |live|
      ensures 0 <= live[i] < |p|
    {
      assert NextOk(p, live, i);
    }
  }

  /** The static pool and the free list of LINKLIST_IMPL, with `size` usable nodes. */
  class FlyPool {
    const size: nat
    const pool: array<Fly>
    var freeHead: int
    ghost var free: seq<int>   // the free list; empty before the first allocation

    /** Static storage is zero: every link NULL. */
    constructor (size: nat)
      requires size >= 1
      ensures Valid() && free == [] && this.size == size
      ensures fresh(pool)
    {
      this.size := size;
      pool := new Fly[size + 1](_ => Fly(0, 0, 0, 0, NULL, NULL));
      freeHead := NULL;
      free := [];
    }

    ghost predicate Valid()
      reads this, pool
    {
      && size >= 1
      && pool.Length == size + 1
      && pool[size].next == NULL
      && (free == [] ==> freeHead == NULL)
      && (free != [] ==> FreeList(pool[..], freeHead, free))
    }

    /** The free list as the next allocation sees it: the first one links the whole pool. */
    ghost function Available(): (s: seq<int>)
      reads this, pool
      requires Valid()
      ensures Distinct(s)
      ensures free == [] ==> |s| == size + 1
    {
      if free == [] then seq(size + 1, i => i) else free
    }

    /** NAME_new.  It panics, changing nothing, when only the sentinel is left. */
    method New() returns (ret: int, ok: bool)
      requires Valid()
      modifies this`freeHead, this`free, pool
      ensures ok <==> |old(Available())| >= 2
      ensures !ok ==> freeHead == old(freeHead) && free == old(free) && pool[..] == old(pool[..])
      ensures ok ==> Valid() && ret == old(Available())[0] && free == old(Available())[1..]
      ensures ok ==> 0 <= ret < size && pool[ret].prev == NULL && pool[ret].next == NULL
      ensures ok && old(free) != [] ==>
                pool[..] == old(pool[..])[ret := old(pool[ret]).(prev := NULL, next := NULL)]
      ensures ok ==> size in free
    {
      ghost var list := Available();
      var head := freeHead;
      if free != [] {
        LinkedTail(pool[..], head, free);
      }
      if head == NULL {
        var i := 1;
        while i <= size
          invariant 1 <= i <= size + 1
          invariant forall k :: 0 <= k < i - 1 ==> pool[k].next == k + 1
          invariant pool[size].next == NULL
          modifies pool
        {
          pool[i - 1] := pool[i - 1].(next := i);
          i := i + 1;
        }
        head := 0;
        WholePool(pool[..], list);
      }
      hide Linked;
      LinkedTail(pool[..], head, list);
      if pool[head].next == NULL {
        return NULL, false;
      }
      ret := head;
      freeHead := pool[head].next;
      ghost var linked := pool[..];
      pool[ret] := pool[ret].(prev := NULL, next := NULL);
      assert list[|list| - 1] == list[1..][|list| - 2];
      free := list[1..];
      LinkedFrame(linked, pool[..], freeHead, free);
      ok := true;
    }

    /** Writing the data fields of a node leaves the lists alone. */
    method SetData(node: int, x: int, y: int, v: int, text: int)
      requires Valid() && 0 <= node <= size
      modifies pool
      ensures Valid()
      ensures pool[..] == old(pool[..])[node := old(pool[node]).(x := x, y := y, v := v, text := text)]
    {
      pool[node] := pool[node].(x := x, y := y, v := v, text := text);
      if free != [] {
        LinkedFrame(old(pool[..]), pool[..], freeHead, free);
      }
    }

    /** NAME_free for an allocated node. */
    method Free(node: int)
      requires Valid() && free != []
      requires 0 <= node < size && node !in free
      modifies this`freeHead, this`free, pool
      ensures Valid() && free == [node] + old(free)
      ensures pool[..] == old(pool[..])[node := old(pool[node]).(next := old(freeHead))]
    {
      hide Linked;
      pool[node] := pool[node].(next := freeHead);
      LinkedFrame(old(pool[..]), pool[..], freeHead, free);
      LinkedPush(pool[..], freeHead, free, node);
      freeHead := node;
      free := [node] + free;
    }

    /** NAME_insert between allocated nodes; it asserts that prev and next are not both NULL. */
    method Insert(prev: int, next: int, obj: int)
      requires Valid()
      requires prev != NULL || next != NULL
      requires 0 <= obj < size && obj !in free
      requires prev == NULL || (0 <= prev < size && prev !in free)
      requires next == NULL || (0 <= next < size && next !in free)
      modifies pool
      ensures Valid()
      ensures pool[..] == Inserted(old(pool[..]), prev, next, obj)
    {
      pool[obj] := pool[obj].(prev := prev, next := next);
      if prev != NULL {
        pool[prev] := pool[prev].(next := obj);
      }
      if next != NULL {
        pool[next] := pool[next].(prev := obj);
      }
      if free != [] {
        LinkedFrame(old(pool[..]), pool[..], freeHead, free);
      }
    }

    /** NAME_remove of an allocated node. */
    method Remove(node: int)
      requires Valid()
      requires 0 <= node < size && node !in free
      requires pool[node].prev == NULL || (0 <= pool[node].prev < size && pool[node].prev !in free)
      requires pool[node].next == NULL || (0 <= pool[node].next < size && pool[node].next !in free)
      modifies pool
      ensures Valid()
      ensures pool[..] == Removed(old(pool[..]), node)
    {
      var prev, next := pool[node].prev, pool[node].next;
      if prev != NULL {
        pool[prev] := pool[prev].(next := next);
      }
      if next != NULL {
        pool[next] := pool[next].(prev := prev);
      }
      if free != [] {
        LinkedFrame(old(pool[..]), pool[..], freeHead, free);
      }
    }
  }
}
