/** What an enqueue and a pop do, said of the hints themselves: which hints are taken,
    which go to make room, and what is left. */
module HandoffLaws {
  import opened BinaryHeap
  import opened HandoffSpec
  import opened Wrappers

  /** Not above a cap; a cap that is not positive is none. */
  predicate Within(c: Config, items: int, size: int) {
    (c.maxItems <= 0 || items <= c.maxItems) && (c.maxBytes <= 0 || size <= c.maxBytes)
  }

  /** Queued for as long as the queue's time to live, or a value past its own expiry. */
  predicate Lapsed(h: Hint, ttl: int, now: int) {
    (ttl > 0 && h.addedAt + ttl <= now) || (!h.isDel && 0 < h.exp <= now)
  }

  lemma FitsIsWithin(c: Config, q: Queue)
    ensures Fits(c, q) <==> Within(c, Count(q), Size(q))
  {
  }

  // ---------------------------------------------------------------- making room

  /** Hints went from the front of the FIFO, and not the one of `k`. */
  ghost predicate FrontGone(full: seq<Hint>, k: Bytes, left: seq<Hint>) {
    && |left| <= |full| && left == full[|full| - |left|..]
    && forall i :: 0 <= i < |full| - |left| ==> full[i].key != k
  }

  /** Delayed hints went, those due first, and not the one of `k`. */
  ghost predicate EarliestGone(full: seq<Hint>, k: Bytes, left: seq<Hint>) {
    && multiset(left) <= multiset(full)
    && forall g :: g in full && g !in left ==> g.key != k && forall h :: h in left ==> g.nextAt <= h.nextAt
  }

  /** `d` is the last delayed hint that went. */
  ghost predicate LastGone(full: seq<Hint>, left: seq<Hint>, d: Hint) {
    d in full && d !in left && forall g :: g in full && g !in left ==> g.nextAt <= d.nextAt
  }

  /** With the hint that went last, the caps were exceeded. */
  ghost predicate NoneTooMany(c: Config, full: Queue, r: Queue) {
    if r.delayed != full.delayed
    then exists d :: LastGone(full.delayed, r.delayed, d) && !Within(c, Count(r) + 1, Size(r) + d.size)
    else |r.ready| < |full.ready| ==>
      !Within(c, Count(r) + 1, Size(r) + full.ready[|full.ready| - |r.ready| - 1].size)
  }

  /** `r` is `full` after room was made for the hint of `k`: first the FIFO gives up its
      oldest hints, then, once `k` or nothing is at its front, the heap those due first,
      and no more than needed. */
  ghost predicate Trimmed(c: Config, full: Queue, k: Bytes, r: Queue) {
    && FrontGone(full.ready, k, r.ready) && EarliestGone(full.delayed, k, r.delayed)
    && (r.delayed != full.delayed ==> r.ready == [] || r.ready[0].key == k)
    && NoneTooMany(c, full, r)
  }

  lemma {:induction false} MakeRoomTrims(c: Config, q: Queue, k: Bytes)
    requires Sound(q)
    ensures Trimmed(c, q, k, MakeRoom(c, q, k))
    decreases Count(q)
  {
    hide Ordered, Sum, Clean, Pop, Within, FrontGone, EarliestGone, NoneTooMany;
    if Fits(c, q) || !HasVictim(q, k) {
      NothingGone(c, q, k);
    } else {
      var q1, r := DropOne(q, k), MakeRoom(c, q, k);
      DropOneFacts(q, k);
      MakeRoomTrims(c, q1, k);
      FitsIsWithin(c, q);
      if CanDrop(q.ready, k) {
        FrontGoes(q.ready, k, r.ready);
        ReadyNeeded(c, q, r);
      } else {
        MakeRoomDropsReadyFirst(c, q, k);
        HeadStays(q.ready, k);
        RootGoes(q, k, r.delayed);
        RootNeeded(c, q, r);
      }
    }
  }

  lemma NothingGone(c: Config, q: Queue, k: Bytes)
    ensures Trimmed(c, q, k, q)
  {
  }

  lemma FrontGoes(s: seq<Hint>, k: Bytes, left: seq<Hint>)
    requires s != [] && s[0].key != k && FrontGone(s[1..], k, left)
    ensures FrontGone(s, k, left) && |left| < |s| && left == s[|s| - |left|..]
  {
    forall i | 0 <= i < |s| - |left|
      ensures s[i].key != k
    {
      assert i > 0 ==> s[i] == s[1..][i - 1];
    }
  }

  lemma HeadStays(s: seq<Hint>, k: Bytes)
    ensures FrontGone(s, k, s)
  {
  }

  lemma ReadyNeeded(c: Config, q: Queue, r: Queue)
    requires q.ready != [] && NoneTooMany(c, q.(ready := q.ready[1..]), r) && !Within(c, Count(q), Size(q))
    requires |r.ready| < |q.ready| && r.ready == q.ready[|q.ready| - |r.ready|..]
    requires Size(q) == Size(q.(ready := q.ready[1..])) + q.ready[0].size
    ensures NoneTooMany(c, q, r)
  {
    hide Within, Sum, LastGone;
    var q1 := q.(ready := q.ready[1..]);
    if |r.ready| == |q1.ready| && r.delayed == q.delayed {
      assert r == q1;
    }
  }

  lemma RootMembers(q: Queue, h: Hint)
    requires Sound(q) && q.delayed != []
    ensures var p, root := Pop(q.delayed, NextAt), q.delayed[0];
      && (h in q.delayed <==> h in p || h == root) && (h in p ==> h != root && root.nextAt <= h.nextAt)
  {
    hide Ordered, Pop;
    PopMembers(q.delayed, h);
    PopKeeps(q.delayed, NextAt);
    var root := q.delayed[0];
    assert root in Bag(q) && Bag(q)[root] == 1 && multiset(q.delayed)[root] == 1;
  }

  lemma RootGoes(q: Queue, k: Bytes, left: seq<Hint>)
    requires Sound(q) && q.delayed != [] && q.delayed[0].key != k && EarliestGone(Pop(q.delayed, NextAt), k, left)
    ensures EarliestGone(q.delayed, k, left) && left != q.delayed
  {
    hide Sound, Pop;
    var p := Pop(q.delayed, NextAt);
    PopKeeps(q.delayed, NextAt);
    forall h
      ensures (h in q.delayed <==> h in p || h == q.delayed[0]) && (h in left ==> h in p)
      ensures h in p ==> h != q.delayed[0] && q.delayed[0].nextAt <= h.nextAt
    {
      RootMembers(q, h);
      assert h in left ==> h in multiset(left);
    }
    assert q.delayed[0] in q.delayed;
  }

  lemma RootLast(q: Queue)
    requires Sound(q) && q.delayed != []
    ensures LastGone(q.delayed, Pop(q.delayed, NextAt), q.delayed[0])
  {
    hide Sound, Pop;
    forall h
      ensures h in q.delayed && h !in Pop(q.delayed, NextAt) ==> h == q.delayed[0]
    {
      RootMembers(q, h);
    }
    RootMembers(q, q.delayed[0]);
  }

  lemma LaterLast(q: Queue, left: seq<Hint>, d: Hint)
    requires Sound(q) && q.delayed != [] && LastGone(Pop(q.delayed, NextAt), left, d)
    ensures LastGone(q.delayed, left, d)
  {
    hide Sound, Pop;
    forall g | g in q.delayed && g !in left
      ensures g.nextAt <= d.nextAt
    {
      RootMembers(q, g);
      RootMembers(q, d);
    }
    RootMembers(q, d);
  }

  lemma RootNeeded(c: Config, q: Queue, r: Queue)
    requires Sound(q) && q.delayed != [] && !Within(c, Count(q), Size(q))
    requires r.ready == q.ready && r.delayed != q.delayed
    requires NoneTooMany(c, q.(delayed := Pop(q.delayed, NextAt)), r) && |Pop(q.delayed, NextAt)| == |q.delayed| - 1
    requires Size(q) == Size(q.(delayed := Pop(q.delayed, NextAt))) + q.delayed[0].size
    ensures NoneTooMany(c, q, r)
  {
    hide Sound, Pop, Within, Sum, LastGone;
    var p := Pop(q.delayed, NextAt);
    if r.delayed == p {
      RootLast(q);
    } else {
      var d :| LastGone(p, r.delayed, d) && !Within(c, Count(r) + 1, Size(r) + d.size);
      LaterLast(q, r.delayed, d);
    }
  }

  // ---------------------------------------------------------------- what an enqueue takes

  /** A lapsed hint, and one that is not newer than the hint queued for its key, is
      refused and changes nothing. */
  lemma StaleRefused(c: Config, q: Queue, it: Hint, now: int)
    requires Lapsed(it, c.ttl, now) || (Holds(q, it.key) && it.ver <= HintFor(q, it.key).ver)
    ensures Enqueue(c, q, it, now) == Outcome(q, false, 0, 0)
  {
    hide Insert, Coalesce;
  }

  /** If dropping does not help, all that may go is gone. */
  lemma {:induction false} RoomIsCore(c: Config, q: Queue, k: Bytes)
    requires Sound(q) && !Fits(c, Core(q, k))
    ensures MakeRoom(c, q, k) == Core(q, k)
    decreases Count(q)
  {
    CoreShrinks(q, k);
    if HasVictim(q, k) {
      DropOneFacts(q, k);
      RoomIsCore(c, DropOne(q, k), k);
    }
  }

  lemma OneAlone(it: Hint)
    ensures Count(Queue([it], [])) == 1 && Size(Queue([it], [])) == it.size
    ensures Holds(Queue([it], []), it.key) && Without(Queue([it], []), it.key) == Queue([], [])
  {
    assert At([it], 0, it.key) && [it][1..] == [];
  }

  /** A hint for a new key that may be sent now is taken if and only if the caps have room
      for one more, or the oldest hints may go for it and the caps allow it alone. It then
      is last in the FIFO. If even that is too much, everything else is gone. */
  lemma NewReadyTakenIff(c: Config, q: Queue, it: Hint, now: int)
    requires WellFormed(c, q) && it.size > 0 && !Holds(q, it.key) && !Lapsed(it, c.ttl, now) && it.nextAt <= now
    ensures var r, full := Enqueue(c, q, it, now), Queue(q.ready + [it], q.delayed);
      && (r.accepted <==> || Within(c, Count(q) + 1, Size(q) + it.size)
                          || (c.drop == DropOldest && Within(c, 1, it.size)))
      && (r.accepted ==> && r.queue.ready != [] && r.queue.ready[|r.queue.ready| - 1] == it
                         && Trimmed(c, full, it.key, r.queue))
      && (!r.accepted ==> r.queue == if c.drop == DropOldest then Queue([], []) else q)
  {
    hide Sum, Clean, Ordered, KeyIn, MakeRoom, Core, Trimmed, Within, Without;
    var full := Queue(q.ready + [it], q.delayed);
    PlacedFacts(q, it, now);
    FitsIsWithin(c, full);
    NewAlone(q, it);
    OneAlone(it);
    FitsIsWithin(c, Queue([it], []));
    RoomIffCoreFits(c, full, it.key);
    if Fits(c, full) {
      NothingGone(c, full, it.key);
    } else if c.drop != DropOldest {
      TakenBack(q, it);
    } else if Fits(c, Core(full, it.key)) {
      MakeRoomTrims(c, full, it.key);
      StaysLast(c, full, it.key);
    } else {
      RoomIsCore(c, full, it.key);
    }
  }

  lemma NewAlone(q: Queue, it: Hint)
    requires !Holds(q, it.key)
    ensures Core(Queue(q.ready + [it], q.delayed), it.key) == Queue([it], [])
    ensures KeyIn(q.ready + [it], it.key)
  {
    var full := Queue(q.ready + [it], q.delayed);
    assert At(full.ready, |q.ready|, it.key);
    forall j | 0 <= j < |q.ready|
      ensures full.ready[j].key != it.key
    {
      assert !At(q.ready, j, it.key);
    }
    CoreOfReady(full, it.key, |q.ready|);
    assert full.ready[|q.ready|..] == [it];
  }

  lemma TakenBack(q: Queue, it: Hint)
    requires !Holds(q, it.key) && Holds(Queue(q.ready + [it], q.delayed), it.key)
    ensures Without(Queue(q.ready + [it], q.delayed), it.key) == q
  {
    var s := q.ready + [it];
    assert At(s, |q.ready|, it.key);
    var i := Position(s, it.key);
    assert i < |q.ready| ==> At(q.ready, i, it.key);
    assert s[..i] + s[i + 1..] == q.ready;
  }

  lemma StaysLast(c: Config, full: Queue, k: Bytes)
    requires KeyIn(full.ready, k)
    ensures var r := MakeRoom(c, full, k).ready; r != [] && r[|r| - 1] == full.ready[|full.ready| - 1]
  {
    MakeRoomHolds(c, full, k);
    MakeRoomDropsReadyFirst(c, full, k);
  }

  /** `it` and the hints of the heap due later, with those due at the same time that the
      heap's layout puts behind it. */
  ghost predicate Shielded(heap: seq<Hint>, it: Hint, kept: seq<Hint>) {
    && multiset(kept) <= multiset(heap) && it in kept
    && (forall h :: h in heap && h.nextAt > it.nextAt ==> h in kept)
    && forall h :: h in kept ==> h.nextAt >= it.nextAt
  }

  lemma {:induction false} CoreSkipsReady(q: Queue, k: Bytes)
    requires !KeyIn(q.ready, k)
    ensures Core(q, k) == Core(Queue([], q.delayed), k)
    decreases |q.ready|
  {
    if q.ready != [] {
      NotAtFront(q.ready, k);
      CoreSkipsReady(DropOne(q, k), k);
    }
  }

  lemma CoreShields(q: Queue, it: Hint)
    requires !KeyIn(q.ready, it.key) && Ordered(q.delayed, |q.delayed|, NextAt) && Alone(q.delayed, it)
    ensures var r := Core(q, it.key); r.ready == [] && Shielded(q.delayed, it, r.delayed)
  {
    hide Core, Ordered;
    var r := Core(q, it.key);
    CoreSkipsReady(q, it.key);
    forall h
      ensures multiset(r.delayed)[h] <= multiset(q.delayed)[h]
      ensures h in q.delayed && (h == it || h.nextAt > it.nextAt) ==> h in r.delayed
      ensures h in r.delayed ==> h.nextAt >= it.nextAt
    {
      CoreInHeap(q.delayed, it, h);
      assert h in q.delayed ==> h in multiset(q.delayed);
    }
    CoreInHeap(q.delayed, it, it);
  }

  lemma AloneInBag(q: Queue, it: Hint)
    requires Unique(Bag(q)) && it in q.delayed
    ensures Alone(q.delayed, it) && !KeyIn(q.ready, it.key)
  {
    assert it in Bag(q) && it in multiset(q.delayed) && Bag(q)[it] == multiset(q.ready)[it] + multiset(q.delayed)[it];
    assert forall h :: h in q.delayed ==> h in Bag(q);
    forall j | 0 <= j < |q.ready|
      ensures !At(q.ready, j, it.key)
    {
      var h := q.ready[j];
      assert h in multiset(q.ready) && h in Bag(q);
    }
  }

  lemma TakenFromHeap(q: Queue, it: Hint)
    requires Unique(Bag(q)) && it in q.delayed
    ensures Holds(q, it.key)
    ensures var r := Without(q, it.key);
      r.ready == q.ready && multiset(r.delayed) == multiset(q.delayed) - multiset{it}
  {
    hide Delete;
    AloneInBag(q, it);
    assert it in Bag(q);
    HeldIsIn(q, it);
    DeleteKeeps(q.delayed, Position(q.delayed, it.key), NextAt);
  }

  /** A hint for a new key that has to wait is taken if and only if the caps have room for
      one more, or the oldest hints may go for it and the caps allow it with the hints
      due after it. If even that is too much, only those are left. */
  lemma NewDelayedTakenIff(c: Config, q: Queue, it: Hint, now: int) returns (heap: seq<Hint>, kept: seq<Hint>)
    requires WellFormed(c, q) && it.size > 0 && !Holds(q, it.key) && !Lapsed(it, c.ttl, now) && it.nextAt > now
    ensures multiset(heap) == multiset(q.delayed) + multiset{it} && Shielded(heap, it, kept)
    ensures var r := Enqueue(c, q, it, now);
      && (r.accepted <==> || Within(c, Count(q) + 1, Size(q) + it.size)
                          || (c.drop == DropOldest && Within(c, |kept|, Sum(kept))))
      && (r.accepted ==> it in r.queue.delayed && Trimmed(c, Queue(q.ready, heap), it.key, r.queue))
      && (!r.accepted && c.drop == DropOldest ==>
            r.queue.ready == [] && multiset(r.queue.delayed) == multiset(kept) - multiset{it})
      && (!r.accepted && c.drop != DropOldest ==>
            r.queue.ready == q.ready && multiset(r.queue.delayed) == multiset(q.delayed))
  {
    hide Sum, Clean, Ordered, KeyIn, MakeRoom, Core, Trimmed, Within, Without, Push, Shielded, HintFor;
    heap := Push(q.delayed, it, NextAt);
    var full := Queue(q.ready, heap);
    PushKeeps(q.delayed, it, NextAt);
    PlacedFacts(q, it, now);
    assert it in multiset(heap);
    kept := Core(full, it.key).delayed;
    var r := Enqueue(c, q, it, now);
    assert r == Insert(c, q, it, now);
    FitsIsWithin(c, full);
    DelayedCore(c, full, it);
    if Fits(c, full) {
      NothingGone(c, full, it.key);
    } else if c.drop != DropOldest {
      TakenFromHeapOf(full, it);
    } else if Fits(c, Core(full, it.key)) {
      MakeRoomTrims(c, full, it.key);
    } else {
      RoomIsCore(c, full, it.key);
      TakenFromHeapOf(Core(full, it.key), it);
    }
  }

  lemma TakenFromHeapOf(q: Queue, it: Hint)
    requires Sound(q) && it in q.delayed
    ensures Holds(q, it.key)
    ensures var r := Without(q, it.key);
      r.ready == q.ready && multiset(r.delayed) == multiset(q.delayed) - multiset{it}
  {
    TakenFromHeap(q, it);
  }

  lemma {:induction false} CoreSound(q: Queue, k: Bytes)
    requires Sound(q)
    ensures Sound(Core(q, k))
    decreases Count(q)
  {
    if HasVictim(q, k) {
      DropOneFacts(q, k);
      CoreSound(DropOne(q, k), k);
    }
  }

  /** What is left when room is made for a hint in the heap. */
  lemma DelayedCore(c: Config, q: Queue, it: Hint)
    requires Sound(q) && it in q.delayed
    ensures var r := Core(q, it.key);
      && Sound(r) && r.ready == [] && Shielded(q.delayed, it, r.delayed) && it in r.delayed
      && (Fits(c, r) <==> Within(c, |r.delayed|, Sum(r.delayed)))
      && (Fits(c, MakeRoom(c, q, it.key)) <==> Fits(c, r)) && it in MakeRoom(c, q, it.key).delayed
  {
    hide Core, Ordered, Sum, KeyIn, MakeRoom, Shielded;
    var r := Core(q, it.key);
    AloneInBag(q, it);
    CoreShields(q, it);
    CoreSound(q, it.key);
    FitsIsWithin(c, r);
    SumOfNone();
    RoomIffCoreFits(c, q, it.key);
    ShieldedItself(q.delayed, it, r.delayed);
    StaysInHeap(c, q, it);
  }

  lemma ShieldedItself(heap: seq<Hint>, it: Hint, kept: seq<Hint>)
    requires Shielded(heap, it, kept)
    ensures it in kept
  {
  }

  lemma StaysInHeap(c: Config, q: Queue, it: Hint)
    requires Sound(q) && it in q.delayed
    ensures it in MakeRoom(c, q, it.key).delayed
  {
    hide Ordered, Sum, MakeRoom;
    MakeRoomTrims(c, q, it.key);
    assert it in q.delayed && it !in MakeRoom(c, q, it.key).delayed ==> it.key != it.key;
  }

  /** If nothing else is due at that very time, what is left is known beforehand. */
  lemma ShieldedExactly(heap: seq<Hint>, it: Hint, kept: seq<Hint>, rest: seq<Hint>)
    requires Unique(multiset(heap)) && Shielded(heap, it, kept) && multiset(heap) == multiset(rest) + multiset{it}
    requires forall h :: h in rest ==> h.nextAt != it.nextAt
    ensures |kept| == |Late(rest, it.nextAt)| + 1 && Sum(kept) == Sum(Late(rest, it.nextAt)) + it.size
  {
    hide Sum, Late;
    var late := Late(rest, it.nextAt);
    assert it in multiset(heap);
    forall h
      ensures multiset(kept)[h] == multiset(late + [it])[h]
    {
      LateCounts(rest, it.nextAt, h);
      assert multiset(kept)[h] <= multiset(heap)[h] && multiset(heap)[h] <= 1;
      assert h in multiset(heap) <==> h in heap;
      assert h in multiset(rest) <==> h in rest;
      assert h in kept <==> h in multiset(kept);
    }
    assert multiset(kept) == multiset(late + [it]);
    SumOfBag(kept, late + [it]);
    SumWith(late + [it], late, it);
    assert |multiset(kept)| == |kept| && |multiset(late + [it])| == |late| + 1;
  }

  lemma NewDelayedTakenExactly(c: Config, q: Queue, it: Hint, now: int)
    requires WellFormed(c, q) && it.size > 0 && !Holds(q, it.key) && !Lapsed(it, c.ttl, now) && it.nextAt > now
    requires forall h :: h in q.delayed ==> h.nextAt != it.nextAt
    ensures var late := Late(q.delayed, it.nextAt);
      Enqueue(c, q, it, now).accepted <==>
        || Within(c, Count(q) + 1, Size(q) + it.size)
        || (c.drop == DropOldest && Within(c, |late| + 1, Sum(late) + it.size))
  {
    hide Sum, Enqueue, Within, Shielded, Late, Trimmed, Holds;
    var heap, kept := NewDelayedTakenIff(c, q, it, now);
    HeapUnique(q, heap, it);
    ShieldedExactly(heap, it, kept, q.delayed);
  }

  lemma HeapUnique(q: Queue, heap: seq<Hint>, it: Hint)
    requires Unique(Bag(q)) && !Holds(q, it.key) && multiset(heap) == multiset(q.delayed) + multiset{it}
    ensures Unique(multiset(heap))
  {
    SubUnique(multiset(q.delayed), Bag(q));
    forall h | h in multiset(q.delayed)
      ensures h.key != it.key
    {
      assert h in Bag(q);
      HeldIsIn(q, h);
    }
  }

  /** A newer hint for a key in the FIFO takes the queued one's place there if and only if
      the caps have room for the difference, or the oldest hints may go and the caps
      allow it with the hints behind it. If not, the queued one stays, with those behind
      it if others were dropped in vain. */
  lemma NewerReadyTakenIff(c: Config, q: Queue, it: Hint, now: int, i: nat)
    requires WellFormed(c, q) && it.size > 0 && !Lapsed(it, c.ttl, now) && At(q.ready, i, it.key)
    requires it.ver > q.ready[i].ver
    ensures var r, full, more := Enqueue(c, q, it, now), Queue(q.ready[i := it], q.delayed), it.size - q.ready[i].size;
      && (r.accepted <==> || Within(c, Count(q), Size(q) + more)
                          || (c.drop == DropOldest && Within(c, |q.ready| - i, Sum(q.ready[i..]) + more)))
      && (r.accepted ==> it in r.queue.ready && Trimmed(c, full, it.key, r.queue))
      && (!r.accepted ==> r.queue == if c.drop == DropOldest then Queue(q.ready[i..], []) else q)
  {
    hide Sum, Clean, Ordered, MakeRoom, Core, Trimmed, Within, Replace;
    var full := Queue(q.ready[i := it], q.delayed);
    ReadyPlace(q, it, i);
    ReplacedFacts(q, it);
    FitsIsWithin(c, full);
    ReadyCore(c, q, it, i);
    RoomIffCoreFits(c, full, it.key);
    if Fits(c, full) {
      NothingGone(c, full, it.key);
      assert full.ready[i] == it;
    } else if c.drop == DropOldest {
      if Fits(c, Core(full, it.key)) {
        MakeRoomTrims(c, full, it.key);
        StaysInFifo(c, full, it, i);
      } else {
        RoomIsCore(c, full, it.key);
      }
    }
  }

  lemma ReadyPlace(q: Queue, it: Hint, i: nat)
    requires Sound(q) && At(q.ready, i, it.key)
    ensures Holds(q, it.key) && HintFor(q, it.key) == q.ready[i] && Inherit(q, it) == it
    ensures Replace(q, it) == Queue(q.ready[i := it], q.delayed)
    ensures !KeyIn(q.delayed, it.key) && forall j :: 0 <= j < |q.ready| && j != i ==> q.ready[j].key != it.key
  {
    hide Ordered;
    assert q.ready[i] in Bag(q);
    HeldIsIn(q, q.ready[i]);
    OneContainer(q, it.key);
    SubUnique(multiset(q.ready), Bag(q));
    ReplaceInOne(q.ready, i, it);
    ReplaceInNone(q.delayed, it);
    forall j | 0 <= j < |q.ready| && j != i
      ensures q.ready[j].key != it.key
    {
      if q.ready[j].key == it.key {
        assert q.ready[j] in Bag(q);
        TwiceInBag(q.ready, i, j);
      }
    }
  }

  lemma ReadyCore(c: Config, q: Queue, it: Hint, i: nat)
    requires At(q.ready, i, it.key) && !KeyIn(q.delayed, it.key)
    requires forall j :: 0 <= j < |q.ready| && j != i ==> q.ready[j].key != it.key
    ensures var core, prior := Core(Queue(q.ready[i := it], q.delayed), it.key), q.ready[i];
      && (Fits(c, core) <==> Within(c, |q.ready| - i, Sum(q.ready[i..]) + it.size - prior.size))
      && Replace(core, prior) == Queue(q.ready[i..], [])
  {
    hide Core, Sum;
    var s, prior := q.ready[i := it], q.ready[i];
    assert At(s, i, it.key);
    CoreOfReady(Queue(s, q.delayed), it.key, i);
    FitsIsWithin(c, Queue(s[i..], []));
    SumOfNone();
    assert s[i..] == q.ready[i..][0 := it];
    SumOfUpdate(q.ready[i..], 0, it);
    assert ReplaceIn(s[i..], prior) == q.ready[i..];
  }

  lemma StaysInFifo(c: Config, full: Queue, it: Hint, i: nat)
    requires At(full.ready, i, it.key) && full.ready[i] == it
    ensures it in MakeRoom(c, full, it.key).ready
  {
    hide MakeRoom;
    FrontKeeps(c, full, it.key);
    var r := MakeRoom(c, full, it.key).ready;
    assert r[i - (|full.ready| - |r|)] == it;
  }

  lemma {:induction false} FrontKeeps(c: Config, q: Queue, k: Bytes)
    ensures FrontGone(q.ready, k, MakeRoom(c, q, k).ready)
    decreases Count(q)
  {
    hide FrontGone;
    if !Fits(c, q) && HasVictim(q, k) {
      FrontKeeps(c, DropOne(q, k), k);
      if CanDrop(q.ready, k) {
        FrontGoes(q.ready, k, MakeRoom(c, q, k).ready);
      }
    } else {
      HeadStays(q.ready, k);
    }
  }

  /** A newer hint for a key that waits takes over its place and schedule if and only if
      the caps have room for the difference, or the oldest hints may go and the caps
      allow it with the hints due after it. If not, the queued one stays, with those due
      after it if others were dropped in vain. */
  lemma NewerDelayedTakenIff(c: Config, q: Queue, it: Hint, now: int, i: nat) returns (kept: seq<Hint>)
    requires WellFormed(c, q) && it.size > 0 && !Lapsed(it, c.ttl, now) && At(q.delayed, i, it.key)
    requires it.ver > q.delayed[i].ver
    ensures var prior := q.delayed[i];
      var next := it.(nextAt := prior.nextAt, tries := prior.tries);
      var r, full := Enqueue(c, q, it, now), Queue(q.ready, q.delayed[i := next]);
      && Shielded(full.delayed, next, kept)
      && (r.accepted <==> || Within(c, Count(q), Size(q) + it.size - prior.size)
                          || (c.drop == DropOldest && Within(c, |kept|, Sum(kept))))
      && (r.accepted ==> next in r.queue.delayed && Trimmed(c, full, it.key, r.queue))
      && (!r.accepted && c.drop == DropOldest ==>
            r.queue.ready == [] && multiset(r.queue.delayed) == multiset(kept) - multiset{next} + multiset{prior})
      && (!r.accepted && c.drop != DropOldest ==> r.queue == q)
  {
    hide Sum, Clean, Ordered, MakeRoom, Core, Trimmed, Within, Replace, Shielded, KeyIn;
    var prior := q.delayed[i];
    var next := it.(nextAt := prior.nextAt, tries := prior.tries);
    var full := Queue(q.ready, q.delayed[i := next]);
    DelayedPlace(q, it, i);
    ReplacedFacts(q, it);
    FitsIsWithin(c, full);
    assert full.delayed[i] == next;
    DelayedCore(c, full, next);
    kept := Core(full, it.key).delayed;
    if Fits(c, full) {
      NothingGone(c, full, it.key);
    } else if c.drop == DropOldest {
      if Fits(c, Core(full, it.key)) {
        MakeRoomTrims(c, full, it.key);
      } else {
        RoomIsCore(c, full, it.key);
        PutBack(Core(full, it.key), next, prior);
      }
    }
  }

  /** Likewise known beforehand if nothing else is due at that very time. */
  lemma NewerDelayedTakenExactly(c: Config, q: Queue, it: Hint, now: int, i: nat)
    requires WellFormed(c, q) && it.size > 0 && !Lapsed(it, c.ttl, now) && At(q.delayed, i, it.key)
    requires it.ver > q.delayed[i].ver
    requires forall j :: 0 <= j < |q.delayed| && j != i ==> q.delayed[j].nextAt != q.delayed[i].nextAt
    ensures var late := Late(Cut(q.delayed, i), q.delayed[i].nextAt);
      Enqueue(c, q, it, now).accepted <==>
        || Within(c, Count(q), Size(q) + it.size - q.delayed[i].size)
        || (c.drop == DropOldest && Within(c, |late| + 1, Sum(late) + it.size))
  {
    hide Sum, Enqueue, Within, Shielded, Late, Trimmed, Ordered, Cut, Clean, Unique;
    var prior, rest := q.delayed[i], Cut(q.delayed, i);
    var next := it.(nextAt := prior.nextAt, tries := prior.tries);
    var kept := NewerDelayedTakenIff(c, q, it, now, i);
    ReplacedHeap(q, it, next, i);
    OthersElsewhen(q.delayed, i);
    ShieldedExactly(q.delayed[i := next], next, kept, rest);
  }

  lemma OthersElsewhen(s: seq<Hint>, i: nat)
    requires i < |s| && forall j :: 0 <= j < |s| && j != i ==> s[j].nextAt != s[i].nextAt
    ensures forall h :: h in Cut(s, i) ==> h.nextAt != s[i].nextAt
  {
    forall h | h in Cut(s, i)
      ensures h.nextAt != s[i].nextAt
    {
      var j :| 0 <= j < |Cut(s, i)| && Cut(s, i)[j] == h;
      assert h == s[if j < i then j else j + 1];
    }
  }

  lemma ReplacedHeap(q: Queue, it: Hint, next: Hint, i: nat)
    requires Sound(q) && it.size > 0 && At(q.delayed, i, it.key)
    requires next == it.(nextAt := q.delayed[i].nextAt, tries := q.delayed[i].tries)
    ensures var heap := q.delayed[i := next];
      Unique(multiset(heap)) && multiset(heap) == multiset(Cut(q.delayed, i)) + multiset{next}
  {
    hide Ordered;
    DelayedPlace(q, it, i);
    ReplacedFacts(q, it);
    var heap := q.delayed[i := next];
    SubUnique(multiset(heap), Bag(Queue(q.ready, heap)));
    BagSplit(heap, i);
    assert heap[..i] + heap[i + 1..] == Cut(q.delayed, i);
  }

  lemma DelayedPlace(q: Queue, it: Hint, i: nat)
    requires Sound(q) && At(q.delayed, i, it.key)
    ensures Holds(q, it.key) && HintFor(q, it.key) == q.delayed[i]
    ensures var next := it.(nextAt := q.delayed[i].nextAt, tries := q.delayed[i].tries);
      Inherit(q, it) == next && Replace(q, next) == Queue(q.ready, q.delayed[i := next])
  {
    hide Ordered;
    var prior := q.delayed[i];
    assert prior in Bag(q);
    AloneInBag(q, prior);
    HeldIsIn(q, prior);
    SubUnique(multiset(q.delayed), Bag(q));
    var next := it.(nextAt := prior.nextAt, tries := prior.tries);
    ReplaceInOne(q.delayed, i, next);
    ReplaceInNone(q.ready, next);
  }

  lemma PutBack(q: Queue, next: Hint, prior: Hint)
    requires Sound(q) && q.ready == [] && next in q.delayed && next.key == prior.key
    ensures Replace(q, prior).ready == []
    ensures multiset(Replace(q, prior).delayed) == multiset(q.delayed) - multiset{next} + multiset{prior}
  {
    hide Ordered;
    var i :| 0 <= i < |q.delayed| && q.delayed[i] == next;
    assert At(q.delayed, i, prior.key);
    SubUnique(multiset(q.delayed), Bag(q));
    ReplaceInOne(q.delayed, i, prior);
  }

  // ---------------------------------------------------------------- what a pop returns

  ghost predicate Soonest(s: seq<Hint>) { forall i, j :: 0 <= i < j < |s| ==> s[i].nextAt <= s[j].nextAt }

  lemma SoonestNone()
    ensures Soonest([])
  {
  }

  lemma {:induction false} MoveDueInOrder(q: Queue, now: int) returns (due: seq<Hint>)
    requires Ordered(q.delayed, |q.delayed|, NextAt)
    ensures var r := MoveDue(q, now);
      && r.ready == q.ready + due && multiset(due) + multiset(r.delayed) == multiset(q.delayed)
      && (forall h :: h in due ==> h.nextAt <= now) && (forall h :: h in r.delayed ==> h.nextAt > now) && Soonest(due)
    decreases |q.delayed|
  {
    hide Pop, Ordered, Soonest;
    if q.delayed == [] || q.delayed[0].nextAt > now {
      due := [];
      SoonestNone();
      MoveDueShape(q, now);
      assert q.ready + due == q.ready;
    } else {
      var root := q.delayed[0];
      var q1 := Queue(q.ready + [root], Pop(q.delayed, NextAt));
      PopMembers(q.delayed, root);
      var rest := MoveDueInOrder(q1, now);
      due := [root] + rest;
      RootDueFirst(q.delayed, now, rest, MoveDue(q1, now).delayed);
      assert q1.ready + rest == q.ready + due;
    }
  }

  lemma RootDueFirst(heap: seq<Hint>, now: int, rest: seq<Hint>, left: seq<Hint>)
    requires heap != [] && Ordered(heap, |heap|, NextAt) && heap[0].nextAt <= now && Soonest(rest)
    requires multiset(rest) + multiset(left) == multiset(Pop(heap, NextAt)) && forall h :: h in rest ==> h.nextAt <= now
    ensures var due := [heap[0]] + rest;
      && Soonest(due) && (forall h :: h in due ==> h.nextAt <= now)
      && multiset(due) + multiset(left) == multiset(heap)
  {
    hide Pop, Ordered;
    PopKeeps(heap, NextAt);
    forall i | 0 <= i < |rest|
      ensures heap[0].nextAt <= rest[i].nextAt
    {
      assert rest[i] in multiset(rest) && rest[i] in multiset(Pop(heap, NextAt));
      PopMembers(heap, rest[i]);
    }
    RootBack(multiset(heap), heap[0], multiset(rest), multiset(left));
    assert multiset([heap[0]] + rest) == multiset{heap[0]} + multiset(rest);
  }

  lemma RootBack(all: multiset<Hint>, root: Hint, rest: multiset<Hint>, left: multiset<Hint>)
    requires root in all && rest + left == all - multiset{root}
    ensures multiset{root} + rest + left == all
  {
    assert multiset{root} + (rest + left) == all;
  }

  /** The due hints join the FIFO in the order of their times. Of the FIFO and these, the
      first hint that has not lapsed is returned, and exactly it and the lapsed ones
      before it are gone. The other delayed hints are not due. */
  lemma PopTakesFirstLive(c: Config, q: Queue, now: int) returns (due: seq<Hint>)
    requires WellFormed(c, q)
    ensures Soonest(due) && forall h :: h in due ==> h.nextAt <= now
    ensures var r := PopReady(c, q, now);
      && multiset(due) + multiset(r.queue.delayed) == multiset(q.delayed)
      && (forall h :: h in r.queue.delayed ==> h.nextAt > now)
    ensures var r, all := PopReady(c, q, now), q.ready + due;
      && |r.queue.ready| <= |all|
      && var n := |all| - |r.queue.ready|;
      && r.queue.ready == all[n..]
      && match r.hint
         case None => n == |all| && forall i :: 0 <= i < n ==> Lapsed(all[i], c.ttl, now)
         case Some(h) => && n > 0 && h == all[n - 1] && !Lapsed(h, c.ttl, now)
                         && forall i :: 0 <= i < n - 1 ==> Lapsed(all[i], c.ttl, now)
  {
    hide TakeLive, MoveDue, Sum, Ordered, Clean, Soonest;
    due := MoveDueInOrder(q, now);
    TakeLiveShape(c, MoveDue(q, now), now);
  }
}
