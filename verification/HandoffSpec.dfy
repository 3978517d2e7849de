/** What the per-peer hinted-handoff queue computes, on values: a FIFO of hints
    that may be sent now and a backoff heap of hints that must wait. The class in
    HintQueue.dfy, with its key index, linked list and back-pointers, is proved
    equal to these functions; the properties of every run are proved here. */
module HandoffSpec {
  import opened BinaryHeap
  import opened Wrappers

  datatype Hint = Hint(
    key: Bytes, val: Bytes, exp: int, ver: nat, cp: bool, isDel: bool,
    addedAt: int, size: int, nextAt: int, tries: nat)

  datatype DropPolicy = DropOldest | DropNewest | DropNone

  datatype Config = Config(maxItems: int, maxBytes: int, ttl: int, drop: DropPolicy)

  datatype Queue = Queue(ready: seq<Hint>, delayed: seq<Hint>)

  /** The result of an enqueue: the new queue, whether the hint was taken, and the
      byte and item changes reported to the caller. */
  datatype Outcome = Outcome(queue: Queue, accepted: bool, bytesDelta: int, itemsDelta: int)

  datatype Popped = Popped(queue: Queue, hint: Option<Hint>)

  function NextAt(h: Hint): int { h.nextAt }

  predicate Expired(h: Hint, ttl: int, now: int) {
    (ttl > 0 && now - h.addedAt >= ttl) || (h.exp > 0 && now >= h.exp && !h.isDel)
  }

  function Sum(s: seq<Hint>): (r: int) {
    if s == [] then 0 else s[0].size + Sum(s[1..])
  }

  function Size(q: Queue): int { Sum(q.ready) + Sum(q.delayed) }

  function Count(q: Queue): nat { |q.ready| + |q.delayed| }

  predicate OverCap(c: Config, items: int, size: int) {
    (c.maxItems > 0 && items > c.maxItems) || (c.maxBytes > 0 && size > c.maxBytes)
  }

  predicate Fits(c: Config, q: Queue) { !OverCap(c, Count(q), Size(q)) }

  function Bag(q: Queue): multiset<Hint> { multiset(q.ready) + multiset(q.delayed) }

  ghost predicate At(s: seq<Hint>, i: int, k: Bytes) {
    0 <= i < |s| && s[i].key == k
  }

  ghost predicate KeyIn(s: seq<Hint>, k: Bytes) {
    exists i :: At(s, i, k)
  }

  ghost predicate Holds(q: Queue, k: Bytes) { KeyIn(q.ready, k) || KeyIn(q.delayed, k) }

  ghost function Position(s: seq<Hint>, k: Bytes): (i: nat)
    requires KeyIn(s, k)
    ensures At(s, i, k)
  {
    var i :| At(s, i, k);
    i
  }

  ghost function HintFor(q: Queue, k: Bytes): (h: Hint)
    requires Holds(q, k)
    ensures h.key == k && h in Bag(q)
  {
    if KeyIn(q.ready, k) then q.ready[Position(q.ready, k)] else q.delayed[Position(q.delayed, k)]
  }

  // ---------------------------------------------------------------- the operations

  predicate CanDrop(s: seq<Hint>, avoid: Bytes) { s != [] && s[0].key != avoid }

  predicate HasVictim(q: Queue, avoid: Bytes) { CanDrop(q.ready, avoid) || CanDrop(q.delayed, avoid) }

  /** Drops the oldest ready hint, or else the delayed hint due first; never `avoid`. */
  function DropOne(q: Queue, avoid: Bytes): (r: Queue)
    requires HasVictim(q, avoid)
    ensures Count(r) == Count(q) - 1
  {
    if CanDrop(q.ready, avoid) then q.(ready := q.ready[1..]) else q.(delayed := Pop(q.delayed, NextAt))
  }

  function MakeRoom(c: Config, q: Queue, avoid: Bytes): (r: Queue)
    decreases Count(q)
  {
    if Fits(c, q) || !HasVictim(q, avoid) then q else MakeRoom(c, DropOne(q, avoid), avoid)
  }

  function ReplaceIn(s: seq<Hint>, h: Hint): (r: seq<Hint>) {
    seq(|s|, i requires 0 <= i < |s| => if s[i].key == h.key then h else s[i])
  }

  /** Puts `h` where the queue holds another hint for the same key. */
  function Replace(q: Queue, h: Hint): (r: Queue) {
    Queue(ReplaceIn(q.ready, h), ReplaceIn(q.delayed, h))
  }

  ghost function Without(q: Queue, k: Bytes): (r: Queue)
    requires Holds(q, k)
    ensures Count(r) == Count(q) - 1
  {
    if KeyIn(q.ready, k) then
      var i := Position(q.ready, k);
      q.(ready := q.ready[..i] + q.ready[i + 1..])
    else
      q.(delayed := Delete(q.delayed, Position(q.delayed, k), NextAt))
  }

  function Place(q: Queue, it: Hint, now: int): (r: Queue) {
    if it.nextAt > now then q.(delayed := Push(q.delayed, it, NextAt)) else q.(ready := q.ready + [it])
  }

  ghost function Insert(c: Config, q: Queue, it: Hint, now: int): (r: Outcome)
  {
    var q1 := Place(q, it, now);
    PlaceHolds(q, it, now);
    if Fits(c, q1) then Outcome(q1, true, it.size, 1)
    else if c.drop != DropOldest then Outcome(Without(q1, it.key), false, 0, 0)
    else
      var q2 := MakeRoom(c, q1, it.key);
      MakeRoomHolds(c, q1, it.key);
      if Fits(c, q2) then Outcome(q2, true, Size(q2) - Size(q), Count(q2) - Count(q))
      else Outcome(Without(q2, it.key), false, Size(q2) - Size(q1), Count(q2) - Count(q1))
  }

  /** The incoming hint takes over the schedule of a delayed hint it replaces. */
  ghost function Inherit(q: Queue, it: Hint): (r: Hint)
    requires Holds(q, it.key)
  {
    if KeyIn(q.ready, it.key) then it
    else var prior := HintFor(q, it.key); it.(nextAt := prior.nextAt, tries := prior.tries)
  }

  /** A newer hint replaces the queued one in place. When the oldest hints are
      dropped and the result still does not fit, the replacement is undone, the
      drops are not, and the reported byte change is the dropped total with a
      positive sign. */
  ghost function Coalesce(c: Config, q: Queue, it: Hint): (r: Outcome)
    requires Holds(q, it.key)
  {
    var prior := HintFor(q, it.key);
    var q1 := Replace(q, Inherit(q, it));
    if Fits(c, q1) then Outcome(q1, true, it.size - prior.size, 0)
    else if c.drop != DropOldest then Outcome(q, false, 0, 0)
    else
      var q2 := MakeRoom(c, q1, it.key);
      if Fits(c, q2) then Outcome(q2, true, Size(q2) - Size(q), Count(q2) - Count(q))
      else Outcome(Replace(q2, prior), false, Size(q1) - Size(q2), Count(q2) - Count(q))
  }

  /** What becomes of a queue in which a hint `delta` bytes larger has replaced `prior`. */
  ghost function Settled(c: Config, q1: Queue, prior: Hint, delta: int): (r: Outcome) {
    if Fits(c, q1) then Outcome(q1, true, delta, 0)
    else if c.drop != DropOldest then Outcome(Replace(q1, prior), false, 0, 0)
    else
      var q2 := MakeRoom(c, q1, prior.key);
      if Fits(c, q2) then Outcome(q2, true, delta - (Size(q1) - Size(q2)), Count(q2) - Count(q1))
      else Outcome(Replace(q2, prior), false, Size(q1) - Size(q2), Count(q2) - Count(q1))
  }

  lemma CoalesceSettles(c: Config, q: Queue, it: Hint)
    requires Holds(q, it.key)
    requires var q1, prior := Replace(q, Inherit(q, it)), HintFor(q, it.key);
      Replace(q1, prior) == q && Size(q1) == Size(q) + it.size - prior.size
    ensures Coalesce(c, q, it)
         == Settled(c, Replace(q, Inherit(q, it)), HintFor(q, it.key), it.size - HintFor(q, it.key).size)
  {
    hide Sum, MakeRoom, KeyIn, HintFor;
    HintForKey(q, it.key);
  }

  lemma HintForKey(q: Queue, k: Bytes)
    requires Holds(q, k)
    ensures HintFor(q, k).key == k
  {
  }

  ghost function Enqueue(c: Config, q: Queue, it: Hint, now: int): (r: Outcome) {
    if Expired(it, c.ttl, now) then Outcome(q, false, 0, 0)
    else if !Holds(q, it.key) then Insert(c, q, it, now)
    else if it.ver <= HintFor(q, it.key).ver then Outcome(q, false, 0, 0)
    else Coalesce(c, q, it)
  }

  function MoveDue(q: Queue, now: int): (r: Queue)
    ensures Count(r) == Count(q)
    decreases |q.delayed|
  {
    if q.delayed == [] || q.delayed[0].nextAt > now then q
    else MoveDue(Queue(q.ready + [q.delayed[0]], Pop(q.delayed, NextAt)), now)
  }

  function TakeLive(c: Config, q: Queue, now: int): (r: Popped)
    decreases |q.ready|
  {
    if q.ready == [] then Popped(q, None)
    else
      var rest := q.(ready := q.ready[1..]);
      if Expired(q.ready[0], c.ttl, now) then TakeLive(c, rest, now) else Popped(rest, Some(q.ready[0]))
  }

  function PopReady(c: Config, q: Queue, now: int): (r: Popped) { TakeLive(c, MoveDue(q, now), now) }

  // ---------------------------------------------------------------- presence

  lemma PlaceHolds(q: Queue, it: Hint, now: int)
    ensures Holds(Place(q, it, now), it.key)
  {
    if it.nextAt > now {
      PushKeeps(q.delayed, it, NextAt);
      var p := Push(q.delayed, it, NextAt);
      assert it in multiset(p);
      var i :| 0 <= i < |p| && p[i] == it;
      assert At(p, i, it.key);
    } else {
      assert At(q.ready + [it], |q.ready|, it.key);
    }
  }

  lemma {:induction false} MakeRoomHolds(c: Config, q: Queue, k: Bytes)
    requires Holds(q, k)
    ensures Holds(MakeRoom(c, q, k), k)
    ensures KeyIn(q.ready, k) ==> KeyIn(MakeRoom(c, q, k).ready, k)
    decreases Count(q)
  {
    if !Fits(c, q) && HasVictim(q, k) {
      DropOneHolds(q, k);
      MakeRoomHolds(c, DropOne(q, k), k);
    }
  }

  lemma DropOneHolds(q: Queue, k: Bytes)
    requires Holds(q, k) && HasVictim(q, k)
    ensures Holds(DropOne(q, k), k)
    ensures KeyIn(q.ready, k) ==> KeyIn(DropOne(q, k).ready, k)
  {
    hide Pop;
    if CanDrop(q.ready, k) {
      if KeyIn(q.ready, k) {
        var i := Position(q.ready, k);
        assert At(q.ready[1..], i - 1, k);
      }
    } else if KeyIn(q.delayed, k) {
      var h := q.delayed[Position(q.delayed, k)];
      PopKeeps(q.delayed, NextAt);
      assert h in multiset(Pop(q.delayed, NextAt));
      var i :| 0 <= i < |Pop(q.delayed, NextAt)| && Pop(q.delayed, NextAt)[i] == h;
      assert At(Pop(q.delayed, NextAt), i, k);
    }
  }

  // ---------------------------------------------------------------- sums and bags

  lemma {:induction false} SumOfConcat(a: seq<Hint>, b: seq<Hint>)
    ensures Sum(a + b) == Sum(a) + Sum(b)
  {
    if a == [] {
      assert a + b == b;
    } else {
      assert (a + b)[1..] == a[1..] + b;
      SumOfConcat(a[1..], b);
    }
  }

  lemma SumHead(s: seq<Hint>)
    requires s != []
    ensures Sum(s) == s[0].size + Sum(s[1..])
    ensures multiset(s) == multiset{s[0]} + multiset(s[1..])
  {
    assert s == [s[0]] + s[1..];
  }

  lemma BagSplit(s: seq<Hint>, i: nat)
    requires i < |s|
    ensures multiset(s) == multiset(s[..i] + s[i + 1..]) + multiset{s[i]}
  {
    assert s == s[..i] + [s[i]] + s[i + 1..];
  }

  lemma SumSplit(s: seq<Hint>, i: nat)
    requires i < |s|
    ensures Sum(s) == Sum(s[..i] + s[i + 1..]) + s[i].size
    ensures multiset(s) == multiset(s[..i] + s[i + 1..]) + multiset{s[i]}
  {
    hide Sum;
    BagSplit(s, i);
    SumAround(s[..i], s[i], s[i + 1..]);
    assert s == s[..i] + ([s[i]] + s[i + 1..]);
  }

  lemma SumAround(a: seq<Hint>, x: Hint, b: seq<Hint>)
    ensures Sum(a + ([x] + b)) == Sum(a + b) + x.size
  {
    hide Sum;
    SumOfConcat(a, [x] + b);
    SumOfConcat(a, b);
    SumHead([x] + b);
    assert ([x] + b)[1..] == b;
  }

  lemma {:induction false} SumOfBag(a: seq<Hint>, b: seq<Hint>)
    requires multiset(a) == multiset(b)
    ensures Sum(a) == Sum(b)
    decreases |a|
  {
    if a == [] {
      assert |multiset(b)| == |b|;
    } else {
      assert a[0] in multiset(b);
      var i :| 0 <= i < |b| && b[i] == a[0];
      SumSplit(b, i);
      assert a == [a[0]] + a[1..];
      assert multiset(a[1..]) == multiset(a) - multiset{a[0]};
      assert multiset(b[..i] + b[i + 1..]) == multiset(b) - multiset{a[0]};
      SumOfBag(a[1..], b[..i] + b[i + 1..]);
    }
  }

  lemma SumWith(a: seq<Hint>, b: seq<Hint>, x: Hint)
    requires multiset(a) == multiset(b) + multiset{x}
    ensures Sum(a) == Sum(b) + x.size
  {
    SumOfBag(a, b + [x]);
    SumOfConcat(b, [x]);
  }

  /** At most one hint per key, in one container, once. */
  ghost predicate Unique(m: multiset<Hint>) {
    && (forall a :: a in m ==> m[a] == 1)
    && (forall a, b :: a in m && b in m && a.key == b.key ==> a == b)
  }

  ghost predicate WellFormed(c: Config, q: Queue) {
    Sound(q) && Fits(c, q)
  }

  /** Well formed up to the caps, which are enforced last. */
  ghost predicate Sound(q: Queue) {
    Clean(Bag(q)) && Ordered(q.delayed, |q.delayed|, NextAt)
  }

  lemma HeldIsIn(q: Queue, h: Hint)
    requires h in Bag(q)
    ensures Holds(q, h.key)
    ensures Unique(Bag(q)) ==> HintFor(q, h.key) == h
  {
    if h in q.ready {
      var i :| 0 <= i < |q.ready| && q.ready[i] == h;
      assert At(q.ready, i, h.key);
    } else {
      assert h in q.delayed;
      var i :| 0 <= i < |q.delayed| && q.delayed[i] == h;
      assert At(q.delayed, i, h.key);
    }
  }

  function Victim(q: Queue, avoid: Bytes): (h: Hint)
    requires HasVictim(q, avoid)
    ensures h in Bag(q) && h.key != avoid
  {
    if CanDrop(q.ready, avoid) then q.ready[0] else q.delayed[0]
  }

  ghost predicate Clean(m: multiset<Hint>) {
    Unique(m) && forall h :: h in m ==> h.size > 0
  }

  lemma SubUnique(m: multiset<Hint>, n: multiset<Hint>)
    requires Unique(n) && m <= n
    ensures Unique(m)
  {
    forall a | a in m
      ensures a in n && m[a] == 1
    {
      assert m[a] <= n[a];
    }
  }

  lemma SubBagClean(m: multiset<Hint>, n: multiset<Hint>)
    requires Clean(n) && m <= n
    ensures Clean(m)
  {
    SubUnique(m, n);
    assert forall a :: a in m ==> a in n;
  }

  lemma AddToClean(m: multiset<Hint>, it: Hint)
    requires Clean(m) && it.size > 0 && forall h :: h in m ==> h.key != it.key
    ensures Clean(m + multiset{it})
  {
    assert it !in m;
    forall a | a in m + multiset{it}
      ensures (m + multiset{it})[a] == 1
    {
      assert a == it || a in m;
    }
  }

  lemma PopCounts(s: seq<Hint>)
    requires s != []
    ensures multiset(Pop(s, NextAt)) == multiset(s) - multiset{s[0]}
    ensures Sum(Pop(s, NextAt)) == Sum(s) - s[0].size
  {
    hide Pop, Sum;
    PopKeeps(s, NextAt);
    SumWith(s, Pop(s, NextAt), s[0]);
  }

  lemma DropOneCounts(q: Queue, avoid: Bytes)
    requires HasVictim(q, avoid)
    ensures Bag(DropOne(q, avoid)) == Bag(q) - multiset{Victim(q, avoid)}
    ensures Size(DropOne(q, avoid)) == Size(q) - Victim(q, avoid).size
  {
    hide Pop, Sum;
    if CanDrop(q.ready, avoid) {
      SumHead(q.ready);
    } else {
      PopCounts(q.delayed);
    }
  }

  lemma DropOneFacts(q: Queue, avoid: Bytes)
    requires HasVictim(q, avoid) && Sound(q)
    ensures Bag(DropOne(q, avoid)) == Bag(q) - multiset{Victim(q, avoid)}
    ensures Size(DropOne(q, avoid)) == Size(q) - Victim(q, avoid).size
    ensures Sound(DropOne(q, avoid))
  {
    DropOneCounts(q, avoid);
    SubBagClean(Bag(DropOne(q, avoid)), Bag(q));
    if !CanDrop(q.ready, avoid) {
      PopOrders(q.delayed, NextAt);
    }
  }

  lemma {:induction false} MakeRoomFacts(c: Config, q: Queue, k: Bytes)
    requires Sound(q)
    ensures var r := MakeRoom(c, q, k);
      && Sound(r) && Bag(r) <= Bag(q) && Size(r) <= Size(q) && Count(r) <= Count(q)
      && (Fits(c, r) || !HasVictim(r, k))
      && (forall h :: h in Bag(q) && h.key == k ==> h in Bag(r))
    decreases Count(q)
  {
    if !Fits(c, q) && HasVictim(q, k) {
      DropOneFacts(q, k);
      MakeRoomFacts(c, DropOne(q, k), k);
    }
  }

  lemma PlaceFacts(q: Queue, it: Hint, now: int)
    requires Sound(q) && !Holds(q, it.key) && it.size > 0
    ensures var r := Place(q, it, now);
      && Sound(r) && Bag(r) == Bag(q) + multiset{it}
      && Size(r) == Size(q) + it.size && Count(r) == Count(q) + 1
  {
    var r := Place(q, it, now);
    if it.nextAt > now {
      PushKeeps(q.delayed, it, NextAt);
      PushOrders(q.delayed, it, NextAt);
      SumWith(r.delayed, q.delayed, it);
    } else {
      SumWith(r.ready, q.ready, it);
    }
    forall h | h in Bag(q)
      ensures h.key != it.key
    {
      HeldIsIn(q, h);
    }
    assert Bag(r) == Bag(q) + multiset{it};
    AddToClean(Bag(q), it);
  }

  lemma DeleteCounts(s: seq<Hint>, i: nat)
    requires i < |s|
    ensures multiset(Delete(s, i, NextAt)) == multiset(s) - multiset{s[i]}
    ensures Sum(Delete(s, i, NextAt)) == Sum(s) - s[i].size
  {
    DeleteKeeps(s, i, NextAt);
    SumWith(s, Delete(s, i, NextAt), s[i]);
  }

  lemma CutReady(q: Queue, i: nat)
    requires i < |q.ready|
    ensures var r := q.(ready := q.ready[..i] + q.ready[i + 1..]);
      Bag(r) == Bag(q) - multiset{q.ready[i]} && Size(r) == Size(q) - q.ready[i].size
  {
    hide Sum;
    SumSplit(q.ready, i);
    assert multiset(q.ready[..i] + q.ready[i + 1..]) == multiset(q.ready) - multiset{q.ready[i]};
  }

  lemma CutDelayed(q: Queue, i: nat)
    requires i < |q.delayed|
    ensures var r := q.(delayed := Delete(q.delayed, i, NextAt));
      Bag(r) == Bag(q) - multiset{q.delayed[i]} && Size(r) == Size(q) - q.delayed[i].size
  {
    hide Sum, Delete;
    DeleteCounts(q.delayed, i);
  }

  lemma WithoutCounts(q: Queue, k: Bytes)
    requires Holds(q, k)
    ensures Bag(Without(q, k)) == Bag(q) - multiset{HintFor(q, k)}
    ensures Size(Without(q, k)) == Size(q) - HintFor(q, k).size
  {
    hide Bag, Size, Delete;
    if KeyIn(q.ready, k) {
      CutReady(q, Position(q.ready, k));
    } else {
      CutDelayed(q, Position(q.delayed, k));
    }
  }

  lemma WithoutFirst(q: Queue)
    requires q.ready != [] && KeyIn(q.ready, q.ready[0].key) && Position(q.ready, q.ready[0].key) == 0
    ensures Without(q, q.ready[0].key) == q.(ready := q.ready[1..])
  {
    assert q.ready[..0] + q.ready[1..] == q.ready[1..];
  }

  lemma WithoutFacts(q: Queue, k: Bytes)
    requires Sound(q) && Holds(q, k)
    ensures var r := Without(q, k);
      && Sound(r) && Bag(r) == Bag(q) - multiset{HintFor(q, k)}
      && Size(r) == Size(q) - HintFor(q, k).size
  {
    WithoutCounts(q, k);
    SubBagClean(Bag(Without(q, k)), Bag(q));
    if !KeyIn(q.ready, k) {
      DeleteOrders(q.delayed, Position(q.delayed, k), NextAt);
    }
  }

  lemma ReplaceInOne(s: seq<Hint>, i: nat, h: Hint)
    requires Unique(multiset(s)) && At(s, i, h.key)
    ensures ReplaceIn(s, h) == s[i := h]
  {
    forall j | 0 <= j < |s| && j != i
      ensures s[j].key != h.key
    {
      if s[j].key == h.key {
        assert s[j] in multiset(s) && s[i] in multiset(s);
        TwiceInBag(s, i, j);
      }
    }
  }

  lemma TwiceInBag(s: seq<Hint>, i: nat, j: nat)
    requires i < |s| && j < |s| && i != j && s[i] == s[j]
    ensures multiset(s)[s[i]] >= 2
  {
    SumSplit(s, i);
    var t := s[..i] + s[i + 1..];
    var k := if j < i then j else j - 1;
    assert t[k] == s[j];
    assert t[k] in multiset(t);
  }

  lemma ReplaceInNone(s: seq<Hint>, h: Hint)
    requires !KeyIn(s, h.key)
    ensures ReplaceIn(s, h) == s
  {
    forall j | 0 <= j < |s|
      ensures s[j].key != h.key
    {
      assert At(s, j, h.key) || s[j].key != h.key;
    }
  }

  lemma SumOfUpdate(s: seq<Hint>, i: nat, h: Hint)
    requires i < |s|
    ensures Sum(s[i := h]) == Sum(s) - s[i].size + h.size
  {
    SumSplit(s, i);
    SumSplit(s[i := h], i);
    assert s[i := h][..i] == s[..i] && s[i := h][i + 1..] == s[i + 1..];
  }

  lemma OneContainer(q: Queue, k: Bytes)
    requires Unique(Bag(q)) && KeyIn(q.ready, k)
    ensures !KeyIn(q.delayed, k)
  {
    var i := Position(q.ready, k);
    assert q.ready[i] in multiset(q.ready) && q.ready[i] in Bag(q);
    forall j | 0 <= j < |q.delayed|
      ensures !At(q.delayed, j, k)
    {
      assert q.delayed[j] in multiset(q.delayed) && q.delayed[j] in Bag(q);
    }
  }

  lemma ReplaceInCounts(s: seq<Hint>, h: Hint)
    requires Unique(multiset(s)) && KeyIn(s, h.key)
    ensures var r, prior := ReplaceIn(s, h), s[Position(s, h.key)];
      multiset(r) == multiset(s) - multiset{prior} + multiset{h} && Sum(r) == Sum(s) - prior.size + h.size
  {
    ReplaceInOne(s, Position(s, h.key), h);
    SumOfUpdate(s, Position(s, h.key), h);
  }

  lemma BagWith(a: multiset<Hint>, b: multiset<Hint>, x: Hint, y: Hint)
    requires x in a
    ensures (a - multiset{x} + multiset{y}) + b == (a + b) - multiset{x} + multiset{y}
    ensures b + (a - multiset{x} + multiset{y}) == (b + a) - multiset{x} + multiset{y}
  {
  }

  /** Replacing a queued hint changes nothing but that hint. */
  lemma ReplaceCounts(q: Queue, h: Hint)
    requires Unique(Bag(q)) && Holds(q, h.key)
    ensures var r := Replace(q, h);
      && Bag(r) == Bag(q) - multiset{HintFor(q, h.key)} + multiset{h}
      && Size(r) == Size(q) - HintFor(q, h.key).size + h.size
      && |r.ready| == |q.ready| && |r.delayed| == |q.delayed|
  {
    var a, b := multiset(q.ready), multiset(q.delayed);
    if KeyIn(q.ready, h.key) {
      OneContainer(q, h.key);
      SubUnique(a, a + b);
      ReplaceInCounts(q.ready, h);
      ReplaceInNone(q.delayed, h);
      BagWith(a, b, HintFor(q, h.key), h);
    } else {
      SubUnique(b, a + b);
      ReplaceInNone(q.ready, h);
      ReplaceInCounts(q.delayed, h);
      BagWith(b, a, HintFor(q, h.key), h);
    }
  }

  lemma ReplaceOrdered(s: seq<Hint>, h: Hint)
    requires Ordered(s, |s|, NextAt)
    requires forall i :: 0 <= i < |s| && s[i].key == h.key ==> s[i].nextAt == h.nextAt
    ensures Ordered(ReplaceIn(s, h), |s|, NextAt)
  {
    var r := ReplaceIn(s, h);
    forall i | 0 <= i < |s|
      ensures r[i].nextAt == s[i].nextAt
    {
    }
  }

  /** A hint may take over a queued hint's place if it keeps a delayed schedule. */
  ghost predicate KeepsSchedule(q: Queue, h: Hint) {
    Holds(q, h.key) && (KeyIn(q.delayed, h.key) ==> h.nextAt == HintFor(q, h.key).nextAt)
  }

  lemma ReplaceFacts(q: Queue, h: Hint)
    requires Sound(q) && KeepsSchedule(q, h) && h.size > 0
    ensures var r := Replace(q, h);
      && Sound(r) && Count(r) == Count(q)
      && Bag(r) == Bag(q) - multiset{HintFor(q, h.key)} + multiset{h}
      && Size(r) == Size(q) - HintFor(q, h.key).size + h.size
  {
    var prior := HintFor(q, h.key);
    ReplaceCounts(q, h);
    forall i | 0 <= i < |q.delayed| && q.delayed[i].key == h.key
      ensures q.delayed[i].nextAt == h.nextAt
    {
      assert At(q.delayed, i, h.key) && q.delayed[i] in Bag(q);
    }
    ReplaceOrdered(q.delayed, h);
    SubBagClean(Bag(q) - multiset{prior}, Bag(q));
    assert prior !in Bag(q) - multiset{prior};
    AddToClean(Bag(q) - multiset{prior}, h);
  }

  // ---------------------------------------------------------------- enqueue

  /** Dropping until the queue fits, then giving up on `k` if it never does. */
  lemma RoomFacts(c: Config, q: Queue, k: Bytes)
    requires Sound(q) && Holds(q, k)
    ensures var r := MakeRoom(c, q, k);
      && Holds(r, k) && HintFor(r, k) == HintFor(q, k)
      && Sound(Without(r, k))
      && Bag(Without(r, k)) == Bag(r) - multiset{HintFor(q, k)}
      && Size(Without(r, k)) == Size(r) - HintFor(q, k).size
  {
    MakeRoomFacts(c, q, k);
    MakeRoomHolds(c, q, k);
    var r := MakeRoom(c, q, k);
    assert HintFor(q, k) in Bag(r);
    HeldIsIn(r, HintFor(q, k));
    WithoutFacts(r, k);
  }

  lemma PlacedFacts(q: Queue, it: Hint, now: int)
    requires Sound(q) && !Holds(q, it.key) && it.size > 0
    ensures it !in Bag(q)
    ensures var q1 := Place(q, it, now);
      && Sound(q1) && Bag(q1) == Bag(q) + multiset{it} && Size(q1) == Size(q) + it.size
      && Count(q1) == Count(q) + 1
      && Holds(q1, it.key) && HintFor(q1, it.key) == it
  {
    PlaceFacts(q, it, now);
    HeldIsIn(Place(q, it, now), it);
    if it in Bag(q) {
      HeldIsIn(q, it);
    }
  }

  lemma InsertFacts(c: Config, q: Queue, it: Hint, now: int)
    requires WellFormed(c, q) && !Holds(q, it.key) && it.size > 0
    ensures var r := Insert(c, q, it, now);
      && WellFormed(c, r.queue)
      && Bag(r.queue) <= Bag(q) + multiset{it}
      && (r.accepted <==> it in Bag(r.queue))
      && r.bytesDelta == Size(r.queue) - Size(q)
      && r.itemsDelta == Count(r.queue) - Count(q)
  {
    var q1 := Place(q, it, now);
    PlacedFacts(q, it, now);
    if !Fits(c, q1) {
      if c.drop != DropOldest {
        WithoutFacts(q1, it.key);
      } else {
        MakeRoomFacts(c, q1, it.key);
        RoomFacts(c, q1, it.key);
      }
    }
  }

  lemma ReplaceInKeepsKey(s: seq<Hint>, h: Hint)
    ensures KeyIn(ReplaceIn(s, h), h.key) <==> KeyIn(s, h.key)
  {
    var r := ReplaceIn(s, h);
    if KeyIn(s, h.key) {
      assert At(r, Position(s, h.key), h.key);
    }
    if KeyIn(r, h.key) {
      assert At(s, Position(r, h.key), h.key);
    }
  }

  lemma ReplacedFacts(q: Queue, it: Hint)
    requires Sound(q) && Holds(q, it.key) && it.size > 0
    ensures var h, prior := Inherit(q, it), HintFor(q, it.key);
      var q1 := Replace(q, h);
      && Sound(q1) && Count(q1) == Count(q) && Size(q1) == Size(q) - prior.size + it.size
      && Bag(q1) == Bag(q) - multiset{prior} + multiset{h}
      && Holds(q1, it.key) && HintFor(q1, it.key) == h
  {
    var h := Inherit(q, it);
    if KeyIn(q.ready, it.key) {
      OneContainer(q, it.key);
    }
    ReplaceFacts(q, h);
    HeldIsIn(Replace(q, h), h);
  }

  /** Undoing a replacement after drops gives back the old queue minus the drops. */
  lemma RevertedFacts(c: Config, q: Queue, it: Hint)
    requires Sound(q) && Holds(q, it.key) && it.size > 0
    ensures var h, prior := Inherit(q, it), HintFor(q, it.key);
      var q2 := MakeRoom(c, Replace(q, h), it.key);
      var r := Replace(q2, prior);
      && Sound(r) && Count(r) == Count(q2) && Size(r) == Size(q2) - it.size + prior.size
      && Bag(r) == Bag(q2) - multiset{h} + multiset{prior}
      && Holds(r, it.key) && HintFor(r, it.key) == prior
  {
    var h, prior := Inherit(q, it), HintFor(q, it.key);
    var q1 := Replace(q, h);
    var q2 := MakeRoom(c, q1, it.key);
    ReplacedFacts(q, it);
    MakeRoomFacts(c, q1, it.key);
    RoomFacts(c, q1, it.key);
    if KeyIn(q.ready, it.key) {
      ReplaceInKeepsKey(q.ready, h);
      MakeRoomHolds(c, q1, it.key);
      OneContainer(q2, it.key);
    }
    ReplaceFacts(q2, prior);
    HeldIsIn(Replace(q2, prior), prior);
  }

  /** The replacement is undone: nothing more can be dropped and it still does not fit. */
  ghost predicate Undone(c: Config, q: Queue, it: Hint)
    requires Holds(q, it.key)
  {
    var q1 := Replace(q, Inherit(q, it));
    c.drop == DropOldest && !Fits(c, q1) && !Fits(c, MakeRoom(c, q1, it.key))
  }

  lemma CoalesceCounts(c: Config, q: Queue, it: Hint)
    requires WellFormed(c, q) && Holds(q, it.key) && it.size > 0
    ensures var r := Coalesce(c, q, it);
      && WellFormed(c, r.queue)
      && r.itemsDelta == Count(r.queue) - Count(q)
      && r.bytesDelta == (if Undone(c, q, it) then Size(q) - Size(r.queue) else Size(r.queue) - Size(q))
  {
    hide MakeRoom, Replace, ReplaceIn, Bag, Sum, Clean, KeyIn, Ordered, HintFor, Inherit;
    var q1 := Replace(q, Inherit(q, it));
    ReplacedFacts(q, it);
    if !Fits(c, q1) && c.drop == DropOldest {
      MakeRoomFacts(c, q1, it.key);
      RevertedFacts(c, q, it);
    }
  }

  lemma CoalesceContents(c: Config, q: Queue, it: Hint)
    requires WellFormed(c, q) && Holds(q, it.key) && it.size > 0
    ensures var r := Coalesce(c, q, it);
      && Holds(r.queue, it.key)
      && HintFor(r.queue, it.key) == (if r.accepted then Inherit(q, it) else HintFor(q, it.key))
      && forall h :: h in Bag(r.queue) && h.key != it.key ==> h in Bag(q)
  {
    hide MakeRoom, Replace, ReplaceIn, Bag, Sum, Clean, KeyIn, Ordered, HintFor, Inherit;
    var q1 := Replace(q, Inherit(q, it));
    ReplacedFacts(q, it);
    if !Fits(c, q1) && c.drop == DropOldest {
      MakeRoomFacts(c, q1, it.key);
      RoomFacts(c, q1, it.key);
      RevertedFacts(c, q, it);
    }
  }

  // ---------------------------------------------------------------- what cannot be dropped

  /** What is left when everything that may be dropped for `k` has been dropped. */
  function Core(q: Queue, k: Bytes): (r: Queue)
    decreases Count(q)
  {
    if HasVictim(q, k) then Core(DropOne(q, k), k) else q
  }

  lemma {:induction false} CoreShrinks(q: Queue, k: Bytes)
    requires Sound(q)
    ensures Count(Core(q, k)) <= Count(q) && Size(Core(q, k)) <= Size(q)
    decreases Count(q)
  {
    if HasVictim(q, k) {
      DropOneFacts(q, k);
      CoreShrinks(DropOne(q, k), k);
    }
  }

  /** Dropping succeeds exactly when the undroppable core fits. */
  lemma {:induction false} RoomIffCoreFits(c: Config, q: Queue, k: Bytes)
    requires Sound(q)
    ensures Fits(c, MakeRoom(c, q, k)) <==> Fits(c, Core(q, k))
    decreases Count(q)
  {
    if Fits(c, q) {
      CoreShrinks(q, k);
    } else if HasVictim(q, k) {
      DropOneFacts(q, k);
      RoomIffCoreFits(c, DropOne(q, k), k);
    }
  }

  lemma {:induction false} CoreOfDelayed(q: Queue, k: Bytes)
    requires q.ready == [] || q.ready[0].key == k
    requires !KeyIn(q.delayed, k)
    ensures Core(q, k) == Queue(q.ready, [])
    decreases |q.delayed|
  {
    if q.delayed != [] {
      assert q.delayed[0].key != k by {
        assert At(q.delayed, 0, k) || q.delayed[0].key != k;
      }
      PopKeeps(q.delayed, NextAt);
      var p := Pop(q.delayed, NextAt);
      forall i | 0 <= i < |p|
        ensures p[i].key != k
      {
        assert p[i] in multiset(p) && p[i] in multiset(q.delayed);
        var j :| 0 <= j < |q.delayed| && q.delayed[j] == p[i];
        assert At(q.delayed, j, k) || p[i].key != k;
      }
      CoreOfDelayed(DropOne(q, k), k);
    }
  }

  /** The core of a queue whose protected hint is ready: that hint and the ready
      hints behind it. A caller can compute it without simulating the drops. */
  lemma {:induction false} CoreOfReady(q: Queue, k: Bytes, i: nat)
    requires At(q.ready, i, k) && (forall j :: 0 <= j < i ==> q.ready[j].key != k)
    requires !KeyIn(q.delayed, k)
    ensures Core(q, k) == Queue(q.ready[i..], [])
    decreases i
  {
    if i == 0 {
      CoreOfDelayed(q, k);
    } else {
      CoreOfReady(DropOne(q, k), k, i - 1);
      assert q.ready[1..][i - 1..] == q.ready[i..];
    }
  }

  /** The hints due no earlier than `t`. */
  function Late(s: seq<Hint>, t: int): (r: seq<Hint>) {
    if s == [] then []
    else Late(s[..|s| - 1], t) + if s[|s| - 1].nextAt >= t then [s[|s| - 1]] else []
  }

  lemma {:induction false} LateCounts(s: seq<Hint>, t: int, h: Hint)
    ensures multiset(Late(s, t))[h] == if h.nextAt >= t then multiset(s)[h] else 0
  {
    if s != [] {
      LateCounts(s[..|s| - 1], t, h);
      assert s == s[..|s| - 1] + [s[|s| - 1]];
    }
  }

  lemma RootFirst(s: seq<Hint>, h: Hint)
    requires Ordered(s, |s|, NextAt) && h in s
    ensures s != [] && s[0].nextAt <= h.nextAt
  {
    hide Ordered;
    var i :| 0 <= i < |s| && s[i] == h;
    RootIsMinimal(s, |s|, NextAt, i);
  }

  /** `p` is in the heap, alone with its key. */
  ghost predicate Alone(s: seq<Hint>, p: Hint) { p in s && forall h :: h in s && h != p ==> h.key != p.key }

  /** A protected hint in the heap shields itself and all hints due later, and none due
      earlier; the heap's layout decides about hints due at the same time. */
  lemma {:induction false} CoreInHeap(s: seq<Hint>, p: Hint, h: Hint)
    requires Ordered(s, |s|, NextAt) && Alone(s, p)
    ensures var r := Core(Queue([], s), p.key);
      && r.ready == [] && multiset(r.delayed)[h] <= multiset(s)[h]
      && (h == p || h.nextAt > p.nextAt ==> multiset(r.delayed)[h] == multiset(s)[h])
      && (h.nextAt < p.nextAt ==> h !in r.delayed)
    decreases |s|
  {
    hide Ordered, Pop;
    RootFirst(s, p);
    if s[0] == p {
      if h in s {
        RootFirst(s, h);
      }
    } else {
      var q := Queue([], s);
      PopMembers(s, p);
      PopKeeps(s, NextAt);
      PopAlone(s, p);
      CoreInHeap(Pop(s, NextAt), p, h);
      assert DropOne(q, p.key) == Queue([], Pop(s, NextAt));
    }
  }

  lemma PopAlone(s: seq<Hint>, p: Hint)
    requires Ordered(s, |s|, NextAt) && Alone(s, p) && s[0] != p
    ensures Alone(Pop(s, NextAt), p)
  {
    hide Ordered, Pop;
    PopMembers(s, p);
    forall h | h in Pop(s, NextAt)
      ensures h in s
    {
      PopMembers(s, h);
    }
  }

  /** The core of a queue whose protected hint waits in the heap, when no other hint is
      due at the same time: the hints due no earlier than it, and nothing ready. */
  lemma {:induction false} CoreOfWaiting(q: Queue, p: Hint)
    requires !KeyIn(q.ready, p.key) && Ordered(q.delayed, |q.delayed|, NextAt) && Alone(q.delayed, p)
    requires forall h :: h in q.delayed && h != p ==> h.nextAt != p.nextAt
    ensures var r, late := Core(q, p.key), Late(q.delayed, p.nextAt);
      r.ready == [] && Count(r) == |late| && Size(r) == Sum(late)
    decreases |q.ready|
  {
    hide Ordered, Sum;
    if q.ready == [] {
      var r, late := Core(q, p.key), Late(q.delayed, p.nextAt);
      forall h
        ensures multiset(r.delayed)[h] == multiset(late)[h]
      {
        CoreInHeap(q.delayed, p, h);
        LateCounts(q.delayed, p.nextAt, h);
      }
      CoreInHeap(q.delayed, p, p);
      assert multiset(r.delayed) == multiset(late);
      SumOfBag(r.delayed, late);
      assert |multiset(r.delayed)| == |r.delayed| && |multiset(late)| == |late|;
      SumOfNone();
    } else {
      NotAtFront(q.ready, p.key);
      CoreOfWaiting(DropOne(q, p.key), p);
    }
  }

  lemma SumOfNone()
    ensures Sum([]) == 0
  {
  }

  lemma NotAtFront(s: seq<Hint>, k: Bytes)
    requires s != [] && !KeyIn(s, k)
    ensures s[0].key != k && !KeyIn(s[1..], k)
  {
    assert !At(s, 0, k);
    forall i | 0 <= i < |s[1..]|
      ensures !At(s[1..], i, k)
    {
      assert !At(s, i + 1, k);
    }
  }

  // ---------------------------------------------------------------- enqueue

  /** The hint that sits in the queue if the enqueue is accepted. */
  ghost function Queued(q: Queue, it: Hint): (h: Hint) {
    if Holds(q, it.key) then Inherit(q, it) else it
  }

  /** Every enqueue keeps the queue well formed, caps included, and reports the
      exact item change. */
  lemma EnqueueKeepsWellFormed(c: Config, q: Queue, it: Hint, now: int)
    requires WellFormed(c, q) && it.size > 0
    ensures var r := Enqueue(c, q, it, now);
      WellFormed(c, r.queue) && r.itemsDelta == Count(r.queue) - Count(q)
  {
    if !Expired(it, c.ttl, now) {
      if !Holds(q, it.key) {
        InsertFacts(c, q, it, now);
      } else {
        CoalesceCounts(c, q, it);
      }
    }
  }

  /** An accepted hint is the one queued for its key afterwards; a rejected hint
      leaves the hint queued for its key alone; other keys gain nothing. */
  lemma EnqueueContents(c: Config, q: Queue, it: Hint, now: int)
    requires WellFormed(c, q) && it.size > 0
    ensures var r := Enqueue(c, q, it, now);
      && (r.accepted ==> Holds(r.queue, it.key) && HintFor(r.queue, it.key) == Queued(q, it))
      && (!r.accepted ==> (Holds(r.queue, it.key) <==> Holds(q, it.key)))
      && (!r.accepted && Holds(q, it.key) ==> HintFor(r.queue, it.key) == HintFor(q, it.key))
      && (forall h :: h in Bag(r.queue) && h.key != it.key ==> h in Bag(q))
  {
    hide Insert, Coalesce, WellFormed, KeyIn, HintFor, Inherit;
    if !Expired(it, c.ttl, now) {
      if !Holds(q, it.key) {
        InsertContents(c, q, it, now);
      } else {
        CoalesceContents(c, q, it);
      }
    }
  }

  lemma InsertContents(c: Config, q: Queue, it: Hint, now: int)
    requires WellFormed(c, q) && !Holds(q, it.key) && it.size > 0
    ensures var r := Insert(c, q, it, now);
      && (r.accepted <==> Holds(r.queue, it.key))
      && (r.accepted ==> HintFor(r.queue, it.key) == it)
      && (forall h :: h in Bag(r.queue) && h.key != it.key ==> h in Bag(q))
  {
    hide Insert;
    var r := Insert(c, q, it, now);
    InsertFacts(c, q, it, now);
    if r.accepted {
      HeldIsIn(r.queue, it);
    } else if Holds(r.queue, it.key) {
      var h := HintFor(r.queue, it.key);
      assert h in Bag(q) + multiset{it} && h != it;
      HeldIsIn(q, h);
    }
  }

  /** The guard under which the reported byte change has the wrong sign: a newer
      version of a queued key arrives under DropOldest, the part of the queue that
      may not be dropped is over the caps, and something else can be dropped first. */
  ghost predicate MisreportsBytes(c: Config, q: Queue, it: Hint, now: int) {
    && !Expired(it, c.ttl, now)
    && Holds(q, it.key)
    && it.ver > HintFor(q, it.key).ver
    && c.drop == DropOldest
    && var q1 := Replace(q, Inherit(q, it));
       !Fits(c, Core(q1, it.key)) && HasVictim(q1, it.key)
  }

  lemma MakeRoomDrops(c: Config, q: Queue, k: Bytes)
    requires Sound(q) && !Fits(c, q)
    ensures Size(MakeRoom(c, q, k)) == Size(q) <==> !HasVictim(q, k)
  {
    if HasVictim(q, k) {
      DropOneFacts(q, k);
      MakeRoomFacts(c, DropOne(q, k), k);
    }
  }

  /** The reported byte change is the net change exactly off that guard. */
  lemma BytesDeltaExactIff(c: Config, q: Queue, it: Hint, now: int)
    requires WellFormed(c, q) && it.size > 0
    ensures var r := Enqueue(c, q, it, now);
      r.bytesDelta == Size(r.queue) - Size(q) <==> !MisreportsBytes(c, q, it, now)
  {
    hide Core, Bag, KeyIn, HintFor, Inherit, Ordered, Clean, Sum;
    if !Expired(it, c.ttl, now) {
      if !Holds(q, it.key) {
        InsertFacts(c, q, it, now);
      } else if it.ver > HintFor(q, it.key).ver {
        var q1 := Replace(q, Inherit(q, it));
        CoalesceCounts(c, q, it);
        ReplacedFacts(q, it);
        RoomIffCoreFits(c, q1, it.key);
        if !Fits(c, q1) {
          MakeRoomDrops(c, q1, it.key);
          RevertedFacts(c, q, it);
        }
      }
    }
  }

  function Sample(key: Bytes, ver: nat, size: int): (h: Hint) {
    Hint(key, [], 0, ver, false, false, 0, size, 0, 0)
  }

  const sampleCaps := Config(0, 100, 0, DropOldest)
  const sampleQueue := Queue([Sample([1], 1, 60), Sample([2], 1, 30)], [])

  lemma SampleWellFormed()
    ensures WellFormed(sampleCaps, sampleQueue)
  {
    var a, b := sampleQueue.ready[0], sampleQueue.ready[1];
    assert sampleQueue.ready[1..] == [b];
    assert Bag(sampleQueue) == multiset{a, b} && a.key[0] != b.key[0];
  }

  /** A concrete misreport: 60 of 90 bytes are dropped, the replacement is undone, and
      the caller is told that the queue grew by 60. */
  lemma MisreportExample()
    ensures var d := Sample([2], 2, 120);
      var r := Enqueue(sampleCaps, sampleQueue, d, 0);
      && WellFormed(sampleCaps, sampleQueue) && MisreportsBytes(sampleCaps, sampleQueue, d, 0)
      && !r.accepted && r.queue == Queue([sampleQueue.ready[1]], [])
      && Size(sampleQueue) == 90 && Size(r.queue) == 30 && r.bytesDelta == 60
  {
    hide WellFormed;
    SampleWellFormed();
    var q, d := sampleQueue, Sample([2], 2, 120);
    assert q.ready[0].key[0] != d.key[0] && At(q.ready, 1, d.key);
    assert Inherit(q, d) == d && HintFor(q, d.key) == q.ready[1];
    var q1 := Replace(q, d);
    assert q1.ready == [q.ready[0], d] && q1.delayed == [];
    CoreOfReady(q1, d.key, 1);
    assert q1.ready[1..] == [d];
    SampleRoom(q1, d);
    SampleSizes(q, q1, d);
    assert Replace(Queue([d], []), q.ready[1]) == Queue([q.ready[1]], []);
  }

  lemma SampleSizes(q: Queue, q1: Queue, d: Hint)
    requires q == sampleQueue && d == Sample([2], 2, 120) && q1 == Queue([q.ready[0], d], [])
    ensures Size(q) == 90 && Size(q1) == 180 && Size(Queue([d], [])) == 120 && Size(Queue([q.ready[1]], [])) == 30
  {
    SumOfTwo(q.ready[0], q.ready[1]);
    SumOfTwo(q.ready[0], d);
    assert q.ready == [q.ready[0], q.ready[1]];
  }

  lemma SumOfTwo(a: Hint, b: Hint)
    ensures Sum([a, b]) == a.size + b.size && Sum([b]) == b.size
  {
    SumOfConcat([a], [b]);
    assert [a] + [b] == [a, b];
  }

  lemma SampleRoom(q1: Queue, d: Hint)
    requires d == Sample([2], 2, 120) && q1 == Queue([Sample([1], 1, 60), d], [])
    ensures MakeRoom(sampleCaps, q1, d.key) == Queue([d], []) && !Fits(sampleCaps, q1) && !Fits(sampleCaps, Queue([d], []))
  {
    SampleSizes(sampleQueue, q1, d);
    assert q1.ready[0].key[0] != d.key[0] && q1.ready[1..] == [d];
    assert DropOne(q1, d.key) == Queue([d], []) && !HasVictim(Queue([d], []), d.key);
  }

  /** Room is made from the front of the FIFO, and a delayed hint goes only once no
      ready hint may be dropped. */
  lemma {:induction false} MakeRoomDropsReadyFirst(c: Config, q: Queue, k: Bytes)
    ensures var r := MakeRoom(c, q, k);
      && |r.ready| <= |q.ready| && r.ready == q.ready[|q.ready| - |r.ready|..]
      && (r.delayed != q.delayed ==> !CanDrop(r.ready, k))
      && (!CanDrop(q.ready, k) ==> r.ready == q.ready)
    decreases Count(q)
  {
    if !Fits(c, q) && HasVictim(q, k) {
      MakeRoomDropsReadyFirst(c, DropOne(q, k), k);
    }
  }

  lemma PopMembers(s: seq<Hint>, h: Hint)
    requires s != [] && Ordered(s, |s|, NextAt)
    ensures Ordered(Pop(s, NextAt), |s| - 1, NextAt) && |Pop(s, NextAt)| == |s| - 1
    ensures h in Pop(s, NextAt) ==> h in s && s[0].nextAt <= h.nextAt
    ensures h in s && h != s[0] ==> h in Pop(s, NextAt)
  {
    hide Pop, Ordered;
    PopKeeps(s, NextAt);
    PopOrders(s, NextAt);
    assert h in Pop(s, NextAt) ==> h in multiset(Pop(s, NextAt));
    assert h in s ==> h in multiset(s);
    if h in s {
      var i :| 0 <= i < |s| && s[i] == h;
      RootIsMinimal(s, |s|, NextAt, i);
    }
  }

  /** A delayed hint that is dropped was due no later than any delayed hint kept. */
  lemma {:induction false} MakeRoomDropsEarliest(c: Config, q: Queue, k: Bytes, gone: Hint, kept: Hint)
    requires Ordered(q.delayed, |q.delayed|, NextAt)
    requires gone in q.delayed && gone !in MakeRoom(c, q, k).delayed && kept in MakeRoom(c, q, k).delayed
    ensures gone.nextAt <= kept.nextAt && kept in q.delayed
    decreases Count(q)
  {
    hide Pop, Ordered;
    if !Fits(c, q) && HasVictim(q, k) {
      var q1 := DropOne(q, k);
      if CanDrop(q.ready, k) {
        MakeRoomDropsEarliest(c, q1, k, gone, kept);
      } else {
        RoomKeepsDelayed(c, q1, k, kept);
        PopMembers(q.delayed, kept);
        PopMembers(q.delayed, gone);
        if gone != q.delayed[0] {
          MakeRoomDropsEarliest(c, q1, k, gone, kept);
        }
      }
    }
  }

  lemma {:induction false} RoomKeepsDelayed(c: Config, q: Queue, k: Bytes, h: Hint)
    requires h in MakeRoom(c, q, k).delayed
    ensures h in q.delayed
    decreases Count(q)
  {
    if !Fits(c, q) && HasVictim(q, k) {
      RoomKeepsDelayed(c, DropOne(q, k), k, h);
      if !CanDrop(q.ready, k) {
        PopKeeps(q.delayed, NextAt);
        assert h in multiset(q.delayed);
      }
    }
  }

  // ---------------------------------------------------------------- popReady

  lemma DueStep(q: Queue)
    requires Sound(q) && q.delayed != []
    ensures var r := Queue(q.ready + [q.delayed[0]], Pop(q.delayed, NextAt));
      Sound(r) && Bag(r) == Bag(q) && Size(r) == Size(q)
  {
    hide Pop, Sum, Ordered, Clean;
    var r := Queue(q.ready + [q.delayed[0]], Pop(q.delayed, NextAt));
    PopKeeps(q.delayed, NextAt);
    PopOrders(q.delayed, NextAt);
    SumWith(q.delayed, r.delayed, q.delayed[0]);
    SumWith(r.ready, q.ready, q.delayed[0]);
    assert Bag(r) == Bag(q);
  }

  lemma {:induction false} MoveDueFacts(q: Queue, now: int)
    requires Sound(q)
    ensures var r := MoveDue(q, now); Sound(r) && Bag(r) == Bag(q) && Size(r) == Size(q)
    decreases |q.delayed|
  {
    if q.delayed != [] && q.delayed[0].nextAt <= now {
      DueStep(q);
      MoveDueFacts(Queue(q.ready + [q.delayed[0]], Pop(q.delayed, NextAt)), now);
    }
  }

  /** Exactly the due hints join the back of the FIFO. */
  lemma {:induction false} MoveDueShape(q: Queue, now: int)
    requires Ordered(q.delayed, |q.delayed|, NextAt)
    ensures var r := MoveDue(q, now);
      && |q.ready| <= |r.ready| && r.ready[..|q.ready|] == q.ready
      && (forall i :: |q.ready| <= i < |r.ready| ==> r.ready[i].nextAt <= now)
      && (forall h :: h in r.delayed ==> h.nextAt > now)
    decreases |q.delayed|
  {
    hide Pop;
    if q.delayed == [] {
    } else if q.delayed[0].nextAt > now {
      forall h | h in q.delayed
        ensures h.nextAt > now
      {
        var i :| 0 <= i < |q.delayed| && q.delayed[i] == h;
        RootIsMinimal(q.delayed, |q.delayed|, NextAt, i);
      }
    } else {
      var q1 := Queue(q.ready + [q.delayed[0]], Pop(q.delayed, NextAt));
      PopOrders(q.delayed, NextAt);
      MoveDueShape(q1, now);
      var r := MoveDue(q1, now);
      assert r.ready[|q.ready|] == r.ready[..|q1.ready|][|q.ready|];
      assert r.ready[..|q.ready|] == r.ready[..|q1.ready|][..|q.ready|];
    }
  }

  /** The hint returned is the first of the FIFO that has not expired; exactly it
      and the expired hints before it are gone. */
  lemma {:induction false} TakeLiveShape(c: Config, q: Queue, now: int)
    ensures var r := TakeLive(c, q, now);
      && r.queue.delayed == q.delayed && |r.queue.ready| <= |q.ready|
      && var n := |q.ready| - |r.queue.ready|;
      && r.queue.ready == q.ready[n..]
      && (r.hint.None? ==> n == |q.ready|)
      && (r.hint.Some? ==> n > 0 && r.hint.value == q.ready[n - 1] && !Expired(q.ready[n - 1], c.ttl, now))
      && forall i :: 0 <= i < (if r.hint.None? then n else n - 1) ==> Expired(q.ready[i], c.ttl, now)
    decreases |q.ready|
  {
    if q.ready != [] && Expired(q.ready[0], c.ttl, now) {
      TakeLiveShape(c, q.(ready := q.ready[1..]), now);
    }
  }

  lemma {:induction false} SumOfPositive(s: seq<Hint>)
    requires forall h :: h in s ==> h.size > 0
    ensures Sum(s) >= 0
  {
    if s != [] { SumOfPositive(s[1..]); }
  }

  lemma SuffixSound(q: Queue, n: nat)
    requires Sound(q) && n <= |q.ready|
    ensures var r := q.(ready := q.ready[n..]);
      && Bag(q) == multiset(q.ready[..n]) + Bag(r)
      && Sound(r) && Size(r) <= Size(q)
  {
    var r := q.(ready := q.ready[n..]);
    assert q.ready == q.ready[..n] + q.ready[n..];
    SumOfConcat(q.ready[..n], q.ready[n..]);
    assert Bag(q) == multiset(q.ready[..n]) + Bag(r);
    forall h | h in q.ready[..n]
      ensures h.size > 0
    {
      assert h in Bag(q);
    }
    SumOfPositive(q.ready[..n]);
    SubBagClean(Bag(r), Bag(q));
  }

  lemma NotLeft(gone: multiset<Hint>, left: multiset<Hint>, h: Hint)
    requires Unique(gone + left) && h in gone
    ensures h !in left
  {
    assert (gone + left)[h] == gone[h] + left[h];
  }

  lemma PopReadyKeepsWellFormed(c: Config, q: Queue, now: int)
    requires WellFormed(c, q)
    ensures var r := PopReady(c, q, now); WellFormed(c, r.queue) && Bag(r.queue) <= Bag(q)
  {
    hide TakeLive, MoveDue, Sum, Ordered, Clean, Expired;
    var m := MoveDue(q, now);
    MoveDueFacts(q, now);
    TakeLiveShape(c, m, now);
    SuffixSound(m, |m.ready| - |PopReady(c, q, now).queue.ready|);
  }

  /** popReady never returns an expired hint, takes the hint out of the queue, promotes
      no hint before its backoff is over, and leaves no due hint waiting. */
  lemma PopReadyReturns(c: Config, q: Queue, now: int)
    requires WellFormed(c, q)
    ensures var r := PopReady(c, q, now);
      && (forall h :: h in r.queue.delayed ==> h.nextAt > now)
      && (r.hint.None? ==> r.queue.ready == [])
      && (r.hint.Some? ==> var h := r.hint.value;
            && !Expired(h, c.ttl, now) && (h in q.ready || h.nextAt <= now)
            && h in Bag(q) && h !in Bag(r.queue))
  {
    hide TakeLive, MoveDue, Sum, Ordered, Expired, KeyIn;
    var m := MoveDue(q, now);
    var r := PopReady(c, q, now);
    MoveDueFacts(q, now);
    MoveDueShape(q, now);
    TakeLiveShape(c, m, now);
    var n := |m.ready| - |r.queue.ready|;
    SuffixSound(m, n);
    if r.hint.Some? {
      var h := r.hint.value;
      assert h in m.ready[..n];
      NotLeft(multiset(m.ready[..n]), Bag(r.queue), h);
      assert n - 1 < |q.ready| ==> m.ready[n - 1] == m.ready[..|q.ready|][n - 1];
    }
  }

  /** What popReady loses without returning it had expired. */
  lemma PopReadyLosesOnlyExpired(c: Config, q: Queue, now: int, h: Hint)
    requires WellFormed(c, q)
    requires h in Bag(q) && h !in Bag(PopReady(c, q, now).queue) && PopReady(c, q, now).hint != Some(h)
    ensures Expired(h, c.ttl, now)
  {
    hide TakeLive, MoveDue, Sum, Ordered, Expired, Clean;
    var m := MoveDue(q, now);
    var n := |m.ready| - |PopReady(c, q, now).queue.ready|;
    MoveDueFacts(q, now);
    TakeLiveShape(c, m, now);
    SuffixSound(m, n);
    assert h in multiset(m.ready[..n]);
    var i :| 0 <= i < n && m.ready[..n][i] == h;
  }

  // ---------------------------------------------------------------- runs

  /** One call on the queue. A retry is an offer of a hint popped earlier. */
  datatype Op = Offer(it: Hint, at: int) | Take(at: int)

  ghost function Step(c: Config, q: Queue, op: Op): (r: Queue) {
    match op
    case Offer(it, at) => Enqueue(c, q, it, at).queue
    case Take(at) => PopReady(c, q, at).queue
  }

  ghost function Run(c: Config, q: Queue, ops: seq<Op>): (r: Queue)
    decreases |ops|
  {
    if ops == [] then q else Run(c, Step(c, q, ops[0]), ops[1..])
  }

  ghost predicate Offers(ops: seq<Op>) {
    forall op :: op in ops && op.Offer? ==> op.it.size > 0
  }

  lemma StepKeepsWellFormed(c: Config, q: Queue, op: Op)
    requires WellFormed(c, q) && Offers([op])
    ensures WellFormed(c, Step(c, q, op))
  {
    assert op in [op];
    match op
    case Offer(it, at) => EnqueueKeepsWellFormed(c, q, it, at);
    case Take(at) => PopReadyKeepsWellFormed(c, q, at);
  }

  /** Every run from an empty queue, with any clock readings, keeps one hint per
      key, heap order and both caps. */
  lemma {:induction false} RunKeepsWellFormed(c: Config, q: Queue, ops: seq<Op>)
    requires WellFormed(c, q) && Offers(ops)
    ensures WellFormed(c, Run(c, q, ops))
    decreases |ops|
  {
    if ops != [] {
      assert ops[0] in ops;
      StepKeepsWellFormed(c, q, ops[0]);
      assert forall op :: op in ops[1..] ==> op in ops;
      RunKeepsWellFormed(c, Step(c, q, ops[0]), ops[1..]);
    }
  }

  lemma StepVersions(c: Config, q: Queue, op: Op, k: Bytes)
    requires WellFormed(c, q) && Offers([op])
    requires Holds(q, k) && Holds(Step(c, q, op), k)
    ensures HintFor(q, k).ver <= HintFor(Step(c, q, op), k).ver
  {
    hide KeyIn, Enqueue, PopReady;
    assert op in [op];
    var after := HintFor(Step(c, q, op), k);
    match op
    case Offer(it, at) =>
      EnqueueContents(c, q, it, at);
      if k != it.key {
        HeldIsIn(q, after);
      } else {
        AcceptedIsNewer(c, q, it, at);
      }
    case Take(at) =>
      PopReadyKeepsWellFormed(c, q, at);
      assert after in Bag(q);
      HeldIsIn(q, after);
  }

  lemma AcceptedIsNewer(c: Config, q: Queue, it: Hint, now: int)
    requires WellFormed(c, q) && it.size > 0 && Holds(q, it.key)
    ensures Enqueue(c, q, it, now).accepted ==> it.ver > HintFor(q, it.key).ver
    ensures Queued(q, it).ver == it.ver
  {
  }

  ghost predicate StaysQueued(c: Config, q: Queue, ops: seq<Op>, k: Bytes)
    decreases |ops|
  {
    Holds(q, k) && (ops != [] ==> StaysQueued(c, Step(c, q, ops[0]), ops[1..], k))
  }

  /** While a key stays queued, over any run of offers, retries and pops, the
      version of its hint never falls. */
  lemma {:induction false} VersionNeverFalls(c: Config, q: Queue, ops: seq<Op>, k: Bytes)
    requires WellFormed(c, q) && Offers(ops) && StaysQueued(c, q, ops, k)
    ensures Holds(Run(c, q, ops), k) && HintFor(q, k).ver <= HintFor(Run(c, q, ops), k).ver
    decreases |ops|
  {
    hide Step, HintFor, Holds, WellFormed;
    if ops != [] {
      assert ops[0] in ops;
      assert forall op :: op in ops[1..] ==> op in ops;
      StepKeepsWellFormed(c, q, ops[0]);
      StepVersions(c, q, ops[0], k);
      VersionNeverFalls(c, Step(c, q, ops[0]), ops[1..], k);
    }
  }

  // ---------------------------------------------------------------- a peer's traffic

  /** What a client does: submits a hint, takes one to send, or retries one it took. */
  datatype Act = Submit(it: Hint, at: int) | Send(at: int) | Retry(n: nat, retryAt: int, at: int)

  /** A queue and the hints taken from it that are being sent. */
  datatype Peer = Peer(queue: Queue, sending: seq<Hint>)

  function Retried(h: Hint, retryAt: int): (r: Hint) { h.(nextAt := retryAt, tries := h.tries + 1) }

  ghost function Perform(c: Config, p: Peer, a: Act): (r: Peer) {
    match a
    case Submit(it, at) => p.(queue := Enqueue(c, p.queue, it, at).queue)
    case Send(at) =>
      var out := PopReady(c, p.queue, at);
      Peer(out.queue, if out.hint.Some? then p.sending + [out.hint.value] else p.sending)
    case Retry(n, retryAt, at) =>
      if n >= |p.sending| then p
      else Peer(Enqueue(c, p.queue, Retried(p.sending[n], retryAt), at).queue, Cut(p.sending, n))
  }

  /** The calls on the queue that an act amounts to. */
  function Calls(p: Peer, a: Act): (ops: seq<Op>) {
    match a
    case Submit(it, at) => [Offer(it, at)]
    case Send(at) => [Take(at)]
    case Retry(n, retryAt, at) => if n < |p.sending| then [Offer(Retried(p.sending[n], retryAt), at)] else []
  }

  ghost function OpsOf(c: Config, p: Peer, acts: seq<Act>): (ops: seq<Op>)
    decreases |acts|
  {
    if acts == [] then [] else Calls(p, acts[0]) + OpsOf(c, Perform(c, p, acts[0]), acts[1..])
  }

  /** An act moves the queue on by its calls, and leaves the rest of the run to do. */
  lemma RunsOn(c: Config, p: Peer, acts: seq<Act>)
    requires acts != []
    ensures Run(c, p.queue, OpsOf(c, p, acts))
         == Run(c, Perform(c, p, acts[0]).queue, OpsOf(c, Perform(c, p, acts[0]), acts[1..]))
  {
    hide Enqueue, PopReady;
    var calls, rest := Calls(p, acts[0]), OpsOf(c, Perform(c, p, acts[0]), acts[1..]);
    if calls == [] {
      assert calls + rest == rest;
    } else {
      assert (calls + rest)[1..] == rest;
    }
  }

  /** The queue is well formed and what is being sent has a size. */
  ghost predicate Sized(c: Config, p: Peer) {
    WellFormed(c, p.queue) && forall i :: 0 <= i < |p.sending| ==> p.sending[i].size > 0
  }

  lemma EmptyWellFormed(c: Config)
    ensures WellFormed(c, Queue([], []))
  {
  }

  lemma PerformSized(c: Config, p: Peer, a: Act)
    requires Sized(c, p) && (a.Submit? ==> a.it.size > 0)
    ensures Sized(c, Perform(c, p, a))
  {
    hide WellFormed, Enqueue, PopReady;
    match a
    case Submit(it, at) => EnqueueKeepsWellFormed(c, p.queue, it, at);
    case Send(at) =>
      PopReadyKeepsWellFormed(c, p.queue, at);
      PoppedSize(c, p.queue, at);
    case Retry(n, retryAt, at) =>
      if n < |p.sending| {
        EnqueueKeepsWellFormed(c, p.queue, Retried(p.sending[n], retryAt), at);
      }
  }

  lemma PoppedSize(c: Config, q: Queue, now: int)
    requires WellFormed(c, q)
    ensures PopReady(c, q, now).hint.Some? ==> PopReady(c, q, now).hint.value.size > 0
  {
    hide PopReady;
    PopReadyReturns(c, q, now);
  }

  /** So the calls of any traffic are a run of offers with sizes, of which all theorems
      about runs hold. */
  lemma {:induction false} TrafficOffers(c: Config, p: Peer, acts: seq<Act>)
    requires Sized(c, p) && forall a :: a in acts && a.Submit? ==> a.it.size > 0
    ensures Offers(OpsOf(c, p, acts))
    decreases |acts|
  {
    hide Perform, WellFormed;
    if acts != [] {
      assert acts[0] in acts;
      PerformSized(c, p, acts[0]);
      assert forall a :: a in acts[1..] ==> a in acts;
      TrafficOffers(c, Perform(c, p, acts[0]), acts[1..]);
    }
  }
}
