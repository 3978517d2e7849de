/** When the backoff of a retried hint is respected. A hint in the FIFO may be sent at
    once whatever its next attempt time, and a retried hint that replaces an older one
    there keeps its place in the FIFO. */
module HandoffBackoff {
  import opened BinaryHeap
  import opened HandoffSpec
  import opened Wrappers

  /** The first unexpired ready hint is not due yet. */
  ghost predicate EarlyHead(c: Config, q: Queue, now: int) {
    exists i :: 0 <= i < |q.ready| && q.ready[i].nextAt > now && FirstLive(c, q.ready, i, now)
  }

  ghost predicate FirstLive(c: Config, s: seq<Hint>, i: nat, now: int)
    requires i < |s|
  {
    !Expired(s[i], c.ttl, now) && forall j :: 0 <= j < i ==> Expired(s[j], c.ttl, now)
  }

  /** A popped hint's backoff is over if and only if the first unexpired hint of the FIFO
      was due, or there was none. */
  lemma PopRespectsBackoffIff(c: Config, q: Queue, now: int)
    requires WellFormed(c, q) && PopReady(c, q, now).hint.Some?
    ensures PopReady(c, q, now).hint.value.nextAt <= now <==> !EarlyHead(c, q, now)
  {
    hide TakeLive, MoveDue, Sum, Ordered, Expired, KeyIn;
    var m, r := MoveDue(q, now), PopReady(c, q, now);
    MoveDueShape(q, now);
    TakeLiveShape(c, m, now);
    var n := |m.ready| - |r.queue.ready| - 1;
    assert forall j :: 0 <= j < |q.ready| ==> m.ready[j] == m.ready[..|q.ready|][j];
    assert FirstLive(c, m.ready, n, now);
    if n < |q.ready| {
      assert FirstLive(c, q.ready, n, now);
    }
    if EarlyHead(c, q, now) {
      var i :| 0 <= i < |q.ready| && q.ready[i].nextAt > now && FirstLive(c, q.ready, i, now);
      assert i == n;
    }
  }

  /** Every ready hint is due. */
  ghost predicate ReadyDue(q: Queue, now: int) { forall h :: h in q.ready ==> h.nextAt <= now }

  /** An accepted offer takes the place of a ready hint before it is due itself. */
  ghost predicate JumpsBackoff(c: Config, q: Queue, it: Hint, now: int) {
    && it.nextAt > now && KeyIn(q.ready, it.key) && !Expired(it, c.ttl, now) && it.ver > HintFor(q, it.key).ver
    && (Fits(c, Replace(q, it)) || (c.drop == DropOldest && Fits(c, Core(Replace(q, it), it.key))))
  }

  lemma RoomReady(c: Config, q: Queue, k: Bytes, h: Hint)
    ensures h in MakeRoom(c, q, k).ready ==> h in q.ready
  {
    MakeRoomDropsReadyFirst(c, q, k);
  }

  lemma ReplacedIn(s: seq<Hint>, r: Hint, h: Hint)
    ensures h in ReplaceIn(s, r) ==> (h == r && KeyIn(s, r.key)) || (h in s && h.key != r.key)
  {
    if h in ReplaceIn(s, r) {
      var i :| 0 <= i < |s| && ReplaceIn(s, r)[i] == h;
      if s[i].key == r.key {
        assert At(s, i, r.key);
      }
    }
  }

  /** A new key joins the FIFO only when it is due. */
  lemma InsertReady(c: Config, q: Queue, it: Hint, now: int, h: Hint)
    requires !Holds(q, it.key) && h in Insert(c, q, it, now).queue.ready
    ensures h in q.ready || (h == it && it.nextAt <= now)
  {
    hide MakeRoom, KeyIn, Push, Delete;
    var q1 := Place(q, it, now);
    PlaceHolds(q, it, now);
    MakeRoomHolds(c, q1, it.key);
    RoomReady(c, q1, it.key, h);
  }

  /** A replacement is the only ready hint that a coalesce adds, and only if the replaced
      hint was ready. */
  lemma CoalesceReady(c: Config, q: Queue, it: Hint, h: Hint)
    requires Holds(q, it.key) && h in Coalesce(c, q, it).queue.ready
    ensures h in q.ready || (h == it && Coalesce(c, q, it).accepted && KeyIn(q.ready, it.key))
  {
    hide MakeRoom, ReplaceIn, Sum;
    var prior, r := HintFor(q, it.key), Inherit(q, it);
    var q1 := Replace(q, r);
    var q2 := MakeRoom(c, q1, it.key);
    ReplacedIn(q.ready, r, h);
    RoomReady(c, q1, it.key, h);
    if h in Replace(q2, prior).ready {
      ReplacedIn(q2.ready, prior, h);
      if h == prior && KeyIn(q2.ready, prior.key) {
        var x := q2.ready[Position(q2.ready, prior.key)];
        RoomReady(c, q1, it.key, x);
        ReplacedIn(q.ready, r, x);
      }
    }
  }

  lemma AcceptedIff(c: Config, q: Queue, it: Hint, now: int)
    requires WellFormed(c, q) && it.size > 0 && KeyIn(q.ready, it.key) && it.nextAt > now
    ensures Enqueue(c, q, it, now).accepted <==> JumpsBackoff(c, q, it, now)
  {
    hide MakeRoom, Sum, Clean, Ordered, KeyIn, HintFor, ReplaceIn, Core;
    ReplacedFacts(q, it);
    RoomIffCoreFits(c, Replace(q, it), it.key);
  }

  /** A replaced ready hint leaves its successor in the FIFO. */
  lemma StaysReady(c: Config, q: Queue, it: Hint, now: int)
    requires WellFormed(c, q) && it.size > 0 && KeyIn(q.ready, it.key) && Enqueue(c, q, it, now).accepted
    ensures it in Enqueue(c, q, it, now).queue.ready
  {
    hide MakeRoom, Sum, Ordered, KeyIn, ReplaceIn, Expired;
    var r := Enqueue(c, q, it, now);
    EnqueueContents(c, q, it, now);
    var h := HintFor(r.queue, it.key);
    assert h == it && (h in r.queue.ready || h in r.queue.delayed);
    if it in r.queue.delayed {
      var q1 := Replace(q, it);
      if !Fits(c, q1) {
        RoomKeepsDelayed(c, q1, it.key, it);
      }
      OneContainer(q, it.key);
      ReplacedIn(q.delayed, it, it);
    }
  }

  /** An offer puts a hint that is not due into the FIFO if and only if it jumps the
      backoff of its own retry. */
  lemma EnqueueKeepsDueIff(c: Config, q: Queue, it: Hint, now: int)
    requires WellFormed(c, q) && it.size > 0 && ReadyDue(q, now)
    ensures ReadyDue(Enqueue(c, q, it, now).queue, now) <==> !JumpsBackoff(c, q, it, now)
  {
    hide WellFormed, Insert, Coalesce, KeyIn, HintFor, JumpsBackoff, Expired;
    var r := Enqueue(c, q, it, now);
    if KeyIn(q.ready, it.key) && it.nextAt > now {
      AcceptedIff(c, q, it, now);
      if r.accepted {
        StaysReady(c, q, it, now);
      }
    } else {
      NoJump(c, q, it, now);
    }
    forall h | h in r.queue.ready && !JumpsBackoff(c, q, it, now)
      ensures h.nextAt <= now
    {
      if h !in q.ready {
        if Holds(q, it.key) {
          CoalesceReady(c, q, it, h);
        } else {
          InsertReady(c, q, it, now, h);
        }
      }
    }
  }

  lemma NoJump(c: Config, q: Queue, it: Hint, now: int)
    requires !KeyIn(q.ready, it.key) || it.nextAt <= now
    ensures !JumpsBackoff(c, q, it, now)
  {
  }

  // ---------------------------------------------------------------- runs

  /** Clock readings do not go back, from `t` on. */
  ghost predicate Timely(t: int, ops: seq<Op>)
    decreases |ops|
  {
    ops != [] ==> t <= ops[0].at && Timely(ops[0].at, ops[1..])
  }

  /** No offer of the run jumps a backoff. */
  ghost predicate Patient(c: Config, q: Queue, ops: seq<Op>)
    decreases |ops|
  {
    ops != [] ==>
      && (ops[0].Offer? ==> !JumpsBackoff(c, q, ops[0].it, ops[0].at))
      && Patient(c, Step(c, q, ops[0]), ops[1..])
  }

  /** Every hint that the run takes is due. */
  ghost predicate AllDue(c: Config, q: Queue, ops: seq<Op>)
    decreases |ops|
  {
    ops != [] ==>
      && (ops[0].Take? ==>
            var h := PopReady(c, q, ops[0].at).hint; h.Some? ==> h.value.nextAt <= ops[0].at)
      && AllDue(c, Step(c, q, ops[0]), ops[1..])
  }

  lemma PopKeepsDue(c: Config, q: Queue, now: int)
    requires WellFormed(c, q) && ReadyDue(q, now)
    ensures ReadyDue(PopReady(c, q, now).queue, now)
    ensures var h := PopReady(c, q, now).hint; h.Some? ==> h.value.nextAt <= now
  {
    hide TakeLive, MoveDue, Sum, Ordered, Expired, KeyIn;
    var m := MoveDue(q, now);
    MoveDueShape(q, now);
    TakeLiveShape(c, m, now);
    forall i | 0 <= i < |m.ready|
      ensures m.ready[i].nextAt <= now
    {
      if i < |q.ready| {
        assert m.ready[i] == m.ready[..|q.ready|][i] && q.ready[i] in q.ready;
      }
    }
  }

  /** In any run whose clock does not go back and in which no offer jumps a backoff, no
      hint is sent before it is due. */
  lemma {:induction false} RunRespectsBackoff(c: Config, q: Queue, ops: seq<Op>, t: int)
    requires WellFormed(c, q) && Offers(ops) && ReadyDue(q, t) && Timely(t, ops) && Patient(c, q, ops)
    ensures AllDue(c, q, ops)
    decreases |ops|
  {
    hide WellFormed, JumpsBackoff, Enqueue, PopReady;
    if ops != [] {
      var op := ops[0];
      assert op in ops && forall o :: o in ops[1..] ==> o in ops;
      StepKeepsWellFormed(c, q, op);
      if op.Offer? {
        EnqueueKeepsDueIff(c, q, op.it, op.at);
      } else {
        PopKeepsDue(c, q, op.at);
      }
      RunRespectsBackoff(c, Step(c, q, op), ops[1..], op.at);
    }
  }

  /** A concrete jump: a retry scheduled for time 100 replaces an older ready hint at time
      0 and is taken at once. */
  lemma JumpExample()
    ensures var prior, retry := Sample([1], 1, 10), Sample([1], 2, 10).(nextAt := 100);
      var c, q := Config(0, 0, 0, DropOldest), Queue([prior], []);
      && WellFormed(c, q) && JumpsBackoff(c, q, retry, 0)
      && PopReady(c, Enqueue(c, q, retry, 0).queue, 0).hint == Some(retry)
  {
    var prior, retry := Sample([1], 1, 10), Sample([1], 2, 10).(nextAt := 100);
    var c, q := Config(0, 0, 0, DropOldest), Queue([prior], []);
    assert Bag(q) == multiset{prior} && At(q.ready, 0, retry.key);
    assert HintFor(q, retry.key) == prior && Replace(q, retry) == Queue([retry], []);
  }
}
