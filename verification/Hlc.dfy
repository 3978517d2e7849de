/** The hybrid logical clock that versions replicated writes. A version packs 48 bits of
    milliseconds, an 8-bit sequence number and an 8-bit node number. */
module Hlc {
  const MS := 0x1_0000_0000_0000      // 2^48
  const TICKS := 0x100_0000_0000_0000 // 2^56 pairs of (millisecond, sequence)

  newtype int64 = x: int | -0x8000_0000_0000_0000 <= x < 0x8000_0000_0000_0000
  newtype uint64 = x: int | 0 <= x < 0x1_0000_0000_0000_0000

  /** Increment with wrap-around. */
  function Succ(x: int64): (r: int64) {
    if x == 0x7FFF_FFFF_FFFF_FFFF then -0x8000_0000_0000_0000 else x + 1
  }

  // ---------------------------------------------------------------- packing

  function Pack(physMS: int64, count: nat, node: nat): (ts: uint64)
    ensures ts as int == (physMS as int % MS) * 65536 + (count % 256) * 256 + node % 256
  {
    ((physMS as int % MS) * 65536 + (count % 256) * 256 + node % 256) as uint64
  }

  function Unpack(ts: uint64): (r: (int64, nat)) { ((ts as int / 65536) as int64, ts as int % 65536) }

  function SplitLogical(logical: nat): (r: (nat, nat)) { (logical / 256 % 256, logical % 256) }

  lemma UpperField(high: int, low: int)
    requires 0 <= low < 65536
    ensures (high * 65536 + low) / 65536 == high && (high * 65536 + low) % 65536 == low
  {
  }

  lemma LowerFields(middle: int, low: int)
    requires 0 <= middle < 256 && 0 <= low < 256
    ensures (middle * 256 + low) / 256 % 256 == middle && (middle * 256 + low) % 256 == low
  {
    assert (middle * 256 + low) / 256 == middle;
  }

  /** Unpacking gives back what was packed, up to the width of each field. */
  lemma UnpackPack(physMS: int64, count: nat, node: nat)
    ensures var u := Unpack(Pack(physMS, count, node));
            u.0 as int == physMS as int % MS && SplitLogical(u.1) == (count % 256, node % 256)
  {
    var high, middle, low := physMS as int % MS, count % 256, node % 256;
    UpperField(high, middle * 256 + low);
    LowerFields(middle, low);
  }

  /** Versions from nodes whose numbers differ in the low 8 bits never collide. */
  lemma NodesNeverCollide(p: int64, s: nat, n: nat, p': int64, s': nat, n': nat)
    requires n % 256 != n' % 256
    ensures Pack(p, s, n) != Pack(p', s', n')
  {
    UnpackPack(p, s, n);
    UnpackPack(p', s', n');
  }

  // ---------------------------------------------------------------- the clock

  datatype Clock = Clock(physMS: int64, count: nat, node: nat)

  /** The clock's reading as one number, with no bound. */
  function Tick(c: Clock): (t: int) { c.physMS as int * 256 + c.count }

  function RemoteTick(ts: uint64): (t: int) { ts as int / 256 }

  function Version(c: Clock): (ts: uint64) { Pack(c.physMS, c.count, c.node) }

  ghost predicate Valid(c: Clock) { 0 <= c.physMS && c.count < 256 && c.node < 256 }

  function Max(a: int, b: int): (m: int) { if a >= b then a else b }

  /** A local event is the next tick, or the wall clock if that is ahead. */
  function NextTick(t: int, now: int64): (r: int) { Max(t + 1, now as int * 256) }

  /** A remote version counts like a local tick. */
  function ObserveTick(t: int, remote: int, now: int64): (r: int) { NextTick(Max(t, remote), now) }

  function Bump(c: Clock): (r: Clock) {
    if c.count < 255 then c.(count := c.count + 1) else c.(physMS := Succ(c.physMS), count := 0)
  }

  function AfterNext(c: Clock, now: int64): (r: Clock) {
    if now > c.physMS then c.(physMS := now, count := 0) else Bump(c)
  }

  function Larger(a: int64, b: int64): (m: int64) { if b > a then b else a }

  function AfterObserve(c: Clock, remote: uint64, now: int64): (r: Clock) {
    var (rp, rlog) := Unpack(remote);
    var rseq := SplitLogical(rlog).0;
    var phys := Larger(Larger(c.physMS, now), rp);
    if phys == rp && phys == c.physMS then
      Bump(c.(count := if rseq > c.count then rseq else c.count))
    else if phys == rp && phys > c.physMS then
      Bump(Clock(phys, rseq, c.node))
    else if phys == c.physMS && phys > rp then
      Bump(c)
    else
      c.(physMS := phys, count := 0)
  }

  class HybridClock {
    var physMS: int64
    var count: nat
    const nodeID: nat

    function State(): (c: Clock)
      reads this
    {
      Clock(physMS, count, nodeID)
    }

    /** The sequence number fits its 8 bits. */
    ghost predicate Ready()
      reads this
    {
      count < 256
    }

    constructor (nodeID: nat)
      ensures Ready() && Valid(State()) && Tick(State()) == 0 && State().node == nodeID % 256
    {
      this.nodeID := nodeID % 256;
      physMS, count := 0, 0;
    }

    method Next(now: int64) returns (v: uint64)
      requires Ready()
      modifies this
      ensures Ready() && State() == AfterNext(old(State()), now) && v == Version(State())
    {
      if now > physMS {
        physMS := now;
        count := 0;
      } else if count < 255 {
        count := count + 1;
      } else {
        physMS := Succ(physMS);
        count := 0;
      }
      v := Pack(physMS, count, nodeID);
    }

    method Observe(remote: uint64, now: int64)
      requires Ready()
      modifies this
      ensures Ready() && State() == AfterObserve(old(State()), remote, now)
    {
      var (rp, rlog) := Unpack(remote);
      var rseq := SplitLogical(rlog).0;
      var phys := Larger(Larger(physMS, now), rp);
      if phys == rp && phys == physMS {
        var target := count;
        if rseq > target {
          target := rseq;
        }
        var newSeq := (target + 1) % 65536;
        if newSeq > 255 {
          physMS := Succ(phys);
          count := 0;
        } else {
          physMS := phys;
          count := newSeq;
        }
      } else if phys == rp && phys > physMS {
        var newSeq := (rseq + 1) % 65536;
        if newSeq > 255 {
          physMS := Succ(phys);
          count := 0;
        } else {
          physMS := phys;
          count := newSeq;
        }
      } else if phys == physMS && phys > rp {
        if count < 255 {
          count := count + 1;
        } else {
          physMS := Succ(physMS);
          count := 0;
        }
      } else {
        physMS := phys;
        count := 0;
      }
    }
  }

  /** While the millisecond field has not overflowed 48 bits. */
  ghost predicate InRange(c: Clock) { Valid(c) && (c.physMS as int) < MS }

  lemma TickInRange(c: Clock)
    requires Valid(c)
    ensures InRange(c) <==> Tick(c) < TICKS
  {
  }

  /** Next is a Lamport clock on ticks, whatever the wall clock says. */
  lemma NextIsLamport(c: Clock, now: int64)
    requires Valid(c) && c.physMS < 0x7FFF_FFFF_FFFF_FFFF
    ensures Valid(AfterNext(c, now)) && AfterNext(c, now).node == c.node
    ensures Tick(AfterNext(c, now)) == NextTick(Tick(c), now)
    ensures var t, t' := c.physMS as int * 256 + c.count, Tick(AfterNext(c, now));
      && t' == AfterNext(c, now).physMS as int * 256 + AfterNext(c, now).count
      && t' > t && t' >= now as int * 256 && (t' == t + 1 || t' == now as int * 256)
  {
  }

  /** So is Observe, with the remote version as one more reading. */
  lemma ObserveIsLamport(c: Clock, remote: uint64, now: int64)
    requires InRange(c)
    ensures Valid(AfterObserve(c, remote, now)) && AfterObserve(c, remote, now).node == c.node
    ensures Tick(AfterObserve(c, remote, now)) == ObserveTick(Tick(c), RemoteTick(remote), now)
    ensures var t, u, t' := c.physMS as int * 256 + c.count, remote as int / 256, Tick(AfterObserve(c, remote, now));
      && t' == AfterObserve(c, remote, now).physMS as int * 256 + AfterObserve(c, remote, now).count
      && t' > t && t' > u && t' >= now as int * 256 && (t' == t + 1 || t' == u + 1 || t' == now as int * 256)
  {
    var (rp, rlog) := Unpack(remote);
    var rseq := SplitLogical(rlog).0;
    assert RemoteTick(remote) == rp as int * 256 + rseq;
  }

  /** In range, versions are ordered as their ticks are. */
  lemma VersionOfTick(c: Clock)
    requires InRange(c)
    ensures Version(c) as int == Tick(c) * 256 + c.node
  {
  }

  /** Past the range, versions start over. */
  lemma VersionWraps(c: Clock)
    requires Valid(c) && TICKS <= Tick(c) < 2 * TICKS
    ensures Version(c) as int == (Tick(c) - TICKS) * 256 + c.node
  {
  }

  /** With a 48-bit wall clock, Next rises exactly until the last tick is used up. */
  lemma NextRisesIff(c: Clock, now: int64)
    requires InRange(c) && (now as int) < MS
    ensures Version(AfterNext(c, now)) > Version(c) <==> Tick(c) < TICKS - 1
    ensures InRange(AfterNext(c, now)) <==> Tick(c) < TICKS - 1
  {
    NextIsLamport(c, now);
    VersionOfTick(c);
    var c' := AfterNext(c, now);
    TickInRange(c');
    if Tick(c) < TICKS - 1 {
      VersionOfTick(c');
    } else {
      VersionWraps(c');
    }
  }

  /** A Next after an Observe exceeds the observed version and the clock before it
      exactly when neither is within two ticks of the end. */
  lemma ObserveThenNextRisesIff(c: Clock, remote: uint64, now: int64, now': int64)
    requires InRange(c) && (now as int) < MS && (now' as int) < MS
    ensures var v := Version(AfterNext(AfterObserve(c, remote, now), now'));
            v > remote && v > Version(c) <==> Max(Tick(c), RemoteTick(remote)) < TICKS - 2
  {
    ObserveIsLamport(c, remote, now);
    var d := AfterObserve(c, remote, now);
    NextIsLamport(d, now');
    VersionOfTick(c);
    var e := AfterNext(d, now');
    TickInRange(e);
    assert remote as int >= RemoteTick(remote) * 256;
    if Tick(e) < TICKS {
      VersionOfTick(e);
      assert remote as int < (RemoteTick(remote) + 1) * 256;
    } else {
      VersionWraps(e);
    }
  }

  /** The last tick can be reached by observing one version, after which Next falls. */
  lemma LastTickFails()
    ensures var c := AfterObserve(Clock(0, 0, 7), 0xFFFF_FFFF_FFFF_FE00, 1000);
            Tick(c) == TICKS - 1 && Version(AfterNext(c, 1000)) < Version(c)
  {
    hide AfterObserve, AfterNext, Version;
    var c := AfterObserve(Clock(0, 0, 7), 0xFFFF_FFFF_FFFF_FE00, 1000);
    ObserveIsLamport(Clock(0, 0, 7), 0xFFFF_FFFF_FFFF_FE00, 1000);
    TickInRange(c);
    VersionOfTick(c);
    NextIsLamport(c, 1000);
    VersionWraps(AfterNext(c, 1000));
  }

  // ---------------------------------------------------------------- runs of one clock

  datatype Event = Local(now: int64) | Remote(ts: uint64, now: int64)

  function After(c: Clock, e: Event): (r: Clock) {
    match e
    case Local(now) => AfterNext(c, now)
    case Remote(ts, now) => AfterObserve(c, ts, now)
  }

  ghost predicate IsRun(events: seq<Event>, clocks: seq<Clock>) {
    && |clocks| == |events| + 1 && Valid(clocks[0]) && Tick(clocks[0]) == 0
    && forall i :: 0 <= i < |events| ==> clocks[i + 1] == After(clocks[i], events[i])
  }

  /** The version an event puts forward: the one issued, or the one observed. */
  function Stamp(e: Event, after: Clock): (ts: uint64) {
    match e
    case Local(_) => Version(after)
    case Remote(ts, _) => ts
  }

  lemma AfterTick(c: Clock, e: Event)
    requires InRange(c)
    ensures Tick(After(c, e)) > Tick(c) && After(c, e).node == c.node
    ensures e.Remote? ==> Tick(After(c, e)) > RemoteTick(e.ts)
  {
    match e
    case Local(now) => NextIsLamport(c, now);
    case Remote(ts, now) => ObserveIsLamport(c, ts, now);
  }

  /** No wall clock reading or observed version of the run is past tick `bound`. */
  ghost predicate Within(events: seq<Event>, bound: int) {
    forall i :: 0 <= i < |events| ==>
      events[i].now as int * 256 <= bound && (events[i].Remote? ==> RemoteTick(events[i].ts) <= bound)
  }

  /** Each event moves the clock at most one tick past everything read so far, so a run
      far enough from the end of the range stays in it. */
  lemma {:induction false} StaysInRange(events: seq<Event>, clocks: seq<Clock>, bound: nat, n: nat)
    requires IsRun(events, clocks) && Within(events, bound) && bound + |events| < TICKS && n <= |events|
    ensures InRange(clocks[n]) && Tick(clocks[n]) <= bound + n
  {
    if n > 0 {
      StaysInRange(events, clocks, bound, n - 1);
      match events[n - 1]
      case Local(now) => NextIsLamport(clocks[n - 1], now);
      case Remote(ts, now) => ObserveIsLamport(clocks[n - 1], ts, now);
    }
    TickInRange(clocks[n]);
  }

  lemma {:induction false} TicksRise(events: seq<Event>, clocks: seq<Clock>, i: nat, j: nat)
    requires IsRun(events, clocks) && i < j <= |events|
    requires forall k :: 0 <= k <= j ==> InRange(clocks[k])
    ensures Tick(clocks[i]) < Tick(clocks[j])
  {
    AfterTick(clocks[j - 1], events[j - 1]);
    if i < j - 1 {
      TicksRise(events, clocks, i, j - 1);
    }
  }

  /** Whatever the clock readings, backward ones included, each version issued exceeds
      every version issued or observed before it. */
  lemma IssuedExceedsEarlier(events: seq<Event>, clocks: seq<Clock>, bound: nat, i: nat, j: nat)
    requires IsRun(events, clocks) && Within(events, bound) && bound + |events| < TICKS
    requires i < j < |events| && events[j].Local?
    ensures Stamp(events[j], clocks[j + 1]) > Stamp(events[i], clocks[i + 1])
  {
    forall k | 0 <= k <= j + 1
      ensures InRange(clocks[k])
    {
      StaysInRange(events, clocks, bound, k);
    }
    TicksRise(events, clocks, i + 1, j + 1);
    VersionOfTick(clocks[j + 1]);
    VersionOfTick(clocks[i + 1]);
    AfterTick(clocks[i], events[i]);
    assert events[i].Remote? ==> events[i].ts as int < (RemoteTick(events[i].ts) + 1) * 256;
  }
}
