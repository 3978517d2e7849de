/** Replicas whose messages come from the local writes of nodes with distinct numbers:
    their versions tell the writes apart, so such replicas converge. */
module Clusters {
  import opened Hlc
  import opened Lww
  import opened Wrappers

  /** One node's history: its operations and the states between them. */
  datatype History = History(ops: seq<Op>, states: seq<Replica>, bound: nat)

  ghost predicate Valid(c: Config, h: History) { Lww.IsRun(c, h.ops, h.states) && RoomToRun(h.ops, h.bound) }

  function NumberOf(h: History): (n: nat)
    requires h.states != []
  {
    h.states[0].clock.node
  }

  // ---------------------------------------------------------------- one node

  lemma {:induction false} AllKeepNode(c: Config, r: Replica, ms: seq<Msg>, nows: seq<int64>)
    requires |ms| == |nows|
    ensures ApplyAll(c, r, ms, nows).clock.node == r.clock.node
    decreases |ms|
  {
    if ms != [] {
      AllKeepNode(c, r, ms[..|ms| - 1], nows[..|ms| - 1]);
    }
  }

  lemma StepKeepsNode(c: Config, r: Replica, op: Op)
    ensures Step(c, r, op).clock.node == r.clock.node
  {
    hide ApplyAll;
    if op.ReceiveBulk? && |op.items| == |op.nows| {
      var n := SoundPrefix(c, op.items);
      AllKeepNode(c, r, Sets(op.items[..n]), op.nows[..n]);
    }
  }

  lemma {:induction false} RunKeepsNode(c: Config, h: History, n: nat)
    requires Valid(c, h) && n <= |h.ops|
    ensures h.states[n].clock.node == NumberOf(h)
  {
    hide Step;
    if n > 0 {
      RunKeepsNode(c, h, n - 1);
      StepKeepsNode(c, h.states[n - 1], h.ops[n - 1]);
    }
  }

  lemma ApplyTicks(c: Config, r: Replica, m: Msg, now: int64)
    requires c.lww && Behind(r)
    ensures Tick(Apply(c, r, m, now).clock) >= Tick(r.clock)
  {
    ObserveIsLamport(r.clock, MsgVer(m), now);
  }

  lemma StepTicks(c: Config, r: Replica, op: Op, t: int)
    requires c.lww && Behind(r) && Tick(r.clock) <= t && t + Advances(op) < TICKS && Fed(op, t)
    ensures Tick(Step(c, r, op).clock) >= Tick(r.clock)
  {
    hide Apply, Behind, AfterNext, Tick, RemoteTick;
    BehindInRange(r);
    match op
    case Write(_, _, _, _, now) => NextIsLamport(r.clock, now);
    case Receive(m, now) => ApplyTicks(c, r, m, now);
    case ReceiveBulk(items, nows) =>
      if |items| == |nows| {
        TicksKeep(c, r, items, nows, t, 0, SoundPrefix(c, items));
      }
  }

  lemma {:induction false} TicksNeverFall(c: Config, h: History, i: nat, j: nat)
    requires c.lww && Valid(c, h) && i <= j <= |h.ops|
    ensures Tick(h.states[i].clock) <= Tick(h.states[j].clock)
    decreases j - i
  {
    hide Step, Fed;
    if i < j {
      TicksNeverFall(c, h, i, j - 1);
      RunBehind(c, h.ops, h.states, h.bound, j - 1);
      AdvancesGrow(h.ops, j);
      assert h.ops[..j][..j - 1] == h.ops[..j - 1];
      var t := h.bound + TotalAdvances(h.ops[..j - 1]);
      FedMore(h.ops[j - 1], h.bound, t);
      StepTicks(c, h.states[j - 1], h.ops[j - 1], t);
    }
  }

  /** Step `i` is a local write that takes a version. */
  ghost predicate Writes(c: Config, h: History, i: nat) {
    i < |h.ops| && h.ops[i].Write? && KeyFits(c, h.ops[i].key)
  }

  function VersionAt(h: History, i: nat): (v: uint64)
    requires i < |h.ops| && i < |h.states| && h.ops[i].Write?
  {
    Issued(h.states[i], h.ops[i].now)
  }

  /** The issued version is the clock's new tick with the node's number. */
  lemma VersionIs(c: Config, h: History, i: nat)
    requires c.lww && Valid(c, h) && Writes(c, h, i)
    ensures VersionAt(h, i) as int == Tick(h.states[i + 1].clock) * 256 + NumberOf(h)
    ensures NumberOf(h) < 256 && Tick(h.states[i].clock) < Tick(h.states[i + 1].clock)
  {
    hide AfterNext;
    RunBehind(c, h.ops, h.states, h.bound, i);
    AdvancesGrow(h.ops, i);
    assert Fed(h.ops[i], h.bound);
    var r, now := h.states[i], h.ops[i].now;
    IssuedOutranks(r, now, []);
    VersionOfTick(AfterNext(r.clock, now));
    NextIsLamport(r.clock, now);
    RunKeepsNode(c, h, i);
    assert h.states[i + 1] == Step(c, r, h.ops[i]);
  }

  /** A node never issues a version twice. */
  lemma IssuedOnce(c: Config, h: History, i: nat, j: nat)
    requires c.lww && Valid(c, h) && Writes(c, h, i) && Writes(c, h, j) && i < j
    ensures VersionAt(h, i) < VersionAt(h, j)
  {
    hide Valid, VersionAt, NumberOf;
    Lengths(c, h);
    VersionIs(c, h, i);
    VersionIs(c, h, j);
    TicksNeverFall(c, h, i + 1, j);
  }

  lemma Lengths(c: Config, h: History)
    requires Valid(c, h)
    ensures |h.states| == |h.ops| + 1
  {
  }

  // ---------------------------------------------------------------- the cluster

  /** The nodes' numbers differ. */
  ghost predicate Numbered(c: Config, nodes: seq<History>) {
    && (forall i :: 0 <= i < |nodes| ==> Valid(c, nodes[i]))
    && forall i, j :: 0 <= i < j < |nodes| ==> NumberOf(nodes[i]) != NumberOf(nodes[j])
  }

  /** The message says what write `i` of the history wrote, with the version it took. */
  ghost predicate Says(c: Config, h: History, i: nat, m: Msg) {
    && Acceptable(c, m) && Writes(c, h, i) && i < |h.states|
    && MsgKey(m) == h.ops[i].key && MsgVer(m) == VersionAt(h, i) && Effect(c, m) == h.ops[i].entry
  }

  ghost predicate FromWrites(c: Config, nodes: seq<History>, m: Msg) {
    exists n, i :: 0 <= n < |nodes| && 0 <= i < |nodes[n].ops| && Says(c, nodes[n], i, m)
  }

  /** Messages with one version come from one write. */
  lemma SameVersionSameWrite(c: Config, nodes: seq<History>, m: Msg, m': Msg)
    requires c.lww && Numbered(c, nodes) && FromWrites(c, nodes, m) && FromWrites(c, nodes, m')
    requires MsgVer(m) == MsgVer(m')
    ensures Acceptable(c, m) && Acceptable(c, m') && MsgKey(m) == MsgKey(m') && Effect(c, m) == Effect(c, m')
  {
    hide Valid, VersionAt, Acceptable, Effect, MsgVer, MsgKey, NumberOf;
    var n, i :| 0 <= n < |nodes| && 0 <= i < |nodes[n].ops| && Says(c, nodes[n], i, m);
    var n', i' :| 0 <= n' < |nodes| && 0 <= i' < |nodes[n'].ops| && Says(c, nodes[n'], i', m');
    Lengths(c, nodes[n]);
    Lengths(c, nodes[n']);
    VersionIs(c, nodes[n], i);
    VersionIs(c, nodes[n'], i');
    assert n == n';
    if i < i' {
      IssuedOnce(c, nodes[n], i, i');
    } else if i' < i {
      IssuedOnce(c, nodes[n], i', i);
    }
  }

  /** So in messages of the cluster's writes, key and version determine the operation. */
  lemma WritesAreDetermined(c: Config, nodes: seq<History>, ms: seq<Msg>)
    requires c.lww && Numbered(c, nodes) && forall m :: m in ms ==> FromWrites(c, nodes, m)
    ensures Determined(c, ms) && forall m :: m in ms ==> Acceptable(c, m)
  {
    hide Numbered, FromWrites, Acceptable, Effect, MsgVer, MsgKey;
    forall m | m in ms
      ensures Acceptable(c, m)
    {
      SameVersionSameWrite(c, nodes, m, m);
    }
    forall m, m' | m in ms && m' in ms && MsgVer(m) == MsgVer(m') && Acceptable(c, m) && Acceptable(c, m')
      ensures Effect(c, m) == Effect(c, m')
    {
      SameVersionSameWrite(c, nodes, m, m');
    }
  }

  /** Replicas that take the messages of the cluster's writes, in any order and with any
      repetition, agree on every key on which they agreed before. */
  lemma ClusterConverges(
    c: Config, nodes: seq<History>, r: Replica, r': Replica,
    ms: seq<Msg>, nows: seq<int64>, ms': seq<Msg>, nows': seq<int64>, b: Bytes)
    requires c.lww && InjectiveKeys(c) && Numbered(c, nodes) && c.key(b).Some?
    requires |ms| == |nows| && |ms'| == |nows'| && (forall m :: m in ms <==> m in ms')
    requires forall m :: m in ms ==> FromWrites(c, nodes, m)
    requires CellOf(c, r, b) == CellOf(c, r', b)
    ensures CellOf(c, ApplyAll(c, r, ms, nows), b) == CellOf(c, ApplyAll(c, r', ms', nows'), b)
  {
    hide Numbered, FromWrites, CellOf, ApplyAll, Determined, InjectiveKeys;
    WritesAreDetermined(c, nodes, ms);
    Convergence(c, r, r', ms, nows, ms', nows', b);
  }
}
