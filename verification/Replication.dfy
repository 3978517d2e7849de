/** Replicating one write to its owners: the caller's loop and wait, one goroutine per
    remote owner, and the owners' handlers, interleaved in any order. Replicas may also
    take other writes meanwhile. */
module Replication {
  import opened Lww
  import opened Wrappers
  import Hlc

  type NodeId = string

  /** The write (a Set or Delete message), who sends it and to whom. */
  datatype Call = Call(
    config: Config, self: NodeId, owners: seq<NodeId>, concern: int, msg: Msg, handoff: bool)

  function Required(c: Call): (n: int) { if c.concern < 1 then 1 else c.concern }

  predicate Local(c: Call) { c.owners != [] && c.owners[0] == c.self }

  /** How many remote acknowledgements are waited for. */
  function Want(c: Call): (n: int) { Required(c) - if Local(c) then 1 else 0 }

  predicate Fast(c: Call) { Want(c) <= 0 }

  /** `running` are the goroutines that have not finished, `answers` what their peers
      replied, `lost` those without a connection. A true in `errCh` stands for nil. */
  datatype State = State(
    replicas: map<NodeId, Replica>, next: nat,
    running: set<NodeId>, lost: set<NodeId>, answers: map<NodeId, bool>,
    acked: set<NodeId>, failed: set<NodeId>, offered: set<NodeId>,
    remaining: int, errCh: seq<bool>, result: Option<bool>)

  datatype Action =
    | Launch(connected: bool)            // next turn of the caller's loop
    | Handle(p: NodeId, now: Hlc.int64)  // the peer applies the message
    | Fail(p: NodeId)                    // error, timeout or an answer that is not OK
    | Ack(p: NodeId)
    | Receive                            // the caller reads the channel
    | GiveUp                             // timer or cancellation
    | Return                             // the fast path
    | Other(p: NodeId, r: Replica)       // other traffic at a replica

  ghost predicate Enabled(c: Call, s: State, a: Action) {
    match a
    case Launch(_) => s.result.None? && s.next < |c.owners|
    case Handle(p, _) => p in s.running && p !in s.lost && p !in s.answers && p in s.replicas
    case Fail(p) => p in s.running
    case Ack(p) => p in s.running && p in s.answers && s.answers[p]
    case Receive => s.result.None? && s.next == |c.owners| && !Fast(c) && s.errCh != []
    case GiveUp => s.result.None? && s.next == |c.owners| && !Fast(c)
    case Return => s.result.None? && s.next == |c.owners| && Fast(c)
    case Other(p, r) => p in s.replicas && Rises(s.replicas[p], r)
  }

  function Answer(c: Call, r: Replica, now: Hlc.int64): (ok: bool) {
    if c.msg.Set? then ApplySet(c.config, r, c.msg.put, now).1 else ApplyDel(c.config, r, c.msg.del, now).1
  }

  function Offer(c: Call, s: State, p: NodeId): (r: set<NodeId>) {
    if c.handoff then s.offered + {p} else s.offered
  }

  function Next(c: Call, s: State, a: Action): (s': State)
    requires a.Launch? ==> s.next < |c.owners|
    requires a.Handle? ==> a.p in s.replicas
    requires a.Receive? ==> s.errCh != []
  {
    match a
    case Launch(connected) =>
      var p := c.owners[s.next];
      var s1 := s.(next := s.next + 1);
      if p == c.self then s1
      else if connected then s1.(running := s.running + {p})
      else if Fast(c) then s1.(running := s.running + {p}, lost := s.lost + {p})
      else s1.(failed := s.failed + {p}, offered := Offer(c, s, p))
    case Handle(p, now) =>
      s.(replicas := s.replicas[p := Apply(c.config, s.replicas[p], c.msg, now)],
         answers := s.answers[p := Answer(c, s.replicas[p], now)])
    case Fail(p) =>
      s.(running := s.running - {p}, failed := s.failed + {p}, offered := Offer(c, s, p),
         errCh := if Fast(c) then s.errCh else s.errCh + [false])
    case Ack(p) =>
      var s1 := s.(running := s.running - {p}, acked := s.acked + {p});
      if Fast(c) then s1
      else s1.(remaining := s.remaining - 1,
               errCh := if s.remaining - 1 <= 0 then s.errCh + [true] else s.errCh)
    case Receive => s.(errCh := s.errCh[1..], result := if s.errCh[0] then Some(true) else None)
    case GiveUp => s.(result := Some(false))
    case Return => s.(result := Some(true))
    case Other(p, r) => s.(replicas := s.replicas[p := r])
  }

  /** Replica `p` has the write or a newer one. */
  ghost predicate Holds(c: Call, s: State, p: NodeId) {
    p in s.replicas && VersionOf(s.replicas[p], MsgKey(c.msg)) >= MsgVer(c.msg)
  }

  /** Before the loop: the primary owner has already applied the write to itself. */
  ghost predicate Init(c: Call, s: State) {
    && Distinct(c.owners) && c.config.lww
    && (forall p :: p in c.owners ==> p in s.replicas) && (Local(c) ==> Holds(c, s, c.self))
    && s.next == 0 && s.running == {} && s.lost == {} && s.answers == map[] && s.acked == {} && s.failed == {}
    && s.offered == {} && s.remaining == Want(c) && s.errCh == [] && s.result == None
  }

  ghost predicate IsRun(c: Call, actions: seq<Action>, states: seq<State>) {
    && |states| == |actions| + 1 && Init(c, states[0])
    && forall i :: 0 <= i < |actions| ==>
         Enabled(c, states[i], actions[i]) && states[i + 1] == Next(c, states[i], actions[i])
  }

  // ---------------------------------------------------------------- what every step keeps

  /** The remote ones of the first `n` owners. */
  ghost function Passed(c: Call, n: nat): (r: set<NodeId>)
    requires n <= |c.owners|
  {
    if n == 0 then {}
    else Passed(c, n - 1) + if c.owners[n - 1] == c.self then {} else {c.owners[n - 1]}
  }

  lemma {:induction false} PassedMembers(c: Call, n: nat, p: NodeId)
    requires n <= |c.owners|
    ensures p in Passed(c, n) <==> p != c.self && p in c.owners[..n]
  {
    if n > 0 {
      PassedMembers(c, n - 1, p);
      assert c.owners[..n] == c.owners[..n - 1] + [c.owners[n - 1]];
    }
  }

  /** The remote owners the loop has passed are each in exactly one place. */
  ghost predicate Placed(c: Call, s: State) {
    s.next <= |c.owners| && Partition(s.running, s.acked, s.failed, Passed(c, s.next))
  }

  ghost predicate Partition(running: set<NodeId>, acked: set<NodeId>, failed: set<NodeId>, all: set<NodeId>) {
    && (forall p :: p in all <==> p in running || p in acked || p in failed)
    && (forall p :: p in running ==> p !in acked && p !in failed)
    && (forall p :: p in acked ==> p !in failed)
  }

  lemma PartitionMoves(running: set<NodeId>, acked: set<NodeId>, failed: set<NodeId>, all: set<NodeId>, p: NodeId)
    requires Partition(running, acked, failed, all)
    ensures p !in all ==> && Partition(running + {p}, acked, failed, all + {p})
                          && Partition(running, acked, failed + {p}, all + {p}) && |running + {p}| == |running| + 1
    ensures p in running ==> && Partition(running - {p}, acked + {p}, failed, all)
                             && Partition(running - {p}, acked, failed + {p}, all)
                             && |running - {p}| == |running| - 1 && |acked + {p}| == |acked| + 1
  {
  }

  ghost predicate Truthful(c: Call, s: State) {
    && (forall p :: p in c.owners ==> p in s.replicas)
    && (Local(c) ==> Holds(c, s, c.self))
    && (forall p :: p in s.acked ==> Holds(c, s, p))
    && (forall p :: p in s.answers && s.answers[p] ==> Holds(c, s, p))
  }

  ghost predicate Counted(c: Call, s: State) {
    && (if Fast(c) then s.errCh == [] else s.remaining == Want(c) - |s.acked|)
    && (true in s.errCh ==> s.remaining <= 0)
    && (s.result == Some(true) ==> Fast(c) || s.remaining <= 0)
  }

  ghost predicate Roomy(c: Call, s: State) { |s.errCh| + |s.running| <= s.next }

  ghost predicate Hinted(c: Call, s: State) { c.handoff ==> s.failed <= s.offered }

  ghost predicate Inv(c: Call, s: State) {
    Distinct(c.owners) && c.config.lww && Placed(c, s) && Truthful(c, s) && Counted(c, s) && Roomy(c, s) && Hinted(c, s)
  }

  lemma InitInv(c: Call, s: State)
    requires Init(c, s)
    ensures Inv(c, s)
  {
  }

  lemma PassedNext(c: Call, n: nat)
    requires n < |c.owners|
    ensures Passed(c, n + 1) == if c.owners[n] == c.self then Passed(c, n) else Passed(c, n) + {c.owners[n]}
  {
  }

  lemma LaunchPlaced(c: Call, s: State, connected: bool)
    requires Distinct(c.owners) && Placed(c, s) && Enabled(c, s, Launch(connected))
    ensures var s' := Next(c, s, Launch(connected)); Placed(c, s') && |s'.running| <= |s.running| + 1
  {
    hide Partition, Passed;
    var p := c.owners[s.next];
    PassedMembers(c, s.next, p);
    PassedNext(c, s.next);
    PartitionMoves(s.running, s.acked, s.failed, Passed(c, s.next), p);
  }

  lemma FinishPlaced(c: Call, s: State, a: Action)
    requires Placed(c, s) && Roomy(c, s) && Enabled(c, s, a) && (a.Fail? || a.Ack?)
    ensures Placed(c, Next(c, s, a)) && Roomy(c, Next(c, s, a))
  {
    hide Partition, Passed, Apply, Answer;
    PartitionMoves(s.running, s.acked, s.failed, Passed(c, s.next), a.p);
  }

  lemma OtherPlaced(c: Call, s: State, a: Action)
    requires Placed(c, s) && Roomy(c, s) && Enabled(c, s, a) && !a.Fail? && !a.Ack? && !a.Launch?
    ensures Placed(c, Next(c, s, a)) && Roomy(c, Next(c, s, a))
  {
    hide Partition, Passed, Apply, Answer;
  }

  lemma LaunchRoomy(c: Call, s: State, connected: bool)
    requires Roomy(c, s) && Enabled(c, s, Launch(connected))
    requires |Next(c, s, Launch(connected)).running| <= |s.running| + 1
    ensures Roomy(c, Next(c, s, Launch(connected)))
  {
  }

  lemma StepPlaced(c: Call, s: State, a: Action)
    requires Inv(c, s) && Enabled(c, s, a)
    ensures Placed(c, Next(c, s, a)) && Roomy(c, Next(c, s, a))
  {
    hide Truthful, Hinted, Counted, Placed, Roomy, Next;
    if a.Launch? {
      LaunchPlaced(c, s, a.connected);
      LaunchRoomy(c, s, a.connected);
    } else if a.Fail? || a.Ack? {
      FinishPlaced(c, s, a);
    } else {
      OtherPlaced(c, s, a);
    }
  }

  lemma RisingStaysTruthful(c: Call, s: State, p: NodeId, r: Replica)
    requires Truthful(c, s) && p in s.replicas && Rises(s.replicas[p], r)
    ensures Truthful(c, s.(replicas := s.replicas[p := r]))
  {
    hide Local;
  }

  lemma HandleTruthful(c: Call, s: State, p: NodeId, now: Hlc.int64)
    requires c.config.lww && Truthful(c, s) && p in s.replicas
    ensures Truthful(c, Next(c, s, Handle(p, now)))
  {
    hide Apply, Answer, Local, Rises;
    ApplyRises(c.config, s.replicas[p], c.msg, now);
    RisingStaysTruthful(c, s, p, Apply(c.config, s.replicas[p], c.msg, now));
    if Answer(c, s.replicas[p], now) {
      AnswerMeansHeld(c, s.replicas[p], now);
    }
  }

  lemma StepTruthful(c: Call, s: State, a: Action)
    requires Inv(c, s) && Enabled(c, s, a)
    ensures Truthful(c, Next(c, s, a))
  {
    hide Placed, Counted, Roomy, Hinted, Apply, Answer, Local, Rises;
    if a.Handle? {
      HandleTruthful(c, s, a.p, a.now);
    } else if a.Other? {
      RisingStaysTruthful(c, s, a.p, a.r);
    }
  }

  lemma AnswerMeansHeld(c: Call, r: Replica, now: Hlc.int64)
    requires c.config.lww && Answer(c, r, now)
    ensures VersionOf(Apply(c.config, r, c.msg, now), MsgKey(c.msg)) >= MsgVer(c.msg)
  {
    OkMeansHeld(c.config, r, c.msg, now);
  }

  lemma StepCounted(c: Call, s: State, a: Action)
    requires Inv(c, s) && Enabled(c, s, a)
    ensures Counted(c, Next(c, s, a)) && Hinted(c, Next(c, s, a))
  {
    hide Placed, Truthful, Roomy, Apply, Answer;
    if a.Ack? {
      AckCounts(c, s, a.p);
    }
  }

  lemma AckCounts(c: Call, s: State, p: NodeId)
    requires Placed(c, s) && p in s.running
    ensures |s.acked + {p}| == |s.acked| + 1
  {
  }

  lemma StepInv(c: Call, s: State, a: Action)
    requires Inv(c, s) && Enabled(c, s, a)
    ensures Inv(c, Next(c, s, a))
  {
    hide Placed, Truthful, Counted, Roomy, Hinted, Enabled, Next;
    StepPlaced(c, s, a);
    StepTruthful(c, s, a);
    StepCounted(c, s, a);
  }

  lemma {:induction false} RunInv(c: Call, actions: seq<Action>, states: seq<State>, n: nat)
    requires IsRun(c, actions, states) && n <= |actions|
    ensures Inv(c, states[n])
  {
    hide Inv, Enabled, Next;
    if n == 0 {
      InitInv(c, states[0]);
    } else {
      RunInv(c, actions, states, n - 1);
      StepInv(c, states[n - 1], actions[n - 1]);
    }
  }

  // ---------------------------------------------------------------- what a run promises

  ghost function Holders(c: Call, s: State): (h: set<NodeId>) { set p | p in c.owners && Holds(c, s, p) }

  /** Whatever the order of answers, failures and other traffic, a nil result means that
      at least the write concern's number of owners, and always one, hold the write or a
      newer one. */
  lemma NilMeansHeld(c: Call, actions: seq<Action>, states: seq<State>, n: nat)
    requires IsRun(c, actions, states) && n <= |actions| && states[n].result == Some(true)
    ensures |Holders(c, states[n])| >= c.concern && |Holders(c, states[n])| >= 1
  {
    var s := states[n];
    RunInv(c, actions, states, n);
    var known := s.acked + if Local(c) then {c.self} else {};
    PassedMembers(c, s.next, c.self);
    assert |known| == |s.acked| + if Local(c) then 1 else 0;
    forall p | p in known
      ensures p in Holders(c, s)
    {
      AckedIsOwner(c, s, p);
    }
    SubsetSize(known, Holders(c, s));
  }

  /** Once the loop is over, the call returns without waiting if and only if the sender is
      the first owner and a concern of one is enough; otherwise it can only wait. */
  lemma ReturnsAtOnceIff(c: Call, s: State)
    requires s.result.None? && s.next == |c.owners|
    ensures Enabled(c, s, Return) <==> c.owners != [] && c.owners[0] == c.self && c.concern <= 1
    ensures Enabled(c, s, GiveUp) <==> !Enabled(c, s, Return)
    ensures Enabled(c, s, Action.Receive) <==> !Enabled(c, s, Return) && s.errCh != []
  {
  }

  lemma AckedIsOwner(c: Call, s: State, p: NodeId)
    requires Inv(c, s) && (p in s.acked || (Local(c) && p == c.self))
    ensures p in c.owners && Holds(c, s, p)
  {
    hide Passed;
    PassedMembers(c, s.next, p);
  }

  /** A goroutine that is about to report always finds room in the channel. */
  lemma ReportsNeverBlock(c: Call, actions: seq<Action>, states: seq<State>, n: nat, p: NodeId)
    requires IsRun(c, actions, states) && n <= |actions| && p in states[n].running
    ensures |states[n].errCh| < |c.owners|
  {
    RunInv(c, actions, states, n);
    assert |states[n].running| >= 1;
  }

  /** Once the goroutines are done, each remote owner has acknowledged, and then holds
      the write, or was offered to hinted handoff. */
  lemma AckedOrOffered(c: Call, actions: seq<Action>, states: seq<State>, n: nat, i: nat)
    requires IsRun(c, actions, states) && n <= |actions| && c.handoff
    requires states[n].next == |c.owners| && states[n].running == {} && i < |c.owners| && c.owners[i] != c.self
    ensures (c.owners[i] in states[n].acked && Holds(c, states[n], c.owners[i])) || c.owners[i] in states[n].offered
  {
    hide Passed;
    RunInv(c, actions, states, n);
    PassedMembers(c, |c.owners|, c.owners[i]);
  }

  // ---------------------------------------------------------------- deleting an absent key

  ghost predicate Absent(c: Call, r: Replica) {
    && Acceptable(c.config, c.msg) && c.config.key(MsgKey(c.msg)).value !in r.store
    && VersionOf(r, MsgKey(c.msg)) <= MsgVer(c.msg)
  }

  /** No remote owner has the key, and other traffic does not write it. */
  ghost predicate Missing(c: Call, s: State) {
    && (forall p :: p in c.owners && p != c.self ==> p in s.replicas && Absent(c, s.replicas[p]))
    && s.acked == {} && (forall p :: p in s.answers ==> !s.answers[p])
  }

  lemma {:induction false} MissingStays(c: Call, actions: seq<Action>, states: seq<State>, n: nat)
    requires IsRun(c, actions, states) && n <= |actions| && c.msg.Del? && Missing(c, states[0])
    requires forall i :: 0 <= i < |actions| && actions[i].Other? ==> Absent(c, actions[i].r)
    ensures Missing(c, states[n])
  {
    hide Inv, Enabled;
    if n > 0 {
      MissingStays(c, actions, states, n - 1);
      RunInv(c, actions, states, n - 1);
      assert Enabled(c, states[n - 1], actions[n - 1]);
      MissingStep(c, states[n - 1], actions[n - 1]);
    }
  }

  lemma MissingStep(c: Call, s: State, a: Action)
    requires Inv(c, s) && Missing(c, s) && Enabled(c, s, a) && c.msg.Del? && (a.Other? ==> Absent(c, a.r))
    ensures Missing(c, Next(c, s, a))
  {
    hide Truthful, Counted, Roomy, Hinted, Hlc.AfterObserve, Passed;
    if a.Handle? {
      PassedMembers(c, s.next, a.p);
      DeleteAnswer(c.config, s.replicas[a.p], c.msg.del, a.now);
    }
  }

  /** A delete that needs a remote acknowledgement never succeeds for a key no remote
      owner has: each of them records the version and answers that it failed. */
  lemma DeleteOfAbsentKeyNeverConfirmed(c: Call, actions: seq<Action>, states: seq<State>, n: nat)
    requires IsRun(c, actions, states) && n <= |actions| && c.msg.Del? && Missing(c, states[0])
    requires !(c.owners != [] && c.owners[0] == c.self && c.concern <= 1)
    requires forall i :: 0 <= i < |actions| && actions[i].Other? ==> Absent(c, actions[i].r)
    ensures states[n].result != Some(true)
  {
    RunInv(c, actions, states, n);
    MissingStays(c, actions, states, n);
  }

  // ---------------------------------------------------------------- when every answer arrives

  /** The owner answers OK: it has a newer version, or stores what the message says, and
      for a delete that means it has the key. */
  ghost predicate Willing(c: Call, r: Replica)
    requires Acceptable(c.config, c.msg)
  {
    || VersionOf(r, MsgKey(c.msg)) > MsgVer(c.msg)
    || c.msg.Set? || c.config.key(MsgKey(c.msg)).value in r.store
  }

  lemma AnswerIsWilling(c: Call, r: Replica, now: Hlc.int64)
    requires c.config.lww && Acceptable(c.config, c.msg)
    ensures Answer(c, r, now) <==> Willing(c, r)
  {
  }

  /** Connections hold, answers arrive and are read as they are, nobody gives up and no
      other traffic interferes. */
  ghost predicate Undisturbed(s: State, a: Action) {
    && a != Launch(false) && !a.GiveUp? && !a.Other?
    && (a.Fail? ==> a.p in s.answers && !s.answers[a.p])
  }

  /** Answers are what the owners' first states say; finished goroutines followed them;
      and once enough acknowledgements are in, nil is on its way. */
  ghost predicate Followed(c: Call, first: State, s: State)
    requires Acceptable(c.config, c.msg)
  {
    && (forall p :: p in s.answers ==> p in first.replicas && (s.answers[p] <==> Willing(c, first.replicas[p])))
    && (forall p :: p in c.owners && p !in s.answers ==>
          p in s.replicas && p in first.replicas && s.replicas[p] == first.replicas[p])
    && (forall p :: p in s.acked ==> p in s.answers && s.answers[p])
    && (forall p :: p in s.failed ==> p in s.answers && !s.answers[p])
    && (!Fast(c) && s.remaining <= 0 ==> true in s.errCh || s.result == Some(true))
  }

  lemma HandleFollowed(c: Call, first: State, s: State, p: NodeId, now: Hlc.int64)
    requires Inv(c, s) && Acceptable(c.config, c.msg) && Followed(c, first, s) && Enabled(c, s, Handle(p, now))
    ensures Followed(c, first, Next(c, s, Handle(p, now)))
  {
    hide Passed, Truthful, Counted, Roomy, Hinted, Willing, Apply, Answer;
    PassedMembers(c, s.next, p);
    AnswerIsWilling(c, s.replicas[p], now);
  }

  lemma ReadOn(errCh: seq<bool>)
    requires errCh != [] && true in errCh && !errCh[0]
    ensures true in errCh[1..]
  {
    var i :| 0 <= i < |errCh| && errCh[i];
    assert errCh[1..][i - 1];
  }

  lemma StepFollowed(c: Call, first: State, s: State, a: Action)
    requires Inv(c, s) && Acceptable(c.config, c.msg) && Followed(c, first, s) && Enabled(c, s, a) && Undisturbed(s, a)
    ensures Followed(c, first, Next(c, s, a))
  {
    hide Placed, Truthful, Counted, Roomy, Hinted, Willing, Apply, Answer;
    if a.Handle? {
      HandleFollowed(c, first, s, a.p, a.now);
    } else if a.Receive? && true in s.errCh && !s.errCh[0] {
      ReadOn(s.errCh);
    }
  }

  lemma {:induction false} RunFollowed(c: Call, actions: seq<Action>, states: seq<State>, n: nat)
    requires IsRun(c, actions, states) && n <= |actions| && Acceptable(c.config, c.msg)
    requires forall i :: 0 <= i < |actions| ==> Undisturbed(states[i], actions[i])
    ensures Followed(c, states[0], states[n])
  {
    hide Inv, Followed, Enabled, Next, Undisturbed;
    if n == 0 {
      InitFollowed(c, states[0]);
    } else {
      RunFollowed(c, actions, states, n - 1);
      RunInv(c, actions, states, n - 1);
      StepFollowed(c, states[0], states[n - 1], actions[n - 1]);
    }
  }

  lemma InitFollowed(c: Call, s: State)
    requires Init(c, s) && Acceptable(c.config, c.msg)
    ensures Followed(c, s, s)
  {
  }

  /** The remote owners that would acknowledge from state `s`. */
  ghost function WillingOwners(c: Call, s: State): (r: set<NodeId>)
    requires Acceptable(c.config, c.msg)
  {
    set p | p in c.owners && p != c.self && p in s.replicas && Willing(c, s.replicas[p])
  }

  /** If every answer arrives, a call that waits for acknowledgements is confirmed if and
      only if the remote owners that were willing at the start (for a delete, owners that
      stored the key or had a newer version), with the sender if it is the first owner,
      meet the write concern. */
  lemma ConfirmedIff(c: Call, actions: seq<Action>, states: seq<State>)
    requires IsRun(c, actions, states) && Acceptable(c.config, c.msg)
    requires !(c.owners != [] && c.owners[0] == c.self && c.concern <= 1)
    requires forall i :: 0 <= i < |actions| ==> Undisturbed(states[i], actions[i])
    requires var s := states[|actions|]; s.next == |c.owners| && s.running == {}
    ensures var s := states[|actions|];
      var willing := |WillingOwners(c, states[0])| + if c.owners != [] && c.owners[0] == c.self then 1 else 0;
      s.result == Some(true) || true in s.errCh <==> willing >= c.concern && willing >= 1
  {
    hide Willing, Enabled, Next, Undisturbed, Init;
    var s := states[|actions|];
    RunInv(c, actions, states, |actions|);
    RunFollowed(c, actions, states, |actions|);
    AckedAreWilling(c, states[0], s);
  }

  lemma AckedAreWilling(c: Call, first: State, s: State)
    requires Inv(c, s) && Acceptable(c.config, c.msg) && Followed(c, first, s)
    requires s.next == |c.owners| && s.running == {}
    ensures s.acked == WillingOwners(c, first)
  {
    hide Passed, Willing, Truthful, Counted, Roomy, Hinted;
    forall p
      ensures p in s.acked <==> p in WillingOwners(c, first)
    {
      PassedMembers(c, |c.owners|, p);
      assert c.owners[..|c.owners|] == c.owners;
    }
  }
}
