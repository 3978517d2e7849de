/** The sharded cache: how it is sized, and what holds of all shards together in every
    run. Shards are locked one at a time, so a run interleaves single-shard steps. */
module Caches {
  import opened CacheSpec
  import opened Wrappers

  const MAX_SHARDS := 256
  const SHARDS_PER_CPU := 4

  // ---------------------------------------------------------------- sizing

  function Pow2(e: nat): (p: nat)
    ensures p >= 1
  {
    if e == 0 then 1 else 2 * Pow2(e - 1)
  }

  function BitLen(n: nat): (b: nat) { if n == 0 then 0 else 1 + BitLen(n / 2) }

  function NextPowerOf2(n: int): (r: nat) { if n <= 1 then 1 else Pow2(BitLen(n - 1)) }

  lemma {:induction false} BitLenCovers(n: nat, e: nat)
    ensures n < Pow2(BitLen(n))
    ensures n >= Pow2(e) ==> BitLen(n) > e
    ensures n < Pow2(e) ==> BitLen(n) <= e
  {
    if n > 0 {
      BitLenCovers(n / 2, if e > 0 then e - 1 else 0);
    }
  }

  lemma {:induction false} Pow2Grows(a: nat, b: nat)
    requires a <= b
    ensures Pow2(a) <= Pow2(b)
  {
    if a < b {
      Pow2Grows(a, b - 1);
    }
  }

  /** The result is a power of two, and the least one that covers `n`. */
  lemma NextPowerOf2IsLeast(n: int, e: nat)
    ensures n <= NextPowerOf2(n) && NextPowerOf2(n) == Pow2(if n <= 1 then 0 else BitLen(n - 1))
    ensures n <= Pow2(e) ==> NextPowerOf2(n) <= Pow2(e)
  {
    if n > 1 {
      BitLenCovers(n - 1, e);
      if n <= Pow2(e) {
        Pow2Grows(BitLen(n - 1), e);
      }
    }
  }

  /** Sizes a new cache. With a size limit every shard can hold an entry, all shards
      together stay within the limit, and the shard count falls short of what was asked
      for only if twice as many shards would not fit. */
  method Sizing(requested: int, cpus: nat, maxSize: int) returns (shards: nat, cap: int, ghost e: nat)
    ensures shards == Pow2(e)
    ensures maxSize <= 0 ==> cap == 0
    ensures maxSize > 0 ==> cap >= 1 && shards * cap <= maxSize < shards * (cap + 1) && shards <= 256
    ensures var want := if requested > 0 then requested else if cpus < 64 then 4 * cpus else 256;
            || shards == NextPowerOf2(want)
            || (maxSize > 0 && shards < want && (maxSize < 2 * shards || 256 < 2 * shards))
  {
    var count := requested;
    if count <= 0 {
      count := Min(cpus * SHARDS_PER_CPU, MAX_SHARDS);
    }
    cap := 0;
    e := 0;
    if maxSize > 0 {
      var limit := Min(maxSize, MAX_SHARDS);
      var maxPow2 := 1;
      while maxPow2 * 2 <= limit
        invariant maxPow2 == Pow2(e) && maxPow2 <= limit
        decreases limit - maxPow2
      {
        maxPow2, e := maxPow2 * 2, e + 1;
      }
      count := Min(count, maxPow2);
    }
    shards := NextPowerOf2(count);
    NextPowerOf2IsLeast(count, e);
    e := if count <= 1 then 0 else BitLen(count - 1);
    if maxSize > 0 {
      cap := maxSize / shards;
      Quotient(maxSize, shards);
    }
  }

  lemma Quotient(a: int, b: int)
    requires 0 < b <= a
    ensures a / b >= 1 && b * (a / b) <= a < b * (a / b + 1)
  {
    assert a == b * (a / b) + a % b;
  }

  // ---------------------------------------------------------------- runs of all shards

  predicate OnKey(op: Op) { !op.Cleanup? && !op.Clear? }

  /** One step on shard `i`; an operation on a key goes to the shard its hash selects.
      The shard count is a power of two, so masking the hash is taking a remainder. */
  ghost predicate CacheStep(
    policy: Policy, cap: int, hash: Key -> nat, c: seq<State>, i: nat, op: Op, c': seq<State>)
  {
    && |c| == |c'| && i < |c|
    && (OnKey(op) ==> i == hash(op.k) % |c|)
    && Step(policy, cap, c[i], op, c'[i])
    && forall j :: 0 <= j < |c| && j != i ==> c'[j] == c[j]
  }

  ghost predicate IsCacheRun(
    policy: Policy, shards: nat, cap: int, hash: Key -> nat, at: seq<nat>, ops: seq<Op>, runs: seq<seq<State>>)
  {
    && |runs| == |ops| + 1 && |at| == |ops|
    && |runs[0]| == shards && (forall i :: 0 <= i < shards ==> runs[0][i] == EMPTY)
    && forall n :: 0 <= n < |ops| ==> CacheStep(policy, cap, hash, runs[n], at[n], ops[n], runs[n + 1])
  }

  /** Each shard is well formed, within its cap, and holds only keys hashed to it. */
  ghost predicate Sharded(policy: Policy, cap: int, hash: Key -> nat, c: seq<State>) {
    && (forall i :: 0 <= i < |c| ==> WellFormed(policy, c[i]) && Fits(cap, c[i]))
    && (forall i, k :: 0 <= i < |c| && k in c[i].entries ==> i == hash(k) % |c|)
  }

  lemma CacheStepSharded(policy: Policy, cap: int, hash: Key -> nat, c: seq<State>, i: nat, op: Op, c': seq<State>)
    requires Sharded(policy, cap, hash, c) && CacheStep(policy, cap, hash, c, i, op, c')
    ensures Sharded(policy, cap, hash, c')
  {
    hide Step, WellFormed;
    StepWellFormed(policy, cap, c[i], op, c'[i]);
    forall k | k in c'[i].entries
      ensures i == hash(k) % |c|
    {
      StepEntries(policy, cap, c[i], op, c'[i], k);
    }
  }

  lemma {:induction false} RunSharded(
    policy: Policy, shards: nat, cap: int, hash: Key -> nat, at: seq<nat>, ops: seq<Op>, runs: seq<seq<State>>, n: nat)
    requires IsCacheRun(policy, shards, cap, hash, at, ops, runs) && n <= |ops|
    ensures |runs[n]| == shards && Sharded(policy, cap, hash, runs[n])
  {
    if n == 0 {
      EmptyWellFormed(policy);
    } else {
      RunSharded(policy, shards, cap, hash, at, ops, runs, n - 1);
      CacheStepSharded(policy, cap, hash, runs[n - 1], at[n - 1], ops[n - 1], runs[n]);
    }
  }

  /** Every key some shard holds. */
  ghost function KeysOf(c: seq<State>): (keys: set<Key>) {
    if c == [] then {} else KeysOf(c[..|c| - 1]) + c[|c| - 1].entries.Keys
  }

  lemma {:induction false} KeysOfMembers(c: seq<State>, k: Key)
    ensures k in KeysOf(c) <==> exists i :: 0 <= i < |c| && k in c[i].entries
  {
    if c != [] {
      KeysOfMembers(c[..|c| - 1], k);
      assert k in c[|c| - 1].entries ==> exists i :: 0 <= i < |c| && k in c[i].entries;
      if i :| 0 <= i < |c| && k in c[i].entries && i < |c| - 1 {
        assert c[..|c| - 1][i] == c[i];
      }
    }
  }

  lemma DisjointSize<T>(a: set<T>, b: set<T>)
    requires forall x :: x in a ==> x !in b
    ensures |a + b| == |a| + |b|
  {
    assert a !! b;
  }

  /** No shard's keys reappear in another. */
  ghost predicate Apart(c: seq<State>) {
    forall i, j, k :: 0 <= i < j < |c| && k in c[i].entries ==> k !in c[j].entries
  }

  lemma SizeStep(c: seq<State>, i: nat)
    requires Apart(c) && i < |c|
    ensures |KeysOf(c[..i + 1])| == |KeysOf(c[..i])| + |c[i].entries|
  {
    forall k | k in KeysOf(c[..i])
      ensures k !in c[i].entries.Keys
    {
      KeysOfMembers(c[..i], k);
    }
    DisjointSize(KeysOf(c[..i]), c[i].entries.Keys);
    assert c[..i + 1][..i] == c[..i];
  }

  lemma {:induction false} SizeWithin(cap: nat, c: seq<State>)
    requires Apart(c) && forall i :: 0 <= i < |c| ==> |c[i].entries| <= cap
    ensures |KeysOf(c)| <= |c| * cap
  {
    hide KeysOf, Apart;
    var n := |c| - 1;
    if c == [] {
      NoKeys();
    } else {
      ApartPrefix(c, n);
      SizeWithin(cap, c[..n]);
      SizeStep(c, n);
      assert c[..n + 1] == c;
      Multiples(n, cap);
    }
  }

  lemma NoKeys()
    ensures KeysOf([]) == {}
  {
  }

  lemma ApartPrefix(c: seq<State>, n: nat)
    requires Apart(c) && n <= |c|
    ensures Apart(c[..n])
  {
  }

  lemma Multiples(n: nat, cap: nat)
    ensures (n + 1) * cap == n * cap + cap
  {
  }

  lemma ShardedApart(policy: Policy, cap: int, hash: Key -> nat, c: seq<State>)
    requires Sharded(policy, cap, hash, c)
    ensures Apart(c)
  {
    forall i, j, k | 0 <= i < j < |c| && k in c[i].entries
      ensures k !in c[j].entries
    {
      assert i == hash(k) % |c|;
    }
  }

  /** In every reachable state of a cache sized for `maxSize`, no more than `maxSize`
      keys are held, whatever the interleaving of operations. */
  lemma SizeNeverExceedsMax(
    policy: Policy, shards: nat, cap: int, maxSize: int, hash: Key -> nat,
    at: seq<nat>, ops: seq<Op>, runs: seq<seq<State>>, n: nat)
    requires maxSize > 0 && cap >= 1 && shards * cap <= maxSize
    requires IsCacheRun(policy, shards, cap, hash, at, ops, runs) && n <= |ops|
    ensures Apart(runs[n]) && |KeysOf(runs[n])| <= maxSize
  {
    hide Sharded, Apart, KeysOf, CacheStep;
    RunSharded(policy, shards, cap, hash, at, ops, runs, n);
    ShardedApart(policy, cap, hash, runs[n]);
    ShardedFits(policy, cap, hash, runs[n]);
    SizeWithin(cap, runs[n]);
  }

  lemma ShardedFits(policy: Policy, cap: nat, hash: Key -> nat, c: seq<State>)
    requires Sharded(policy, cap, hash, c) && cap > 0
    ensures forall i :: 0 <= i < |c| ==> |c[i].entries| <= cap
  {
  }

  /** As LastWrite, for operations on several shards: a Clear concerns the keys of the
      shard it is applied to. */
  ghost function CacheLastWrite(
    shards: nat, hash: Key -> nat, at: seq<nat>, ops: seq<Op>, n: nat, k: Key): (r: Option<Entry>)
    requires n <= |ops| == |at| && shards > 0
  {
    if n == 0 || CacheEnds(shards, hash, at[n - 1], ops[n - 1], k) then None
    else if Writes(ops[n - 1], k) then Some(ops[n - 1].e)
    else CacheLastWrite(shards, hash, at, ops, n - 1, k)
  }

  predicate CacheEnds(shards: nat, hash: Key -> nat, i: nat, op: Op, k: Key)
    requires shards > 0
  {
    Ends(op, k) && (op.Clear? ==> i == hash(k) % shards)
  }

  /** Whatever any shard holds for a key is what was last written for it, after the key's
      last Delete and its shard's last Clear. */
  lemma {:induction false} CacheHoldsLastWrite(
    policy: Policy, shards: nat, cap: int, hash: Key -> nat,
    at: seq<nat>, ops: seq<Op>, runs: seq<seq<State>>, n: nat, i: nat, k: Key)
    requires IsCacheRun(policy, shards, cap, hash, at, ops, runs) && n <= |ops| && shards > 0
    requires i < |runs[n]| && k in runs[n][i].entries
    ensures CacheLastWrite(shards, hash, at, ops, n, k) == Some(runs[n][i].entries[k])
  {
    hide CacheStep, Sharded, CacheEnds;
    RunSharded(policy, shards, cap, hash, at, ops, runs, n);
    if n > 0 {
      CacheStepEntries(policy, cap, hash, runs[n - 1], at[n - 1], ops[n - 1], runs[n], i, k);
      if !Writes(ops[n - 1], k) {
        CacheHoldsLastWrite(policy, shards, cap, hash, at, ops, runs, n - 1, i, k);
      }
    }
  }

  lemma CacheStepEntries(
    policy: Policy, cap: int, hash: Key -> nat, c: seq<State>, at: nat, op: Op, c': seq<State>, i: nat, k: Key)
    requires CacheStep(policy, cap, hash, c, at, op, c') && Sharded(policy, cap, hash, c')
    requires i < |c'| && k in c'[i].entries
    ensures |c| == |c'| && !CacheEnds(|c|, hash, at, op, k)
    ensures if Writes(op, k) then c'[i].entries[k] == op.e
            else k in c[i].entries && c'[i].entries[k] == c[i].entries[k]
  {
    hide Step, WellFormed, Fits;
    assert i == hash(k) % |c|;
    if i == at {
      StepEntries(policy, cap, c[i], op, c'[i], k);
    }
  }

  // ---------------------------------------------------------------- one shard's part of a run

  /** The operations of the first `n` that went to shard `i`. */
  ghost function OpsAt(at: seq<nat>, ops: seq<Op>, i: nat, n: nat): (r: seq<Op>)
    requires n <= |ops| == |at|
  {
    if n == 0 then []
    else OpsAt(at, ops, i, n - 1) + if at[n - 1] == i then [ops[n - 1]] else []
  }

  /** What happens at one shard is a run of that shard, so all that holds of shards' runs
      holds of every shard of a cache. */
  lemma {:induction false} ShardRun(
    policy: Policy, shards: nat, cap: int, hash: Key -> nat, at: seq<nat>, ops: seq<Op>, runs: seq<seq<State>>,
    n: nat, i: nat) returns (states: seq<State>)
    requires IsCacheRun(policy, shards, cap, hash, at, ops, runs) && n <= |ops| && i < shards
    ensures IsRun(policy, cap, OpsAt(at, ops, i, n), states)
    ensures |runs[n]| == shards && states[|states| - 1] == runs[n][i]
  {
    hide Step;
    if n == 0 {
      states := [EMPTY];
    } else {
      states := ShardRun(policy, shards, cap, hash, at, ops, runs, n - 1, i);
      assert CacheStep(policy, cap, hash, runs[n - 1], at[n - 1], ops[n - 1], runs[n]);
      if at[n - 1] == i {
        states := states + [runs[n][i]];
      }
    }
  }

  // ---------------------------------------------------------------- what the cache holds

  /** What the cache holds for `k`. */
  ghost function HeldIn(hash: Key -> nat, c: seq<State>, k: Key): (e: Option<Entry>)
    requires |c| > 0
  {
    var s := c[hash(k) % |c|];
    if k in s.entries then Some(s.entries[k]) else None
  }

  /** An operation on a key leaves what the cache holds for every other key as it is,
      unless it writes a new key to a full shard, and then one victim at most goes. */
  lemma CacheStepHeld(
    policy: Policy, cap: int, hash: Key -> nat, c: seq<State>, i: nat, op: Op, c': seq<State>, j: Key)
    requires CacheStep(policy, cap, hash, c, i, op, c') && OnKey(op) && j != op.k
    ensures HeldIn(hash, c', j) == HeldIn(hash, c, j) ||
      (&& (op.Set? || op.Import?) && HeldIn(hash, c, op.k).None? && 0 < cap <= |c[i].entries|
       && i == hash(j) % |c| && IsVictim(policy, c[i], j) && HeldIn(hash, c', j).None?
       && c'[i].entries == (c[i].entries - {j})[op.k := op.e])
  {
    hide Step, IsVictim;
    if i == hash(j) % |c| {
      if j in c[i].entries {
        StepKeeps(policy, cap, c[i], op, c'[i], j);
      } else if j in c'[i].entries {
        StepEntries(policy, cap, c[i], op, c'[i], j);
      }
    }
  }

  /** A step from the end of a run makes a longer run. */
  lemma RunGrows(
    policy: Policy, shards: nat, cap: int, hash: Key -> nat, at: seq<nat>, ops: seq<Op>, runs: seq<seq<State>>,
    i: nat, op: Op, c: seq<State>)
    requires IsCacheRun(policy, shards, cap, hash, at, ops, runs)
    requires CacheStep(policy, cap, hash, runs[|ops|], i, op, c)
    ensures IsCacheRun(policy, shards, cap, hash, at + [i], ops + [op], runs + [c])
  {
    hide CacheStep;
  }
}
