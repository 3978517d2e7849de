/** The cache object: shards that recycle nodes through one pool. Every operation is a
    step of the run recorded beside it, so what is proved of runs holds of the object. */
module ShardedCaches {
  import opened CacheSpec
  import opened Caches
  import opened Shards
  import opened Wrappers

  /** No shard reaches an object of another or a recycled node. */
  ghost predicate Disjoint(feet: seq<set<object>>, free: set<object>, repr: set<object>) {
    && free <= repr
    && (forall i :: 0 <= i < |feet| ==> feet[i] <= repr)
    && (forall i, o :: 0 <= i < |feet| && o in feet[i] ==> o !in free)
    && (forall i, j, o :: 0 <= i < |feet| && 0 <= j < |feet| && i != j && o in feet[i] ==> o !in feet[j])
  }

  /** Nodes that a shard takes come from itself, from the pool or are new. */
  lemma DisjointMoves(
    feet: seq<set<object>>, free: set<object>, repr: set<object>, i: nat, foot: set<object>, free': set<object>)
    requires Disjoint(feet, free, repr) && i < |feet| && free' <= free + feet[i]
    requires (forall o :: o in foot && o in repr ==> o in feet[i] || o in free) && forall o :: o in foot ==> o !in free'
    ensures Disjoint(feet[i := foot], free', repr + foot)
  {
  }

  /** A valid shard, the objects it reaches and what it means. */
  ghost predicate Reaches(s: Shard, foot: set<object>, policy: Policy, view: State)
    reads s, s.lfu, foot
  {
    s.policy == policy && s.view == view && s.Footprint() == foot && s.Valid()
  }

  lemma ReachesReady(s: Shard, foot: set<object>, policy: Policy, view: State, pool: Pool)
    requires Reaches(s, foot, policy, view) && forall o :: o in foot ==> o !in pool.free
    ensures s.Ready(pool) && s.Footprint() == foot && s.view == view && s.policy == policy
  {
    hide Shard.Valid;
  }

  lemma ReadyReaches(s: Shard, pool: Pool)
    requires s.Ready(pool)
    ensures Reaches(s, s.Footprint(), s.policy, s.view) && forall o :: o in s.Footprint() ==> o !in pool.free
  {
    hide Shard.Valid;
  }

  /** One operation on shard `i`: the other shards, and every node they reach, stay as
      they are, and nodes move only between this shard and the pool they share. */
  method Operate(
    shards: seq<Shard>, i: nat, op: Op, cap: int, admit: bool, pool: Pool,
    ghost policy: Policy, ghost feet: seq<set<object>>, ghost views: seq<State>, ghost repr: set<object>)
    returns (hit: Option<Entry>, found: bool, ghost foot: set<object>, ghost view: State)
    requires |shards| == |feet| && |shards| == |views| && i < |shards|
    requires Disjoint(feet, pool.free, repr) && Fits(cap, views[i])
    requires forall j :: 0 <= j < |shards| ==> Reaches(shards[j], feet[j], policy, views[j])
    modifies feet[i], pool, pool.free
    ensures Step(policy, cap, views[i], op, view) && Answers(views[i], op, hit, found)
    ensures Admits(policy, cap, views[i], op, admit, view)
    ensures Reaches(shards[i], foot, policy, view)
    ensures forall j :: 0 <= j < |shards| && j != i ==> Reaches(shards[j], feet[j], policy, views[j])
    ensures Disjoint(feet[i := foot], pool.free, repr + foot) && fresh(foot - repr)
  {
    hide Shard.Valid, Step, Answers, Admits, Fits;
    ReachesReady(shards[i], feet[i], policy, views[i], pool);
    hit, found := shards[i].Apply(op, cap, admit, pool);
    ReadyReaches(shards[i], pool);
    foot, view := shards[i].Footprint(), shards[i].view;
    DisjointMoves(feet, old(pool.free), repr, i, foot, pool.free);
  }

  /** New, empty shards, each with its own sentinels and LFU index. */
  method MakeShards(policy: Policy, n: nat)
    returns (shards: seq<Shard>, ghost feet: seq<set<object>>, ghost repr: set<object>)
    ensures |shards| == |feet| == n && Disjoint(feet, {}, repr) && fresh(repr)
    ensures forall i :: 0 <= i < n ==> shards[i].lfu in repr && Reaches(shards[i], feet[i], policy, EMPTY)
  {
    hide Shard.Valid;
    shards, feet, repr := [], [], {};
    for k := 0 to n
      invariant |shards| == |feet| == k && Disjoint(feet, {}, repr) && fresh(repr)
      invariant forall i :: 0 <= i < k ==> shards[i].lfu in repr && Reaches(shards[i], feet[i], policy, EMPTY)
    {
      var s := new Shard(policy);
      DisjointGrows(feet, repr, s.Footprint());
      shards, feet, repr := shards + [s], feet + [s.Footprint()], repr + s.Footprint();
    }
  }

  lemma DisjointGrows(feet: seq<set<object>>, repr: set<object>, foot: set<object>)
    requires Disjoint(feet, {}, repr) && forall o :: o in foot ==> o !in repr
    ensures Disjoint(feet + [foot], {}, repr + foot)
  {
  }

  /** A run of operations on all shards: where each went, what it was, and the states. */
  datatype History = History(at: seq<nat>, ops: seq<Op>, runs: seq<seq<State>>)

  class Cache {
    const policy: Policy
    const maxSize: int
    const cap: int
    const hash: Key -> nat
    const pool: Pool
    const shards: seq<Shard>
    ghost var views: seq<State>        // what each shard means
    ghost var feet: seq<set<object>>   // and what it reaches
    ghost var repr: set<object>
    ghost var past: History

    /** `past` is a run that ends in the present state. */
    ghost predicate Recorded()
      reads `past, `views
    {
      && IsCacheRun(policy, |shards|, cap, hash, past.at, past.ops, past.runs)
      && past.runs[|past.ops|] == views
    }

    /** Sized so that all shards together stay within the limit. */
    predicate Bounded() { |shards| >= 1 && (maxSize > 0 ==> cap >= 1 && |shards| * cap <= maxSize) }

    ghost predicate Valid()
      reads this, pool, shards, repr
    {
      && this !in repr && pool in repr && |shards| == |feet| == |views| && Disjoint(feet, pool.free, repr)
      && (forall i :: 0 <= i < |shards| ==> shards[i].lfu in repr && Reaches(shards[i], feet[i], policy, views[i]))
      && Recorded() && Bounded()
    }

    constructor (policy: Policy, requested: int, cpus: nat, maxSize: int, hash: Key -> nat)
      ensures Valid() && this.policy == policy && this.maxSize == maxSize && this.hash == hash && fresh(repr)
      ensures past.ops == [] && forall i :: 0 <= i < |shards| ==> views[i] == EMPTY
    {
      hide Reaches, Disjoint, IsCacheRun;
      var n, perShard, _ := Sizing(requested, cpus, maxSize);
      this.policy, this.maxSize, cap, this.hash := policy, maxSize, perShard, hash;
      var p := new Pool();
      var list, f, r := MakeShards(policy, n);
      pool, shards, feet, repr := p, list, f, r + {p};
      views, past := NoEntries(n), History([], [], [NoEntries(n)]);
      NewRun(policy, n, perShard, hash);
      OnePool(f, r, p);
    }

    function ShardOf(k: Key): (i: nat)
      requires |shards| > 0
    {
      hash(k) % |shards|
    }

    /** One operation on one shard is one step of the cache, and keeps all shards apart. */
    method Perform(i: nat, op: Op, admit: bool) returns (hit: Option<Entry>, found: bool)
      requires Valid() && i < |shards| && (OnKey(op) ==> i == ShardOf(op.k))
      modifies `views, `feet, `repr, `past, repr
      ensures Valid() && CacheStep(policy, cap, hash, old(views), i, op, views)
      ensures past == History(old(past.at) + [i], old(past.ops) + [op], old(past.runs) + [views])
      ensures Answers(old(views)[i], op, hit, found) && fresh(repr - old(repr))
      ensures Admits(policy, cap, old(views)[i], op, admit, views[i])
    {
      hide Reaches, Step, Answers, Admits, Disjoint, IsCacheRun;
      FitsAt(i);
      InRepr(feet, pool.free, repr, i);
      ghost var foot, view;
      hit, found, foot, view := Operate(shards, i, op, cap, admit, pool, policy, feet, views, repr);
      assert this !in foot - repr;
      ghost var feet' := feet[i := foot];
      forall j | 0 <= j < |shards|
        ensures this !in feet'[j]
      {
        InRepr(feet', pool.free, repr + foot, j);
      }
      views, feet, repr := views[i := view], feet', repr + foot;
      RunGrows(policy, |shards|, cap, hash, past.at, past.ops, past.runs, i, op, views);
      past := History(past.at + [i], past.ops + [op], past.runs + [views]);
      IndexesReached(shards, feet, policy, views, pool.free, repr);
    }

    lemma FitsAt(i: nat)
      requires Recorded() && |views| == |shards| && i < |shards|
      ensures Fits(cap, views[i])
      ensures IsCacheRun(policy, |shards|, cap, hash, past.at, past.ops, past.runs)
    {
      RunSharded(policy, |shards|, cap, hash, past.at, past.ops, past.runs, |past.ops|);
    }

    /** What the cache holds for a key. */
    ghost function Held(k: Key): (e: Option<Entry>)
      requires |views| > 0
      reads `views
    {
      HeldIn(hash, views, k)
    }

    /** What was last written for the key, and neither deleted nor cleared since. */
    ghost function LastWritten(k: Key): (e: Option<Entry>)
      requires Recorded() && |shards| > 0
      reads `past, `views
    {
      CacheLastWrite(|shards|, hash, past.at, past.ops, |past.ops|, k)
    }

    lemma HeldIsWritten(k: Key)
      requires Recorded() && |views| == |shards| > 0 && k in views[ShardOf(k)].entries
      ensures LastWritten(k) == Some(views[ShardOf(k)].entries[k])
    {
      CacheHoldsLastWrite(policy, |shards|, cap, hash, past.at, past.ops, past.runs, |past.ops|, ShardOf(k), k);
    }

    /** A hit is what was last written for the key, and has not expired. A held key is
        missed only if it has, and only then is anything dropped. */
    method Get(k: Key, now: int) returns (hit: Option<Entry>)
      requires Valid()
      modifies `views, `feet, `repr, `past, repr
      ensures Valid() && fresh(repr - old(repr)) && past.ops == old(past.ops) + [Op.Get(k, now)]
      ensures hit.Some? ==> old(LastWritten(k)) == hit && (hit.value.expire <= 0 || now <= hit.value.expire)
      ensures hit == var e := old(Held(k)); if e.Some? && 0 < e.value.expire < now then None else e
      ensures forall j :: Held(j) == if j == k then hit else old(Held(j))
    {
      hide Reaches, Step, Disjoint, IsCacheRun;
      if k in views[ShardOf(k)].entries {
        HeldIsWritten(k);
      }
      var found;
      hit, found := Perform(ShardOf(k), Op.Get(k, now), true);
      OthersHeld(old(views), Op.Get(k, now));
      ReadHeld(old(views), Op.Get(k, now));
    }

    /** Stores an entry. A new key of a full shard costs one victim its place there, or
        under AdmissionLFU is refused and changes nothing if it is not admitted. */
    method Set(k: Key, e: Entry, now: int, admit: bool)
      requires Valid()
      modifies `views, `feet, `repr, `past, repr
      ensures Valid() && fresh(repr - old(repr)) && past.ops == old(past.ops) + [Op.Set(k, e, now)]
      ensures LastWritten(k) == Some(e) && CacheStep(policy, cap, hash, old(views), ShardOf(k), Op.Set(k, e, now), views)
      ensures var full := old(Held(k)).None? && 0 < cap <= |old(views)[ShardOf(k)].entries|;
        if !full then forall j :: Held(j) == if j == k then Some(e) else old(Held(j))
        else if policy == AdmissionLFU && !admit then forall j :: Held(j) == old(Held(j))
        else exists v :: && v != k && ShardOf(v) == ShardOf(k) && IsVictim(policy, old(views)[ShardOf(k)], v)
                         && forall j :: Held(j) == if j == k then Some(e) else if j == v then None else old(Held(j))
    {
      hide Reaches, Step, Disjoint, IsCacheRun, Sharded, IsVictim;
      KeysInPlace();
      var hit, found := Perform(ShardOf(k), Op.Set(k, e, now), admit);
      WrittenHeld(old(views), Op.Set(k, e, now), admit);
    }

    method Exists(k: Key, now: int) returns (found: bool)
      requires Valid()
      modifies `views, `feet, `repr, `past, repr
      ensures Valid() && fresh(repr - old(repr)) && past.ops == old(past.ops) + [Op.Exists(k, now)]
      ensures found <==> var e := old(Held(k)); e.Some? && !(0 < e.value.expire < now)
      ensures forall j :: Held(j) == if j == k && !found then None else old(Held(j))
    {
      hide Reaches, Step, Disjoint, IsCacheRun;
      var hit;
      hit, found := Perform(ShardOf(k), Op.Exists(k, now), true);
      OthersHeld(old(views), Op.Exists(k, now));
      ReadHeld(old(views), Op.Exists(k, now));
    }

    /** Removes the key and nothing else. */
    method Delete(k: Key) returns (found: bool)
      requires Valid()
      modifies `views, `feet, `repr, `past, repr
      ensures Valid() && fresh(repr - old(repr)) && past.ops == old(past.ops) + [Op.Delete(k)]
      ensures (found <==> old(Held(k)).Some?) && LastWritten(k) == None
      ensures CacheStep(policy, cap, hash, old(views), ShardOf(k), Op.Delete(k), views)
      ensures forall j :: Held(j) == if j == k then None else old(Held(j))
    {
      hide Reaches, Step, Disjoint, IsCacheRun;
      var hit;
      hit, found := Perform(ShardOf(k), Op.Delete(k), true);
      OthersHeld(old(views), Op.Delete(k));
      StepDrops(policy, cap, old(views)[ShardOf(k)], Op.Delete(k), views[ShardOf(k)], k);
    }

    /** Operations that do not write leave other keys alone. */
    lemma OthersHeld(before: seq<State>, op: Op)
      requires |before| > 0 && OnKey(op) && !op.Set? && !op.Import?
      requires CacheStep(policy, cap, hash, before, hash(op.k) % |before|, op, views)
      ensures forall j :: j != op.k ==> HeldIn(hash, views, j) == HeldIn(hash, before, j)
    {
      hide Step, HeldIn;
      forall j | j != op.k
        ensures HeldIn(hash, views, j) == HeldIn(hash, before, j)
      {
        CacheStepHeld(policy, cap, hash, before, hash(op.k) % |before|, op, views, j);
      }
    }

    lemma ReadHeld(before: seq<State>, op: Op)
      requires |before| > 0 && (op.Get? || op.Exists?)
      requires CacheStep(policy, cap, hash, before, hash(op.k) % |before|, op, views)
      ensures HeldIn(hash, views, op.k)
           == var e := HeldIn(hash, before, op.k); if e.Some? && 0 < e.value.expire < op.now then None else e
    {
      hide Step;
      var i, k := hash(op.k) % |before|, op.k;
      if k in before[i].entries {
        StepKeeps(policy, cap, before[i], op, views[i], k);
        if 0 < before[i].entries[k].expire < op.now {
          StepDrops(policy, cap, before[i], op, views[i], k);
        }
      } else if k in views[i].entries {
        StepEntries(policy, cap, before[i], op, views[i], k);
      }
    }

    lemma KeysInPlace()
      requires Recorded() && |views| == |shards|
      ensures Sharded(policy, cap, hash, views)
    {
      RunSharded(policy, |shards|, cap, hash, past.at, past.ops, past.runs, |past.ops|);
    }

    lemma WrittenHeld(before: seq<State>, op: Op, admit: bool)
      requires |before| > 0 && op.Set? && Sharded(policy, cap, hash, before)
      requires CacheStep(policy, cap, hash, before, hash(op.k) % |before|, op, views)
      requires Admits(policy, cap, before[hash(op.k) % |before|], op, admit, views[hash(op.k) % |before|])
      ensures var i := hash(op.k) % |before|;
        var full := HeldIn(hash, before, op.k).None? && 0 < cap <= |before[i].entries|;
        if !full then forall j :: HeldIn(hash, views, j) == if j == op.k then Some(op.e) else HeldIn(hash, before, j)
        else if policy == AdmissionLFU && !admit then forall j :: HeldIn(hash, views, j) == HeldIn(hash, before, j)
        else exists v ::
          && v != op.k && hash(v) % |before| == i && IsVictim(policy, before[i], v)
          && forall j :: HeldIn(hash, views, j)
                      == if j == op.k then Some(op.e) else if j == v then None else HeldIn(hash, before, j)
    {
      hide Step, IsVictim, WellFormed, Fits;
      var i := hash(op.k) % |before|;
      StepHolds(policy, cap, before[i], op, views[i]);
      if op.k !in before[i].entries && 0 < cap <= |before[i].entries| {
        if op.k in views[i].entries {
          var v := StepEvicts(policy, cap, before[i], op, views[i]);
        }
      } else {
        forall j | j != op.k
          ensures HeldIn(hash, views, j) == HeldIn(hash, before, j)
        {
          CacheStepHeld(policy, cap, hash, before, i, op, views, j);
        }
      }
    }

    /** Imports items in order, each under its shard's lock. */
    method Import(items: seq<(Key, Entry)>, now: int)
      requires Valid()
      modifies `views, `feet, `repr, `past, repr
      ensures Valid() && fresh(repr - old(repr)) && past.ops == old(past.ops) + Imports(now, items)
      ensures items != [] ==> Held(items[|items| - 1].0) == Some(items[|items| - 1].1)
    {
      hide Reaches, Step, Disjoint, IsCacheRun;
      for i := 0 to |items|
        invariant Valid() && fresh(repr - old(repr)) && past.ops == old(past.ops) + Imports(now, items[..i])
        invariant i > 0 ==> Held(items[i - 1].0) == Some(items[i - 1].1)
      {
        ghost var before := views;
        var hit, found := Perform(ShardOf(items[i].0), Op.Import(items[i].0, items[i].1, now), true);
        ghost var at := ShardOf(items[i].0);
        StepHolds(policy, cap, before[at], Op.Import(items[i].0, items[i].1, now), views[at]);
        assert Imports(now, items[..i + 1]) == Imports(now, items[..i]) + [Op.Import(items[i].0, items[i].1, now)];
      }
      assert items[..|items|] == items;
    }

    /** Cleans one shard after another. */
    method Cleanup(now: int)
      requires Valid()
      modifies `views, `feet, `repr, `past, repr
      ensures Valid() && fresh(repr - old(repr))
      ensures forall i :: 0 <= i < |shards| ==> views[i] == Clean(old(views)[i], now)
      ensures forall j :: Held(j) == var e := old(Held(j)); if e.Some? && 0 < e.value.expire < now then None else e
    {
      hide Reaches, Disjoint, IsCacheRun, Clean;
      for i := 0 to |shards|
        invariant Valid() && fresh(repr - old(repr))
        invariant forall j :: 0 <= j < |shards| ==> views[j] == if j < i then Clean(old(views)[j], now) else old(views)[j]
      {
        var hit, found := Perform(i, Op.Cleanup(now), true);
      }
      forall j
        ensures Held(j) == var e := old(Held(j)); if e.Some? && 0 < e.value.expire < now then None else e
      {
        CleanEntries(old(views)[ShardOf(j)], now);
      }
    }

    /** Empties one shard after another. */
    method Clear()
      requires Valid()
      modifies `views, `feet, `repr, `past, repr
      ensures Valid() && fresh(repr - old(repr)) && forall i :: 0 <= i < |shards| ==> views[i] == EMPTY
      ensures forall j :: Held(j) == None
    {
      hide Reaches, Disjoint, IsCacheRun;
      for i := 0 to |shards|
        invariant Valid() && fresh(repr - old(repr)) && forall j :: 0 <= j < i ==> views[j] == EMPTY
      {
        var hit, found := Perform(i, Op.Clear, true);
      }
    }

    /** Adds up the shards' counters: the number of keys held, never above the limit. */
    method Size() returns (total: int)
      requires Valid()
      ensures total == |KeysOf(views)| && (maxSize > 0 ==> total <= maxSize)
    {
      hide Reaches, Disjoint, IsCacheRun, KeysOf, Apart;
      Limited();
      NoKeys();
      total := 0;
      for i := 0 to |shards|
        invariant total == |KeysOf(views[..i])|
      {
        SizeStep(views, i);
        SizeOf(shards[i], feet[i], policy, views[i]);
        total := total + shards[i].size;
      }
      assert views[..|shards|] == views;
    }

    lemma Limited()
      requires Recorded() && Bounded() && |views| == |shards|
      ensures Apart(views) && (maxSize > 0 ==> |KeysOf(views)| <= maxSize)
    {
      hide IsCacheRun, Apart, KeysOf;
      if maxSize > 0 {
        SizeNeverExceedsMax(policy, |shards|, cap, maxSize, hash, past.at, past.ops, past.runs, |past.ops|);
      }
      RunSharded(policy, |shards|, cap, hash, past.at, past.ops, past.runs, |past.ops|);
      ShardedApart(policy, cap, hash, views);
    }
  }

  ghost function Imports(now: int, items: seq<(Key, Entry)>): (ops: seq<Op>) {
    seq(|items|, i requires 0 <= i < |items| => Op.Import(items[i].0, items[i].1, now))
  }

  lemma SizeOf(s: Shard, foot: set<object>, policy: Policy, view: State)
    requires Reaches(s, foot, policy, view)
    ensures s.size == |view.entries|
  {
    hide Shard.Valid;
    s.Sized();
  }

  ghost function NoEntries(n: nat): (c: seq<State>)
    ensures |c| == n && forall i :: 0 <= i < n ==> c[i] == EMPTY
  {
    seq(n, i => EMPTY)
  }

  lemma NewRun(policy: Policy, n: nat, cap: int, hash: Key -> nat)
    ensures IsCacheRun(policy, n, cap, hash, [], [], [NoEntries(n)])
  {
  }

  lemma OnePool(feet: seq<set<object>>, repr: set<object>, pool: Pool)
    requires Disjoint(feet, {}, repr)
    ensures Disjoint(feet, {}, repr + {pool})
  {
  }

  lemma InRepr(feet: seq<set<object>>, free: set<object>, repr: set<object>, i: nat)
    requires Disjoint(feet, free, repr) && i < |feet|
    ensures feet[i] <= repr && free <= repr
  {
  }

  lemma IndexesReached(
    shards: seq<Shard>, feet: seq<set<object>>, policy: Policy, views: seq<State>, free: set<object>, repr: set<object>)
    requires |shards| == |feet| == |views| && Disjoint(feet, free, repr)
    requires forall i :: 0 <= i < |shards| ==> Reaches(shards[i], feet[i], policy, views[i])
    ensures forall i :: 0 <= i < |shards| ==> shards[i].lfu in repr
  {
    hide Reaches;
    forall i | 0 <= i < |shards|
      ensures shards[i].lfu in repr
    {
      IndexReached(shards[i], feet[i], policy, views[i]);
    }
  }

  lemma IndexReached(s: Shard, foot: set<object>, policy: Policy, view: State)
    requires Reaches(s, foot, policy, view)
    ensures s.lfu in foot
  {
  }
}
