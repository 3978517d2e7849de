/** What a shard of the cache means: the keys in list order and what each holds.
    Which key is evicted is left open as far as the policy leaves it open. */
module CacheSpec {
  import opened Wrappers

  datatype Policy = LRU | LFU | FIFO | AdmissionLFU

  datatype Entry = Entry(value: Value, expire: int)

  /** How often a key was used and when last. */
  datatype Heat = Heat(freq: int, last: int)

  /** `uses` counts the uses of each key since its last write; only LFU keeps it. Only
      AdmissionLFU keeps `heat`. */
  datatype State = State(order: seq<Key>, entries: map<Key, Entry>, uses: map<Key, nat>, heat: map<Key, Heat>)

  const EMPTY := State([], map[], map[], map[])
  const SAMPLE := 5   // how many keys AdmissionLFU looks at to find a victim

  predicate Stale(e: Entry, now: int) { e.expire > 0 && now > e.expire }

  function Erase(s: seq<Key>, k: Key): (r: seq<Key>) {
    if s == [] then [] else if s[0] == k then s[1..] else [s[0]] + Erase(s[1..], k)
  }

  function Remove(s: State, k: Key): (r: State) {
    State(Erase(s.order, k), s.entries - {k}, s.uses - {k}, s.heat - {k})
  }

  /** Under LRU a use moves the key to the front; no other policy moves it. */
  function Use(policy: Policy, order: seq<Key>, k: Key): (r: seq<Key>) {
    if policy == LRU then [k] + Erase(order, k) else order
  }

  function Counted(policy: Policy, uses: map<Key, nat>, k: Key): (r: map<Key, nat>) {
    if policy == LFU then uses[k := if k in uses then uses[k] + 1 else 1] else uses
  }

  function Warmed(policy: Policy, heat: map<Key, Heat>, k: Key, h: Heat): (r: map<Key, Heat>) {
    if policy == AdmissionLFU then heat[k := h] else heat
  }

  function Heated(policy: Policy, heat: map<Key, Heat>, k: Key, now: int): (r: map<Key, Heat>) {
    Warmed(policy, heat, k, Heat(if k in heat then heat[k].freq + 1 else 1, now))
  }

  /** Colder keys go first: used less, or as often but not more recently. */
  predicate Colder(a: Heat, b: Heat) { a.freq < b.freq || (a.freq == b.freq && a.last <= b.last) }

  /** A read drops a stale entry and otherwise counts as a use. */
  function Read(policy: Policy, s: State, k: Key, now: int): (r: State) {
    if k !in s.entries then s
    else if Stale(s.entries[k], now) then Remove(s, k)
    else s.(order := Use(policy, s.order, k), uses := Counted(policy, s.uses, k),
            heat := Heated(policy, s.heat, k, now))
  }

  function Put(policy: Policy, s: State, k: Key, e: Entry, now: int): (r: State) {
    State(if k in s.entries then Use(policy, s.order, k) else [k] + s.order,
          s.entries[k := e],
          if policy == LFU then s.uses[k := 1] else s.uses,
          Warmed(policy, s.heat, k, Heat(1, now)))
  }

  /** `v` is the coldest key of a sample. */
  ghost predicate Coldest(heat: map<Key, Heat>, sample: set<Key>, v: Key) {
    v in sample && sample <= heat.Keys && forall k :: k in sample ==> Colder(heat[v], heat[k])
  }

  ghost predicate IsVictim(policy: Policy, s: State, v: Key) {
    && v in s.entries
    && (policy == LRU || policy == FIFO ==> s.order != [] && v == s.order[|s.order| - 1])
    && (policy == LFU ==> v in s.uses && forall k :: k in s.uses ==> s.uses[v] <= s.uses[k])
    && (policy == AdmissionLFU ==>
          exists sample :: |sample| == Min(SAMPLE, |s.entries|) && Coldest(s.heat, sample, v))
  }

  /** A write to a full shard evicts one victim first; only a Set under AdmissionLFU
      may be refused instead. */
  ghost predicate Written(policy: Policy, cap: int, s: State, k: Key, e: Entry, now: int, refusable: bool, s': State) {
    if k in s.entries || cap <= 0 || |s.entries| < cap then s' == Put(policy, s, k, e, now)
    else
      || (exists v :: IsVictim(policy, s, v) && s' == Put(policy, Remove(s, v), k, e, now))
      || (refusable && policy == AdmissionLFU && s' == s)
  }

  /** `s'` is `s` after evicting victims, one after another, until there is room. */
  ghost predicate Evicts(policy: Policy, cap: int, s: State, s': State)
    decreases |s.entries|
  {
    if |s.entries| < cap then s' == s
    else exists v :: IsVictim(policy, s, v) && (RemoveSize(s, v); Evicts(policy, cap, Remove(s, v), s'))
  }

  /** From within the cap at most one victim goes, so that is a write that is never refused. */
  lemma EvictsWrites(policy: Policy, cap: int, s: State, s1: State, k: Key, e: Entry, now: int)
    requires 0 < cap && |s.entries| <= cap && k !in s.entries && Evicts(policy, cap, s, s1)
    ensures Written(policy, cap, s, k, e, now, false, Put(policy, s1, k, e, now))
  {
    hide Put, Remove;
    if |s.entries| == cap {
      var v :| IsVictim(policy, s, v) && Evicts(policy, cap, Remove(s, v), s1);
      RemoveSize(s, v);
    }
  }

  function Fresh(entries: map<Key, Entry>, now: int): (r: map<Key, Entry>) {
    map k | k in entries && !Stale(entries[k], now) :: entries[k]
  }

  function KeepIn(s: seq<Key>, keep: map<Key, Entry>): (r: seq<Key>) {
    if s == [] then [] else if s[0] in keep then [s[0]] + KeepIn(s[1..], keep) else KeepIn(s[1..], keep)
  }

  /** The state with only the entries of `keep` left. */
  function Restrict(s: State, keep: map<Key, Entry>): (r: State) {
    State(KeepIn(s.order, keep), keep, map k | k in s.uses && k in keep :: s.uses[k],
          map k | k in s.heat && k in keep :: s.heat[k])
  }

  /** Aging halves a frequency, but not below one. */
  function Cooled(h: Heat): (r: Heat) { if h.freq > 1 then Heat(h.freq / 2, h.last) else h }

  function CooledBut(heat: map<Key, Heat>, except: set<Key>): (r: map<Key, Heat>) {
    map k | k in heat :: if k in except then heat[k] else Cooled(heat[k])
  }

  /** A cleanup drops the stale entries and ages the others. */
  function Clean(s: State, now: int): (r: State) {
    Restrict(s.(heat := CooledBut(s.heat, {})), Fresh(s.entries, now))
  }

  // ---------------------------------------------------------------- runs

  datatype Op =
    | Get(k: Key, now: int)
    | Exists(k: Key, now: int)
    | Set(k: Key, e: Entry, now: int)
    | Import(k: Key, e: Entry, now: int)
    | Delete(k: Key)
    | Cleanup(now: int)
    | Clear

  ghost predicate Step(policy: Policy, cap: int, s: State, op: Op, s': State) {
    match op
    case Get(k, now) => s' == Read(policy, s, k, now)
    case Exists(k, now) => s' == if k in s.entries && Stale(s.entries[k], now) then Remove(s, k) else s
    case Set(k, e, now) => Written(policy, cap, s, k, e, now, true, s')
    case Import(k, e, now) => Written(policy, cap, s, k, e, now, false, s')
    case Delete(k) => s' == Remove(s, k)
    case Cleanup(now) => s' == Clean(s, now)
    case Clear => s' == EMPTY
  }

  /** `states` is a run of `ops` from an empty shard. */
  ghost predicate IsRun(policy: Policy, cap: int, ops: seq<Op>, states: seq<State>) {
    && |states| == |ops| + 1 && states[0] == EMPTY
    && forall i :: 0 <= i < |ops| ==> Step(policy, cap, states[i], ops[i], states[i + 1])
  }

  ghost predicate WellFormed(policy: Policy, s: State) {
    && Distinct(s.order)
    && (forall k :: k in s.order <==> k in s.entries)
    && s.uses.Keys == (if policy == LFU then s.entries.Keys else {})
    && s.heat.Keys == (if policy == AdmissionLFU then s.entries.Keys else {})
  }

  ghost predicate Fits(cap: int, s: State) { cap > 0 ==> |s.entries| <= cap }

  lemma {:induction false} EraseFacts(s: seq<Key>, k: Key)
    requires Distinct(s)
    ensures Distinct(Erase(s, k))
    ensures forall j :: j in Erase(s, k) <==> j in s && j != k
  {
    if s != [] {
      assert s[0] !in s[1..];
      EraseFacts(s[1..], k);
    }
  }

  lemma {:induction false} KeepFacts(s: seq<Key>, keep: map<Key, Entry>)
    requires Distinct(s)
    ensures Distinct(KeepIn(s, keep))
    ensures forall j :: j in KeepIn(s, keep) <==> j in s && j in keep
  {
    if s != [] {
      assert s[0] !in s[1..];
      KeepFacts(s[1..], keep);
    }
  }

  lemma {:induction false} KeepAll(s: seq<Key>, keep: map<Key, Entry>)
    requires forall k :: k in s ==> k in keep
    ensures KeepIn(s, keep) == s
  {
    if s != [] {
      KeepAll(s[1..], keep);
    }
  }

  lemma RestrictAll(policy: Policy, s: State)
    requires WellFormed(policy, s)
    ensures Restrict(s, s.entries) == s
  {
    hide KeepIn, Distinct;
    KeepAll(s.order, s.entries);
    assert (map k | k in s.uses && k in s.entries :: s.uses[k]) == s.uses;
    assert (map k | k in s.heat && k in s.entries :: s.heat[k]) == s.heat;
  }

  lemma {:induction false} EraseKept(s: seq<Key>, keep: map<Key, Entry>, k: Key)
    requires Distinct(s)
    ensures Erase(KeepIn(s, keep), k) == KeepIn(s, keep - {k})
  {
    if s != [] {
      EraseKept(s[1..], keep, k);
      if s[0] == k {
        KeepWithout(s[1..], keep, k);
      }
    }
  }

  lemma {:induction false} KeepWithout(s: seq<Key>, keep: map<Key, Entry>, k: Key)
    requires k !in s
    ensures KeepIn(s, keep) == KeepIn(s, keep - {k})
  {
    if s != [] {
      KeepWithout(s[1..], keep, k);
    }
  }

  /** Deleting keys one by one is restricting to the rest. */
  lemma RestrictRemove(s: State, keep: map<Key, Entry>, k: Key)
    requires Distinct(s.order)
    ensures Remove(Restrict(s, keep), k) == Restrict(s, keep - {k})
  {
    hide Erase, KeepIn;
    EraseKept(s.order, keep, k);
  }

  lemma RemoveSize(s: State, k: Key)
    ensures |Remove(s, k).entries| == |s.entries| - if k in s.entries then 1 else 0
  {
    assert (s.entries - {k}).Keys == s.entries.Keys - {k};
  }

  lemma RemoveWellFormed(policy: Policy, s: State, k: Key)
    requires WellFormed(policy, s)
    ensures WellFormed(policy, Remove(s, k))
  {
    hide Erase;
    EraseFacts(s.order, k);
    assert (s.uses - {k}).Keys == s.uses.Keys - {k} && (s.entries - {k}).Keys == s.entries.Keys - {k};
    assert (s.heat - {k}).Keys == s.heat.Keys - {k};
  }

  lemma UseWellFormed(policy: Policy, s: State, k: Key, now: int)
    requires WellFormed(policy, s) && k in s.entries
    ensures WellFormed(policy, s.(order := Use(policy, s.order, k), uses := Counted(policy, s.uses, k),
                                  heat := Heated(policy, s.heat, k, now)))
  {
    hide Erase;
    EraseFacts(s.order, k);
  }

  lemma PutSize(policy: Policy, s: State, k: Key, e: Entry, now: int)
    ensures |Put(policy, s, k, e, now).entries| == |s.entries| + if k in s.entries then 0 else 1
  {
    assert s.entries[k := e].Keys == s.entries.Keys + {k};
  }

  lemma PutWellFormed(policy: Policy, s: State, k: Key, e: Entry, now: int)
    requires WellFormed(policy, s)
    ensures WellFormed(policy, Put(policy, s, k, e, now))
  {
    hide Erase;
    if k in s.entries {
      UseWellFormed(policy, s, k, now);
    }
    assert s.entries[k := e].Keys == s.entries.Keys + {k} && s.uses[k := 1].Keys == s.uses.Keys + {k};
    assert s.heat[k := Heat(1, now)].Keys == s.heat.Keys + {k};
  }

  lemma CleanWellFormed(policy: Policy, s: State, now: int)
    requires WellFormed(policy, s)
    ensures WellFormed(policy, Clean(s, now)) && |Clean(s, now).entries| <= |s.entries|
  {
    KeepFacts(s.order, Fresh(s.entries, now));
    SubsetSize(Fresh(s.entries, now).Keys, s.entries.Keys);
  }

  lemma WrittenWellFormed(policy: Policy, cap: int, s: State, k: Key, e: Entry, now: int, refusable: bool, s': State)
    requires WellFormed(policy, s) && Fits(cap, s) && Written(policy, cap, s, k, e, now, refusable, s')
    ensures WellFormed(policy, s') && Fits(cap, s')
  {
    hide WellFormed;
    if k in s.entries || cap <= 0 || |s.entries| < cap {
      PutWellFormed(policy, s, k, e, now);
      PutSize(policy, s, k, e, now);
    } else if s' != s {
      var v :| IsVictim(policy, s, v) && s' == Put(policy, Remove(s, v), k, e, now);
      RemoveWellFormed(policy, s, v);
      PutWellFormed(policy, Remove(s, v), k, e, now);
      RemoveSize(s, v);
      PutSize(policy, Remove(s, v), k, e, now);
    }
  }

  /** Every step keeps the list and the map in agreement and the shard within its cap. */
  lemma StepWellFormed(policy: Policy, cap: int, s: State, op: Op, s': State)
    requires WellFormed(policy, s) && Fits(cap, s) && Step(policy, cap, s, op, s')
    ensures WellFormed(policy, s') && Fits(cap, s')
  {
    hide Written, WellFormed;
    if !op.Cleanup? && !op.Clear? { RemoveSize(s, op.k); }
    match op
    case Get(k, now) =>
      RemoveWellFormed(policy, s, k);
      if k in s.entries { UseWellFormed(policy, s, k, now); }
    case Exists(k, now) => RemoveWellFormed(policy, s, k);
    case Set(k, e, now) => WrittenWellFormed(policy, cap, s, k, e, now, true, s');
    case Import(k, e, now) => WrittenWellFormed(policy, cap, s, k, e, now, false, s');
    case Delete(k) => RemoveWellFormed(policy, s, k);
    case Cleanup(now) => CleanWellFormed(policy, s, now);
    case Clear => EmptyWellFormed(policy);
  }

  lemma EmptyWellFormed(policy: Policy)
    ensures WellFormed(policy, EMPTY)
  {
  }

  lemma {:induction false} RunWellFormed(policy: Policy, cap: int, ops: seq<Op>, states: seq<State>, n: nat)
    requires IsRun(policy, cap, ops, states) && n <= |ops|
    ensures WellFormed(policy, states[n]) && Fits(cap, states[n])
  {
    if n > 0 {
      RunWellFormed(policy, cap, ops, states, n - 1);
      StepWellFormed(policy, cap, states[n - 1], ops[n - 1], states[n]);
    }
  }

  // ---------------------------------------------------------------- what a hit returns

  predicate Writes(op: Op, k: Key) { (op.Set? || op.Import?) && op.k == k }

  /** A Delete of the key, or a Clear, ends the life of what was written for it. */
  predicate Ends(op: Op, k: Key) { (op.Delete? && op.k == k) || op.Clear? }

  /** The entry most recently written for `k` by the first `n` operations and not deleted
      or cleared since, whether or not it was admitted or has been evicted. */
  ghost function LastWrite(ops: seq<Op>, n: nat, k: Key): (r: Option<Entry>)
    requires n <= |ops|
  {
    if n == 0 || Ends(ops[n - 1], k) then None
    else if Writes(ops[n - 1], k) then Some(ops[n - 1].e)
    else LastWrite(ops, n - 1, k)
  }

  lemma WrittenEntries(
    policy: Policy, cap: int, s: State, k: Key, e: Entry, now: int, refusable: bool, s': State, j: Key)
    requires Written(policy, cap, s, k, e, now, refusable, s') && j in s'.entries
    ensures if j == k then s'.entries[j] == e else j in s.entries && s'.entries[j] == s.entries[j]
  {
    hide IsVictim, Use, Erase, Warmed;
  }

  lemma StepEntries(policy: Policy, cap: int, s: State, op: Op, s': State, k: Key)
    requires Step(policy, cap, s, op, s') && k in s'.entries
    ensures !Ends(op, k)
    ensures if Writes(op, k) then s'.entries[k] == op.e else k in s.entries && s'.entries[k] == s.entries[k]
  {
    hide Written, Erase, KeepIn, Heated, CooledBut, Counted, Use;
    if op.Set? || op.Import? {
      WrittenEntries(policy, cap, s, op.k, op.e, op.now, op.Set?, s', k);
    }
  }

  /** In every reachable state, what a shard holds for a key is what was last written
      for it, and that was after the key's last Delete or Clear. */
  lemma {:induction false} HoldsLastWrite(
    policy: Policy, cap: int, ops: seq<Op>, states: seq<State>, n: nat, k: Key)
    requires IsRun(policy, cap, ops, states) && n <= |ops| && k in states[n].entries
    ensures LastWrite(ops, n, k) == Some(states[n].entries[k])
  {
    if n > 0 {
      StepEntries(policy, cap, states[n - 1], ops[n - 1], states[n], k);
      if !Writes(ops[n - 1], k) {
        HoldsLastWrite(policy, cap, ops, states, n - 1, k);
      }
    }
  }

  // ---------------------------------------------------------------- what stays held

  /** A held entry goes only if its key is deleted or the shard cleared, if it is read,
      looked up or cleaned up after its expiry, or if a new key needs room and it is the
      victim; then it alone goes. Otherwise it stays as it is unless it is overwritten. */
  lemma StepKeeps(policy: Policy, cap: int, s: State, op: Op, s': State, j: Key)
    requires Step(policy, cap, s, op, s') && j in s.entries
    ensures j !in s'.entries ==>
      || op.Clear? || (op.Delete? && op.k == j)
      || ((op.Get? || op.Exists?) && op.k == j && 0 < s.entries[j].expire < op.now)
      || (op.Cleanup? && 0 < s.entries[j].expire < op.now)
      || (&& (op.Set? || op.Import?) && op.k !in s.entries && 0 < cap <= |s.entries| && IsVictim(policy, s, j)
          && s'.entries == (s.entries - {j})[op.k := op.e])
    ensures j in s'.entries && !Writes(op, j) ==> s'.entries[j] == s.entries[j]
  {
    hide IsVictim, Use, Erase, KeepIn, Warmed, Heated, CooledBut, Counted;
    if op.Set? || op.Import? {
      WrittenKeeps(policy, cap, s, op.k, op.e, op.now, op.Set?, s', j);
    }
  }

  lemma WrittenKeeps(
    policy: Policy, cap: int, s: State, k: Key, e: Entry, now: int, refusable: bool, s': State, j: Key)
    requires Written(policy, cap, s, k, e, now, refusable, s') && j in s.entries
    ensures j !in s'.entries ==>
      && k !in s.entries && 0 < cap <= |s.entries| && IsVictim(policy, s, j)
      && s'.entries == (s.entries - {j})[k := e]
    ensures j in s'.entries && j != k ==> s'.entries[j] == s.entries[j]
  {
    hide IsVictim, Use, Erase, Warmed;
  }

  /** These reasons do make it go. */
  lemma StepDrops(policy: Policy, cap: int, s: State, op: Op, s': State, j: Key)
    requires Step(policy, cap, s, op, s')
    requires
      || op.Clear? || (op.Delete? && op.k == j)
      || (j in s.entries && (op.Get? || op.Exists?) && op.k == j && 0 < s.entries[j].expire < op.now)
      || (j in s.entries && op.Cleanup? && 0 < s.entries[j].expire < op.now)
    ensures j !in s'.entries
  {
    hide Written, Erase, KeepIn, CooledBut;
  }

  /** A written key is held, with what was written, unless its Set was refused: under
      AdmissionLFU, for a key not held, by a full shard, which then stays as it was. */
  lemma StepHolds(policy: Policy, cap: int, s: State, op: Op, s': State)
    requires Step(policy, cap, s, op, s') && (op.Set? || op.Import?)
    ensures
      || (op.k in s'.entries && s'.entries[op.k] == op.e)
      || (op.Set? && policy == AdmissionLFU && op.k !in s.entries && 0 < cap <= |s.entries| && s' == s)
  {
    hide IsVictim, Use, Erase, Warmed;
  }

  /** A new key that a full shard takes costs exactly one victim its place. */
  lemma StepEvicts(policy: Policy, cap: int, s: State, op: Op, s': State) returns (v: Key)
    requires Step(policy, cap, s, op, s') && (op.Set? || op.Import?)
    requires op.k !in s.entries && 0 < cap <= |s.entries| && op.k in s'.entries
    ensures IsVictim(policy, s, v) && v in s.entries && s'.entries == (s.entries - {v})[op.k := op.e]
  {
    hide IsVictim, Use, Erase, Warmed;
    v :| IsVictim(policy, s, v) && s' == Put(policy, Remove(s, v), op.k, op.e, op.now);
    VictimHeld(policy, s, v);
  }

  lemma VictimHeld(policy: Policy, s: State, v: Key)
    requires IsVictim(policy, s, v)
    ensures v in s.entries
  {
  }

  /** What takes the entry `e` of `k` out of the shard, or keeps it out. */
  ghost predicate Loses(policy: Policy, cap: int, s: State, op: Op, s': State, k: Key, e: Entry) {
    || ((op.Get? || op.Exists?) && op.k == k && 0 < e.expire < op.now)
    || (op.Cleanup? && 0 < e.expire < op.now)
    || (&& (op.Set? || op.Import?) && op.k != k && op.k !in s.entries && 0 < cap <= |s.entries|
        && IsVictim(policy, s, k) && s'.entries == (s.entries - {k})[op.k := op.e])
    || (op.Set? && op.k == k && policy == AdmissionLFU && k !in s.entries && 0 < cap <= |s.entries| && s' == s)
  }

  /** Since the last write of `k`, or by it, its entry `e` was lost. */
  ghost predicate LostSince(policy: Policy, cap: int, ops: seq<Op>, states: seq<State>, n: nat, k: Key, e: Entry)
    requires n <= |ops| && |states| == |ops| + 1
  {
    n > 0 && (|| Loses(policy, cap, states[n - 1], ops[n - 1], states[n], k, e)
              || (!Writes(ops[n - 1], k) && LostSince(policy, cap, ops, states, n - 1, k, e)))
  }

  /** Over every run, a shard holds a key exactly if the key was written, neither deleted
      nor cleared since, and not lost by expiry, eviction or refusal. */
  lemma {:induction false} HeldIff(policy: Policy, cap: int, ops: seq<Op>, states: seq<State>, n: nat, k: Key)
    requires IsRun(policy, cap, ops, states) && n <= |ops|
    ensures k in states[n].entries <==>
      var e := LastWrite(ops, n, k); e.Some? && !LostSince(policy, cap, ops, states, n, k, e.value)
  {
    hide Step, Loses;
    if n > 0 {
      var s, op, s' := states[n - 1], ops[n - 1], states[n];
      HeldIff(policy, cap, ops, states, n - 1, k);
      if k in s.entries {
        HoldsLastWrite(policy, cap, ops, states, n - 1, k);
      }
      if Ends(op, k) {
        StepDrops(policy, cap, s, op, s', k);
      } else if LastWrite(ops, n, k).Some? {
        StepHeldIff(policy, cap, s, op, s', k, LastWrite(ops, n, k).value);
      } else if k in s'.entries {
        StepEntries(policy, cap, s, op, s', k);
      }
    }
  }

  lemma StepHeldIff(policy: Policy, cap: int, s: State, op: Op, s': State, k: Key, e: Entry)
    requires Step(policy, cap, s, op, s') && !Ends(op, k)
    requires if Writes(op, k) then e == op.e else k in s.entries ==> s.entries[k] == e
    ensures k in s'.entries <==> !Loses(policy, cap, s, op, s', k, e) && (Writes(op, k) || k in s.entries)
  {
    hide Step, IsVictim;
    if Writes(op, k) {
      StepHolds(policy, cap, s, op, s');
    } else if k in s.entries {
      StepKeeps(policy, cap, s, op, s', k);
      if Loses(policy, cap, s, op, s', k, e) && !(op.Set? || op.Import?) {
        StepDrops(policy, cap, s, op, s', k);
      }
    } else if k in s'.entries {
      StepEntries(policy, cap, s, op, s', k);
    }
  }

  // ---------------------------------------------------------------- list order over a run

  /** Whether an operation moves `k` to the front: a hit or a write under LRU, the
      write that inserts it under any other policy. */
  predicate Fronts(policy: Policy, s: State, op: Op, s': State, k: Key) {
    match op
    case Get(j, now) => policy == LRU && j == k && k in s.entries && !(0 < s.entries[k].expire < now)
    case Set(j, e, now) => j == k && k in s'.entries && (policy == LRU || k !in s.entries)
    case Import(j, e, now) => j == k && k in s'.entries && (policy == LRU || k !in s.entries)
    case _ => false
  }

  /** When `k` last moved to the front: its last touch under LRU, its insertion
      otherwise. */
  ghost function FrontedAt(policy: Policy, ops: seq<Op>, states: seq<State>, n: nat, k: Key): (t: nat)
    requires n <= |ops| && |states| == |ops| + 1
    ensures t <= n
  {
    if n == 0 then 0
    else if Fronts(policy, states[n - 1], ops[n - 1], states[n], k) then n
    else FrontedAt(policy, ops, states, n - 1, k)
  }

  ghost predicate Descending(s: seq<Key>, t: Key -> int) {
    forall i, j :: 0 <= i < j < |s| ==> t(s[i]) > t(s[j])
  }

  lemma DescendsFrom(x: Key, r: seq<Key>, t: Key -> int)
    requires Descending(r, t) && forall j :: j in r ==> t(x) > t(j)
    ensures Descending([x] + r, t)
  {
  }

  lemma TailDescends(s: seq<Key>, t: Key -> int)
    requires Descending(s, t) && s != []
    ensures Descending(s[1..], t) && forall x :: x in s[1..] ==> x in s && t(s[0]) > t(x)
  {
  }

  lemma {:induction false} EraseDescends(s: seq<Key>, k: Key, t: Key -> int)
    requires Descending(s, t)
    ensures Descending(Erase(s, k), t) && forall j :: j in Erase(s, k) ==> j in s
  {
    hide Descending;
    if s != [] {
      TailDescends(s, t);
      EraseDescends(s[1..], k, t);
      DescendsFrom(s[0], Erase(s[1..], k), t);
    }
  }

  lemma {:induction false} KeepDescends(s: seq<Key>, keep: map<Key, Entry>, t: Key -> int)
    requires Descending(s, t)
    ensures Descending(KeepIn(s, keep), t) && forall j :: j in KeepIn(s, keep) ==> j in s
  {
    hide Descending;
    if s != [] {
      TailDescends(s, t);
      KeepDescends(s[1..], keep, t);
      DescendsFrom(s[0], KeepIn(s[1..], keep), t);
    }
  }

  /** The new order is the old one with keys removed, behind the key that `op` moves
      to the front, if any. */
  ghost predicate Reorders(policy: Policy, s: State, op: Op, s': State, t: Key -> int) {
    if exists k :: Fronts(policy, s, op, s', k) then
      && s'.order != [] && Fronts(policy, s, op, s', s'.order[0]) && Descending(s'.order[1..], t)
      && forall j :: j in s'.order[1..] ==> j in s.order && j != s'.order[0]
    else
      Descending(s'.order, t) && forall j :: j in s'.order ==> j in s.order
  }

  lemma ReordersFront(policy: Policy, s: State, op: Op, s': State, t: Key -> int, k: Key, rest: seq<Key>)
    requires Fronts(policy, s, op, s', k) && s'.order == [k] + rest && Descending(rest, t)
    requires forall j :: j in rest ==> j in s.order && j != k
    ensures Reorders(policy, s, op, s', t)
  {
    assert s'.order[1..] == rest;
  }

  lemma ReordersStay(policy: Policy, s: State, op: Op, s': State, t: Key -> int)
    requires Descending(s'.order, t) && forall j :: j in s'.order ==> j in s.order
    requires forall k :: !Fronts(policy, s, op, s', k)
    ensures Reorders(policy, s, op, s', t)
  {
  }

  lemma WriteReorders(policy: Policy, cap: int, s: State, op: Op, s': State, t: Key -> int)
    requires WellFormed(policy, s) && (op.Set? || op.Import?)
    requires Step(policy, cap, s, op, s') && Descending(s.order, t)
    ensures Reorders(policy, s, op, s', t)
  {
    hide Erase, Descending, Reorders, WellFormed, IsVictim, Warmed;
    var k := op.k;
    if k in s.entries {
      if policy == LRU {
        EraseDescends(s.order, k, t);
        ErasedIn(policy, s, k);
        ReordersFront(policy, s, op, s', t, k, Erase(s.order, k));
      } else {
        ReordersStay(policy, s, op, s', t);
      }
    } else if k !in s'.entries {
      ReordersStay(policy, s, op, s', t);
    } else if cap <= 0 || |s.entries| < cap {
      NotListed(policy, s, k);
      ReordersFront(policy, s, op, s', t, k, s.order);
    } else {
      var v :| IsVictim(policy, s, v) && s' == Put(policy, Remove(s, v), k, op.e, op.now);
      EraseDescends(s.order, v, t);
      NotListed(policy, s, k);
      ReordersFront(policy, s, op, s', t, k, Erase(s.order, v));
    }
  }

  lemma ErasedIn(policy: Policy, s: State, k: Key)
    requires WellFormed(policy, s)
    ensures forall j :: j in Erase(s.order, k) ==> j in s.order && j != k
  {
    EraseFacts(s.order, k);
  }

  /** Removing a key that is not held changes nothing. */
  lemma RemoveAbsent(policy: Policy, s: State, k: Key)
    requires WellFormed(policy, s) && k !in s.entries
    ensures Remove(s, k) == s
  {
    hide Erase;
    NotListed(policy, s, k);
    EraseAbsent(s.order, k);
    assert s.entries - {k} == s.entries && s.uses - {k} == s.uses && s.heat - {k} == s.heat;
  }

  lemma {:induction false} EraseAbsent(s: seq<Key>, k: Key)
    requires k !in s
    ensures Erase(s, k) == s
  {
    if s != [] {
      EraseAbsent(s[1..], k);
    }
  }

  lemma NotListed(policy: Policy, s: State, k: Key)
    requires WellFormed(policy, s) && k !in s.entries
    ensures k !in s.order
  {
  }

  lemma StepReorders(policy: Policy, cap: int, s: State, op: Op, s': State, t: Key -> int)
    requires WellFormed(policy, s) && Step(policy, cap, s, op, s') && Descending(s.order, t)
    ensures Reorders(policy, s, op, s', t)
  {
    hide Erase, Descending, WellFormed, Written, Warmed, CooledBut;
    match op
    case Get(k, now) =>
      EraseDescends(s.order, k, t);
      ErasedIn(policy, s, k);
      if policy == LRU && k in s.entries && !Stale(s.entries[k], now) {
        ReordersFront(policy, s, op, s', t, k, Erase(s.order, k));
      }
    case Exists(k, now) => EraseDescends(s.order, k, t);
    case Set(k, e, now) => WriteReorders(policy, cap, s, op, s', t);
    case Import(k, e, now) => WriteReorders(policy, cap, s, op, s', t);
    case Delete(k) => EraseDescends(s.order, k, t);
    case Cleanup(now) => KeepDescends(s.order, Fresh(s.entries, now), t);
    case Clear => EmptyDescends(t);
  }

  lemma EmptyDescends(t: Key -> int)
    ensures Descending([], t)
  {
  }

  lemma OneFronted(policy: Policy, s: State, op: Op, s': State, j: Key, k: Key)
    requires Fronts(policy, s, op, s', j) && Fronts(policy, s, op, s', k)
    ensures j == k
  {
  }

  lemma ReorderedDescends(policy: Policy, s: State, op: Op, s': State, t: Key -> int, t': Key -> int, n: int)
    requires Reorders(policy, s, op, s', t) && forall k :: t(k) < n
    requires forall k :: t'(k) == if Fronts(policy, s, op, s', k) then n else t(k)
    ensures Descending(s'.order, t')
  {
    hide Fronts;
    if exists k :: Fronts(policy, s, op, s', k) {
      forall i | 0 < i < |s'.order|
        ensures t'(s'.order[i]) == t(s'.order[i]) && s'.order[i] == s'.order[1..][i - 1]
      {
        assert s'.order[i] in s'.order[1..];
        if Fronts(policy, s, op, s', s'.order[i]) {
          OneFronted(policy, s, op, s', s'.order[0], s'.order[i]);
        }
      }
    }
  }

  /** Over any run the list is sorted by the last move to the front: recency of use
      under LRU, insertion under FIFO. */
  lemma {:induction false} OrderedByFronting(policy: Policy, cap: int, ops: seq<Op>, states: seq<State>, n: nat)
    requires IsRun(policy, cap, ops, states) && n <= |ops|
    ensures Descending(states[n].order, k => FrontedAt(policy, ops, states, n, k))
  {
    hide Fronts, Step, Reorders, WellFormed;
    if n > 0 {
      var s, op, s' := states[n - 1], ops[n - 1], states[n];
      var t := k => FrontedAt(policy, ops, states, n - 1, k);
      var t' := k => FrontedAt(policy, ops, states, n, k);
      OrderedByFronting(policy, cap, ops, states, n - 1);
      RunWellFormed(policy, cap, ops, states, n - 1);
      assert Descending(s.order, t);
      StepReorders(policy, cap, s, op, s', t);
      ReorderedDescends(policy, s, op, s', t, t', n);
      assert Descending(s'.order, t');
    }
  }

  /** So the victim is the key whose last touch (LRU) or insertion (FIFO) is oldest. */
  lemma VictimIsOldest(policy: Policy, cap: int, ops: seq<Op>, states: seq<State>, n: nat, v: Key, k: Key)
    requires IsRun(policy, cap, ops, states) && n <= |ops| && (policy == LRU || policy == FIFO)
    requires IsVictim(policy, states[n], v) && k in states[n].entries
    ensures FrontedAt(policy, ops, states, n, v) <= FrontedAt(policy, ops, states, n, k)
  {
    RunWellFormed(policy, cap, ops, states, n);
    OrderedByFronting(policy, cap, ops, states, n);
    var i :| 0 <= i < |states[n].order| && states[n].order[i] == k;
  }

  // ---------------------------------------------------------------- use counts over a run

  /** Uses of `k` since it was last written, the write included. */
  ghost function UseCount(ops: seq<Op>, states: seq<State>, n: nat, k: Key): (c: nat)
    requires n <= |ops| && |states| == |ops| + 1
  {
    if n == 0 then 0
    else if Writes(ops[n - 1], k) then 1
    else UseCount(ops, states, n - 1, k) + if Hits(states[n - 1], ops[n - 1], k) then 1 else 0
  }

  predicate Hits(s: State, op: Op, k: Key) {
    op.Get? && op.k == k && k in s.entries && !(0 < s.entries[k].expire < op.now)
  }

  lemma StepUses(cap: int, s: State, op: Op, s': State, k: Key)
    requires WellFormed(LFU, s) && Step(LFU, cap, s, op, s') && k in s'.entries && k in s'.uses
    ensures if Writes(op, k) then s'.uses[k] == 1
            else k in s.uses && s'.uses[k] == s.uses[k] + if Hits(s, op, k) then 1 else 0
  {
    hide IsVictim, Erase, KeepIn, Use;
  }

  /** Under LFU the recorded count of a cached key is its use count, so the victim is
      a least used key. */
  lemma {:induction false} UsesAreCounted(cap: int, ops: seq<Op>, states: seq<State>, n: nat, k: Key)
    requires IsRun(LFU, cap, ops, states) && n <= |ops| && k in states[n].entries
    ensures k in states[n].uses && states[n].uses[k] == UseCount(ops, states, n, k)
  {
    RunWellFormed(LFU, cap, ops, states, n);
    if n > 0 {
      RunWellFormed(LFU, cap, ops, states, n - 1);
      StepUses(cap, states[n - 1], ops[n - 1], states[n], k);
      if !Writes(ops[n - 1], k) {
        UsesAreCounted(cap, ops, states, n - 1, k);
      }
    }
  }

  lemma LfuVictimIsLeastUsed(cap: int, ops: seq<Op>, states: seq<State>, n: nat, v: Key, k: Key)
    requires IsRun(LFU, cap, ops, states) && n <= |ops|
    requires IsVictim(LFU, states[n], v) && k in states[n].entries
    ensures UseCount(ops, states, n, v) <= UseCount(ops, states, n, k)
  {
    UsesAreCounted(cap, ops, states, n, v);
    UsesAreCounted(cap, ops, states, n, k);
  }

  // ---------------------------------------------------------------- heat over a run

  /** What use and time since its last write make of `k`: every hit counts and is the last
      use, and every cleanup ages it. */
  ghost function HeatAt(ops: seq<Op>, states: seq<State>, n: nat, k: Key): (h: Heat)
    requires n <= |ops| && |states| == |ops| + 1
  {
    if n == 0 then Heat(0, 0)
    else if Writes(ops[n - 1], k) then Heat(1, ops[n - 1].now)
    else
      var h := HeatAt(ops, states, n - 1, k);
      if Hits(states[n - 1], ops[n - 1], k) then Heat(h.freq + 1, ops[n - 1].now)
      else if ops[n - 1].Cleanup? && h.freq > 1 then Heat(h.freq / 2, h.last)
      else h
  }

  lemma StepHeat(cap: int, s: State, op: Op, s': State, k: Key)
    requires WellFormed(AdmissionLFU, s) && Step(AdmissionLFU, cap, s, op, s') && k in s'.entries && k in s'.heat
    ensures if Writes(op, k) then s'.heat[k] == Heat(1, op.now)
            else && k in s.heat
                 && var h := s.heat[k];
                    s'.heat[k] == if Hits(s, op, k) then Heat(h.freq + 1, op.now)
                                  else if op.Cleanup? && h.freq > 1 then Heat(h.freq / 2, h.last)
                                  else h
  {
    hide IsVictim, Erase, KeepIn, Use;
  }

  lemma {:induction false} HeatIsRecorded(cap: int, ops: seq<Op>, states: seq<State>, n: nat, k: Key)
    requires IsRun(AdmissionLFU, cap, ops, states) && n <= |ops| && k in states[n].entries
    ensures k in states[n].heat && states[n].heat[k] == HeatAt(ops, states, n, k)
  {
    hide Step;
    RunWellFormed(AdmissionLFU, cap, ops, states, n);
    if n > 0 {
      RunWellFormed(AdmissionLFU, cap, ops, states, n - 1);
      StepHeat(cap, states[n - 1], ops[n - 1], states[n], k);
      StepEntries(AdmissionLFU, cap, states[n - 1], ops[n - 1], states[n], k);
      if !Writes(ops[n - 1], k) {
        HeatIsRecorded(cap, ops, states, n - 1, k);
      }
    }
  }

  /** Under AdmissionLFU the victim is the coldest of some five keys, or of all keys if
      there are no more. */
  lemma AdmissionVictimIsColdest(cap: int, ops: seq<Op>, states: seq<State>, n: nat, v: Key) returns (sample: set<Key>)
    requires IsRun(AdmissionLFU, cap, ops, states) && n <= |ops| && IsVictim(AdmissionLFU, states[n], v)
    ensures v in sample && sample <= states[n].entries.Keys
    ensures |sample| == if |states[n].entries| < 5 then |states[n].entries| else 5
    ensures |states[n].entries| <= 5 ==> sample == states[n].entries.Keys
    ensures forall k :: k in sample ==>
      var a, b := HeatAt(ops, states, n, v), HeatAt(ops, states, n, k);
      a.freq < b.freq || (a.freq == b.freq && a.last <= b.last)
  {
    hide Step;
    var s := states[n];
    sample :| |sample| == Min(SAMPLE, |s.entries|) && Coldest(s.heat, sample, v);
    RunWellFormed(AdmissionLFU, cap, ops, states, n);
    forall k | k in sample
      ensures s.heat[k] == HeatAt(ops, states, n, k)
    {
      HeatIsRecorded(cap, ops, states, n, k);
    }
    if k :| k in s.entries && k !in sample {
      SubsetSize(sample, s.entries.Keys - {k});
    }
  }
}
