/** A replica under last-writer-wins: local writes and the handlers of replicated
    writes, over a store with no capacity limit. Each handler is one atomic step, and
    the codecs are parameters. */
module Lww {
  import opened Hlc
  import opened Wrappers

  /** Size limits (0 for none), whether versions are compared, and the codecs. */
  datatype Config = Config(
    maxKey: int, maxValue: int, lww: bool,
    key: Bytes -> Option<Key>, inflate: (Bytes, bool) -> Option<Bytes>, value: Bytes -> Option<Value>)

  datatype SetMsg = SetMsg(key: Bytes, val: Bytes, cp: bool, exp: int, ver: uint64)
  datatype DelMsg = DelMsg(key: Bytes, ver: uint64)
  datatype Entry = Entry(value: Value, exp: int)
  datatype Replica = Replica(store: map<Key, Entry>, version: map<Bytes, uint64>, clock: Clock)

  function VersionOf(r: Replica, k: Bytes): (v: uint64) { if k in r.version then r.version[k] else 0 }

  predicate KeyFits(c: Config, k: Bytes) { c.maxKey <= 0 || |k| <= c.maxKey }

  predicate ValueFits(c: Config, v: Bytes) { c.maxValue <= 0 || |v| <= c.maxValue }

  /** The message's value bytes, if within the limits before and after inflating. */
  function Payload(c: Config, m: SetMsg): (b: Option<Bytes>) {
    if !ValueFits(c, m.val) then None
    else
      var b := c.inflate(m.val, m.cp);
      if b.Some? && ValueFits(c, b.value) then b else None
  }

  function Record(c: Config, r: Replica, k: Bytes, ver: uint64, now: int64): (r': Replica) {
    if c.lww then r.(version := r.version[k := ver], clock := AfterObserve(r.clock, ver, now)) else r
  }

  function ApplySet(c: Config, r: Replica, m: SetMsg, now: int64): (res: (Replica, bool)) {
    if !KeyFits(c, m.key) || Payload(c, m).None? || c.key(m.key).None? then (r, false)
    else if c.lww && VersionOf(r, m.key) > m.ver then (r, true)
    else if c.value(Payload(c, m).value).None? then (r, false)
    else
      var e := Entry(c.value(Payload(c, m).value).value, m.exp);
      (Record(c, r.(store := r.store[c.key(m.key).value := e]), m.key, m.ver, now), true)
  }

  function ApplyDel(c: Config, r: Replica, m: DelMsg, now: int64): (res: (Replica, bool)) {
    if !KeyFits(c, m.key) || c.key(m.key).None? then (r, false)
    else if c.lww && VersionOf(r, m.key) > m.ver then (r, true)
    else
      var k := c.key(m.key).value;
      (Record(c, r.(store := r.store - {k}), m.key, m.ver, now), k in r.store)
  }

  // ---------------------------------------------------------------- messages

  datatype Msg = Set(put: SetMsg) | Del(del: DelMsg)

  function MsgKey(m: Msg): (k: Bytes) { if m.Set? then m.put.key else m.del.key }

  function MsgVer(m: Msg): (v: uint64) { if m.Set? then m.put.ver else m.del.ver }

  predicate Sound(c: Config, m: SetMsg) {
    KeyFits(c, m.key) && c.key(m.key).Some? && Payload(c, m).Some? && c.value(Payload(c, m).value).Some?
  }

  predicate Acceptable(c: Config, m: Msg) {
    if m.Set? then Sound(c, m.put) else KeyFits(c, m.del.key) && c.key(m.del.key).Some?
  }

  /** What an acceptable message makes of its key. */
  function Effect(c: Config, m: Msg): (e: Option<Entry>)
    requires Acceptable(c, m)
  {
    if m.Set? then Some(Entry(c.value(Payload(c, m.put).value).value, m.put.exp)) else None
  }

  function Apply(c: Config, r: Replica, m: Msg, now: int64): (r': Replica) {
    if m.Set? then ApplySet(c, r, m.put, now).0 else ApplyDel(c, r, m.del, now).0
  }

  function ApplyAll(c: Config, r: Replica, ms: seq<Msg>, nows: seq<int64>): (r': Replica)
    requires |ms| == |nows|
  {
    if ms == [] then r
    else
      var n := |ms| - 1;
      Apply(c, ApplyAll(c, r, ms[..n], nows[..n]), ms[n], nows[n])
  }

  function Sets(items: seq<SetMsg>): (ms: seq<Msg>)
    ensures |ms| == |items| && forall i :: 0 <= i < |items| ==> ms[i] == Set(items[i])
  {
    seq(|items|, i requires 0 <= i < |items| => Set(items[i]))
  }

  /** How many items precede the first unsound one. */
  function SoundPrefix(c: Config, items: seq<SetMsg>): (n: nat)
    ensures n <= |items| && (forall i :: 0 <= i < n ==> Sound(c, items[i]))
    ensures n < |items| ==> !Sound(c, items[n])
  {
    if items == [] || !Sound(c, items[0]) then 0 else 1 + SoundPrefix(c, items[1..])
  }

  /** A bulk whose items are all sound is applied item by item. At an unsound item the
      handler gives up: what it recorded stays, but nothing is stored. */
  function ApplyBulk(c: Config, r: Replica, items: seq<SetMsg>, nows: seq<int64>): (res: (Replica, bool))
    requires |items| == |nows|
  {
    var n := SoundPrefix(c, items);
    var r' := ApplyAll(c, r, Sets(items[..n]), nows[..n]);
    if n == |items| then (r', true) else (r'.(store := r.store), false)
  }

  // ---------------------------------------------------------------- the handlers

  /** The entries put into a store in order. */
  function Imported(store: map<Key, Entry>, items: seq<(Key, Entry)>): (s: map<Key, Entry>) {
    if items == [] then store
    else
      var last := items[|items| - 1];
      Imported(store, items[..|items| - 1])[last.0 := last.1]
  }

  lemma ImportedMore(store: map<Key, Entry>, items: seq<(Key, Entry)>, k: Key, e: Entry)
    ensures Imported(store, items + [(k, e)]) == Imported(store, items)[k := e]
  {
    assert (items + [(k, e)])[..|items|] == items;
  }

  lemma ApplyMore(c: Config, r: Replica, items: seq<SetMsg>, nows: seq<int64>, i: nat)
    requires |items| == |nows| && i < |items|
    ensures ApplyAll(c, r, Sets(items[..i + 1]), nows[..i + 1])
         == ApplySet(c, ApplyAll(c, r, Sets(items[..i]), nows[..i]), items[i], nows[i]).0
  {
    assert Sets(items[..i + 1])[..i] == Sets(items[..i]) && nows[..i + 1][..i] == nows[..i];
  }

  class Node {
    const config: Config
    var store: map<Key, Entry>
    var version: map<Bytes, uint64>
    const clock: HybridClock

    function State(): (r: Replica)
      reads this, clock
    {
      Replica(store, version, clock.State())
    }

    constructor (config: Config, nodeID: nat)
      ensures this.config == config && clock.Ready() && fresh(clock)
      ensures State() == Replica(map[], map[], Clock(0, 0, nodeID % 256))
    {
      this.config := config;
      store, version := map[], map[];
      clock := new HybridClock(nodeID);
    }

    /** A local Set (with an entry) or Delete; only the key's primary owner stores it. */
    method Write(key: Bytes, k: Key, entry: Option<Entry>, primary: bool, now: int64) returns (ver: uint64)
      requires clock.Ready() && KeyFits(config, key)
      modifies this, clock
      ensures clock.Ready() && State() == Step(config, old(State()), Op.Write(key, k, entry, primary, now))
      ensures ver == Issued(old(State()), now)
    {
      ver := clock.Next(now);
      if primary {
        store := if entry.Some? then store[k := entry.value] else store - {k};
        if config.lww {
          version := version[key := ver];
        }
      }
    }

    method Observe(k: Bytes, ver: uint64, now: int64)
      requires clock.Ready()
      modifies `version, clock
      ensures clock.Ready() && State() == Record(config, old(State()), k, ver, now)
    {
      if config.lww {
        version := version[k := ver];
        clock.Observe(ver, now);
      }
    }

    method RpcSet(m: SetMsg, now: int64) returns (ok: bool)
      requires clock.Ready()
      modifies this, clock
      ensures clock.Ready() && (State(), ok) == ApplySet(config, old(State()), m, now)
    {
      if config.maxKey > 0 && |m.key| > config.maxKey {
        return false;
      }
      if config.maxValue > 0 && |m.val| > config.maxValue {
        return false;
      }
      var vbytes := config.inflate(m.val, m.cp);
      if vbytes.None? {
        return false;
      }
      if config.maxValue > 0 && |vbytes.value| > config.maxValue {
        return false;
      }
      var k := config.key(m.key);
      if k.None? {
        return false;
      }
      if config.lww {
        var known := if m.key in version then version[m.key] else 0;
        if known > m.ver {
          return true;
        }
      }
      var val := config.value(vbytes.value);
      if val.None? {
        return false;
      }
      store := store[k.value := Entry(val.value, m.exp)];
      Observe(m.key, m.ver, now);
      ok := true;
    }

    method RpcDel(m: DelMsg, now: int64) returns (ok: bool)
      requires clock.Ready()
      modifies this, clock
      ensures clock.Ready() && (State(), ok) == ApplyDel(config, old(State()), m, now)
    {
      if config.maxKey > 0 && |m.key| > config.maxKey {
        return false;
      }
      var k := config.key(m.key);
      if k.None? {
        return false;
      }
      if config.lww {
        var known := if m.key in version then version[m.key] else 0;
        if known > m.ver {
          return true;
        }
        Observe(m.key, m.ver, now);
      }
      ok := k.value in store;
      store := store - {k.value};
    }

    /** Checks one item of a bulk; a sound and current one is recorded. */
    method Admit(m: SetMsg, now: int64) returns (sound: bool, item: Option<(Key, Entry)>)
      requires clock.Ready()
      modifies `version, clock
      ensures clock.Ready() && (sound <==> Sound(config, m)) && (item.Some? ==> sound)
      ensures var r := ApplySet(config, old(State()), m, now).0;
        sound ==> version == r.version && clock.State() == r.clock
      ensures !sound ==> version == old(version) && clock.State() == old(clock.State())
      ensures forall st :: sound ==>
        ApplySet(config, old(State()).(store := st), m, now).0.store
        == if item.Some? then st[item.value.0 := item.value.1] else st
    {
      sound, item := false, None;
      if config.maxKey > 0 && |m.key| > config.maxKey {
        return;
      }
      if config.maxValue > 0 && |m.val| > config.maxValue {
        return;
      }
      var k := config.key(m.key);
      if k.None? {
        return;
      }
      var vbytes := config.inflate(m.val, m.cp);
      if vbytes.None? {
        return;
      }
      if config.maxValue > 0 && |vbytes.value| > config.maxValue {
        return;
      }
      var val := config.value(vbytes.value);
      if val.None? {
        return;
      }
      sound := true;
      if config.lww {
        var known := if m.key in version then version[m.key] else 0;
        if known > m.ver {
          return;
        }
      }
      item := Some((k.value, Entry(val.value, m.exp)));
      Observe(m.key, m.ver, now);
    }

    method Import(items: seq<(Key, Entry)>)
      modifies `store
      ensures store == Imported(old(store), items)
    {
      for i := 0 to |items|
        invariant store == Imported(old(store), items[..i])
      {
        assert items[..i + 1][..i] == items[..i];
        store := store[items[i].0 := items[i].1];
      }
      assert items[..|items|] == items;
    }

    /** A backfilled batch: stored, its versions written as they are, and only the last
        of them observed. */
    method ImportBatch(items: seq<Got>, now: int64)
      requires clock.Ready()
      modifies this, clock
      ensures clock.Ready() && State() == ApplyBatch(config, old(State()), items, now)
    {
      Import(Pairs(items));
      if config.lww && items != [] {
        for i := 0 to |items|
          invariant version == Versions(old(version), items[..i])
          modifies `version
        {
          assert items[..i + 1][..i] == items[..i];
          version := version[items[i].key := items[i].ver];
        }
        assert items[..|items|] == items;
        var last := items[|items| - 1].ver;
        if last > 0 {
          clock.Observe(last, now);
        }
      }
    }

    method RpcSetBulk(items: seq<SetMsg>, nows: seq<int64>) returns (ok: bool)
      requires clock.Ready() && |items| == |nows|
      modifies this, clock
      ensures clock.Ready() && (State(), ok) == ApplyBulk(config, old(State()), items, nows)
    {
      hide ApplySet;
      var accepted: seq<(Key, Entry)> := [];
      ghost var r0 := State();
      for i := 0 to |items|
        invariant clock.Ready() && i <= SoundPrefix(config, items) && store == old(store)
        invariant var r := ApplyAll(config, r0, Sets(items[..i]), nows[..i]);
          version == r.version && clock.State() == r.clock && Imported(store, accepted) == r.store
      {
        ghost var r := ApplyAll(config, r0, Sets(items[..i]), nows[..i]);
        SameButStore(config, State(), r, items[i], nows[i]);
        var sound, item := Admit(items[i], nows[i]);
        SoundPrefixIs(config, items, i);
        if !sound {
          return false;
        }
        ApplyMore(config, r0, items, nows, i);
        if item.Some? {
          ImportedMore(store, accepted, item.value.0, item.value.1);
          accepted := accepted + [item.value];
        }
      }
      assert items[..|items|] == items && nows[..|items|] == nows;
      Import(accepted);
      ok := true;
    }
  }

  lemma SoundPrefixIs(c: Config, items: seq<SetMsg>, i: nat)
    requires i < |items| && i <= SoundPrefix(c, items)
    ensures if Sound(c, items[i]) then i < SoundPrefix(c, items) else i == SoundPrefix(c, items)
  {
  }

  /** What a set records does not depend on the store. */
  lemma SameButStore(c: Config, r: Replica, r': Replica, m: SetMsg, now: int64)
    requires r.version == r'.version && r.clock == r'.clock
    ensures var a, b := ApplySet(c, r, m, now).0, ApplySet(c, r', m, now).0;
      a.version == b.version && a.clock == b.clock
    ensures r' == r.(store := r'.store)
  {
  }

  // ---------------------------------------------------------------- convergence

  /** Different bytes never decode to the same key. */
  ghost predicate InjectiveKeys(c: Config) {
    forall a, b :: c.key(a).Some? && c.key(a) == c.key(b) ==> a == b
  }

  /** What a replica knows of one key: its version and what is stored. */
  datatype Cell = Cell(ver: uint64, entry: Option<Entry>)

  function CellOf(c: Config, r: Replica, b: Bytes): (x: Cell)
    requires c.key(b).Some?
  {
    var k := c.key(b).value;
    Cell(VersionOf(r, b), if k in r.store then Some(r.store[k]) else None)
  }

  /** An acceptable message joins its own key's cell and touches no other. */
  lemma ApplyJoins(c: Config, r: Replica, m: Msg, now: int64, b: Bytes)
    requires c.lww && InjectiveKeys(c) && Acceptable(c, m) && c.key(b).Some?
    ensures CellOf(c, Apply(c, r, m, now), b)
         == if b != MsgKey(m) || VersionOf(r, b) > MsgVer(m) then CellOf(c, r, b) else Cell(MsgVer(m), Effect(c, m))
  {
    hide AfterObserve;
  }

  /** A local write at the primary owner sets its key to the issued version and the
      written value and touches no other key; elsewhere it only takes a version. */
  lemma LocalWriteSets(c: Config, r: Replica, op: Op, b: Bytes)
    requires c.lww && InjectiveKeys(c) && op.Write? && KeyFits(c, op.key) && c.key(op.key) == Some(op.k) && c.key(b).Some?
    ensures CellOf(c, Step(c, r, op), b)
         == if b == op.key && op.primary then Cell(Issued(r, op.now), op.entry) else CellOf(c, r, b)
    ensures Step(c, r, op).clock == AfterNext(r.clock, op.now)
  {
    hide AfterNext, Version;
  }

  ghost predicate About(c: Config, m: Msg, b: Bytes) { Acceptable(c, m) && MsgKey(m) == b }

  /** `after` is what the newest of the messages about `b` says, or `before` if that is
      newer than all of them. */
  ghost predicate Newest(c: Config, before: Cell, ms: seq<Msg>, b: Bytes, after: Cell) {
    && after.ver >= before.ver
    && (forall m :: m in ms && About(c, m, b) ==> after.ver >= MsgVer(m))
    && if exists m :: m in ms && About(c, m, b) && MsgVer(m) >= before.ver
       then exists m :: m in ms && About(c, m, b) && after == Cell(MsgVer(m), Effect(c, m))
       else after == before
  }

  lemma {:induction false} AppliedIsNewest(c: Config, r: Replica, ms: seq<Msg>, nows: seq<int64>, b: Bytes)
    requires c.lww && InjectiveKeys(c) && |ms| == |nows| && c.key(b).Some?
    requires forall m :: m in ms ==> Acceptable(c, m)
    ensures Newest(c, CellOf(c, r, b), ms, b, CellOf(c, ApplyAll(c, r, ms, nows), b))
    decreases |ms|
  {
    if ms != [] {
      var n := |ms| - 1;
      var r1 := ApplyAll(c, r, ms[..n], nows[..n]);
      AppliedIsNewest(c, r, ms[..n], nows[..n], b);
      ApplyJoins(c, r1, ms[n], nows[n], b);
      NewestMore(c, CellOf(c, r, b), ms[..n], b, CellOf(c, r1, b), ms[n], CellOf(c, ApplyAll(c, r, ms, nows), b));
      assert ms[..n] + [ms[n]] == ms;
    }
  }

  lemma NewestMore(c: Config, before: Cell, ms: seq<Msg>, b: Bytes, mid: Cell, m: Msg, after: Cell)
    requires Newest(c, before, ms, b, mid) && Acceptable(c, m)
    requires after == if b != MsgKey(m) || mid.ver > MsgVer(m) then mid else Cell(MsgVer(m), Effect(c, m))
    ensures Newest(c, before, ms + [m], b, after)
  {
    hide Effect, Acceptable, MsgVer;
    var ms' := ms + [m];
    assert forall x :: x in ms' <==> x in ms || x == m;
    if after != mid {
      assert m in ms' && About(c, m, b);
    }
  }

  /** In these messages, a key and a version determine the operation. */
  ghost predicate Determined(c: Config, ms: seq<Msg>) {
    forall m, m' :: m in ms && m' in ms && About(c, m, MsgKey(m')) && About(c, m', MsgKey(m)) ==>
      MsgVer(m) == MsgVer(m') ==> Effect(c, m) == Effect(c, m')
  }

  lemma NewestIsUnique(c: Config, before: Cell, ms: seq<Msg>, ms': seq<Msg>, b: Bytes, a: Cell, a': Cell)
    requires Newest(c, before, ms, b, a) && Newest(c, before, ms', b, a')
    requires (forall m :: m in ms <==> m in ms') && Determined(c, ms)
    ensures a == a'
  {
    hide Effect, Acceptable, MsgVer;
    if exists m :: m in ms && About(c, m, b) && MsgVer(m) >= before.ver {
      var m :| m in ms && About(c, m, b) && a == Cell(MsgVer(m), Effect(c, m));
      var m' :| m' in ms' && About(c, m', b) && a' == Cell(MsgVer(m'), Effect(c, m'));
      assert a.ver == a'.ver;
    }
  }

  /** Replicas that agree on a key and take the same set of messages, in any order and
      with any repetition, agree on it afterwards. */
  lemma Convergence(
    c: Config, r: Replica, r': Replica, ms: seq<Msg>, nows: seq<int64>, ms': seq<Msg>, nows': seq<int64>, b: Bytes)
    requires c.lww && InjectiveKeys(c) && |ms| == |nows| && |ms'| == |nows'| && c.key(b).Some?
    requires (forall m :: m in ms <==> m in ms') && (forall m :: m in ms ==> Acceptable(c, m)) && Determined(c, ms)
    requires CellOf(c, r, b) == CellOf(c, r', b)
    ensures CellOf(c, ApplyAll(c, r, ms, nows), b) == CellOf(c, ApplyAll(c, r', ms', nows'), b)
  {
    hide CellOf, ApplyAll, Newest;
    AppliedIsNewest(c, r, ms, nows, b);
    AppliedIsNewest(c, r', ms', nows', b);
    NewestIsUnique(c, CellOf(c, r, b), ms, ms', b,
      CellOf(c, ApplyAll(c, r, ms, nows), b), CellOf(c, ApplyAll(c, r', ms', nows'), b));
  }

  /** The assumption on versions is needed: two sets of one key with one version end in
      whichever came last. */
  lemma TiesDiverge(c: Config, r: Replica, a: SetMsg, b: SetMsg, now: int64)
    requires c.lww && InjectiveKeys(c) && Sound(c, a) && Sound(c, b)
    requires a.key == b.key && a.ver == b.ver && VersionOf(r, a.key) <= a.ver
    ensures CellOf(c, ApplyAll(c, r, [Set(a), Set(b)], [now, now]), a.key)
         == CellOf(c, ApplyAll(c, r, [Set(b), Set(a)], [now, now]), a.key)
        <==> Effect(c, Set(a)) == Effect(c, Set(b))
  {
    hide AfterObserve;
    TwoApplied(c, r, Set(a), Set(b), now);
    TwoApplied(c, r, Set(b), Set(a), now);
    ApplyJoins(c, r, Set(a), now, a.key);
    ApplyJoins(c, r, Set(b), now, a.key);
    ApplyJoins(c, Apply(c, r, Set(a), now), Set(b), now, a.key);
    ApplyJoins(c, Apply(c, r, Set(b), now), Set(a), now, a.key);
  }

  lemma TwoApplied(c: Config, r: Replica, m: Msg, m': Msg, now: int64)
    ensures ApplyAll(c, r, [m, m'], [now, now]) == Apply(c, Apply(c, r, m, now), m', now)
  {
    assert [m, m'][..1] == [m] && [now, now][..1] == [now] && [m][..0] == [] && [now][..0] == [];
    assert ApplyAll(c, r, [m], [now]) == Apply(c, r, m, now);
  }

  // ---------------------------------------------------------------- answers

  /** The value bytes of a set whose key and value are within the limits, before and after
      inflating, and whose key decodes. */
  ghost function Readable(c: Config, m: SetMsg): (b: Option<Bytes>) {
    var b := c.inflate(m.val, m.cp);
    if && (c.maxKey > 0 ==> |m.key| <= c.maxKey) && c.key(m.key).Some? && b.Some?
       && (c.maxValue > 0 ==> |m.val| <= c.maxValue && |b.value| <= c.maxValue)
    then b else None
  }

  /** A set is answered OK exactly if it can be read and either a newer version is known
      or its value decodes. Unless both the answer is OK and no newer version is known,
      nothing changes; then the key holds the value, and with last-writer-wins the version
      is recorded and observed. */
  lemma SetHandled(c: Config, r: Replica, m: SetMsg, now: int64)
    ensures var (r', ok), b := ApplySet(c, r, m, now), Readable(c, m);
      var newer := c.lww && m.key in r.version && r.version[m.key] > m.ver;
      && (ok <==> b.Some? && (newer || c.value(b.value).Some?))
      && (newer || !ok ==> r' == r)
      && (ok && !newer ==>
            && r'.store == r.store[c.key(m.key).value := Entry(c.value(b.value).value, m.exp)]
            && r'.version == (if c.lww then r.version[m.key := m.ver] else r.version)
            && r'.clock == if c.lww then AfterObserve(r.clock, m.ver, now) else r.clock)
  {
    hide AfterObserve;
  }

  /** A delete whose key is too long or does not decode, and one older than what is known,
      changes nothing; the latter is answered OK. Any other removes its key and nothing
      else, and is answered with whether the key was there. */
  lemma DelHandled(c: Config, r: Replica, m: DelMsg, now: int64)
    ensures var (r', ok) := ApplyDel(c, r, m, now);
      var readable := (c.maxKey > 0 ==> |m.key| <= c.maxKey) && c.key(m.key).Some?;
      var newer := c.lww && m.key in r.version && r.version[m.key] > m.ver;
      && (!readable ==> r' == r && !ok) && (readable && newer ==> r' == r && ok)
      && (readable && !newer ==>
            && (ok <==> c.key(m.key).value in r.store) && r'.store == r.store - {c.key(m.key).value}
            && r'.version == (if c.lww then r.version[m.key := m.ver] else r.version)
            && r'.clock == if c.lww then AfterObserve(r.clock, m.ver, now) else r.clock)
  {
    hide AfterObserve;
  }

  /** A bulk is answered OK exactly if every item can be read and decoded. */
  lemma BulkAnswered(c: Config, r: Replica, items: seq<SetMsg>, nows: seq<int64>)
    requires |items| == |nows|
    ensures ApplyBulk(c, r, items, nows).1 <==>
      forall i :: 0 <= i < |items| ==> var b := Readable(c, items[i]); b.Some? && c.value(b.value).Some?
  {
    hide ApplyAll;
    var n := SoundPrefix(c, items);
    assert n < |items| ==> !Sound(c, items[n]);
  }

  /** A replica that answers OK holds that version of the key or a newer one. */
  lemma OkMeansHeld(c: Config, r: Replica, m: Msg, now: int64)
    requires c.lww
    ensures (if m.Set? then ApplySet(c, r, m.put, now).1 else ApplyDel(c, r, m.del, now).1) ==>
      VersionOf(Apply(c, r, m, now), MsgKey(m)) >= MsgVer(m)
  {
  }

  /** A current delete is answered with whether the key was there: deleting an absent
      key is recorded and yet reported as failed. */
  lemma DeleteAnswer(c: Config, r: Replica, m: DelMsg, now: int64)
    requires c.lww && Acceptable(c, Del(m)) && VersionOf(r, m.key) <= m.ver
    ensures ApplyDel(c, r, m, now).1 <==> CellOf(c, r, m.key).entry.Some?
    ensures CellOf(c, ApplyDel(c, r, m, now).0, m.key) == Cell(m.ver, None)
  {
  }

  // ---------------------------------------------------------------- runs of one replica

  datatype Op =
    | Write(key: Bytes, k: Key, entry: Option<Entry>, primary: bool, now: int64)
    | Receive(m: Msg, now: int64)
    | ReceiveBulk(items: seq<SetMsg>, nows: seq<int64>)

  /** The version a local write is given. */
  function Issued(r: Replica, now: int64): (v: uint64) { Version(AfterNext(r.clock, now)) }

  function Step(c: Config, r: Replica, op: Op): (r': Replica) {
    match op
    case Write(key, k, entry, primary, now) =>
      if !KeyFits(c, key) then r
      else
        var r1 := r.(clock := AfterNext(r.clock, now));
        if !primary then r1
        else r1.(store := if entry.Some? then r.store[k := entry.value] else r.store - {k},
                 version := if c.lww then r.version[key := Issued(r, now)] else r.version)
    case Receive(m, now) => Apply(c, r, m, now)
    case ReceiveBulk(items, nows) => if |items| == |nows| then ApplyBulk(c, r, items, nows).0 else r
  }

  /** The clock is in range and has passed every recorded version. */
  ghost predicate Behind(r: Replica) {
    InRange(r.clock) && forall b :: b in r.version ==> RemoteTick(r.version[b]) <= Tick(r.clock)
  }

  ghost predicate Rises(r: Replica, r': Replica) { forall b :: VersionOf(r, b) <= VersionOf(r', b) }

  lemma ApplyRises(c: Config, r: Replica, m: Msg, now: int64)
    requires c.lww
    ensures Rises(r, Apply(c, r, m, now))
  {
    hide AfterObserve;
  }

  lemma RecordBehind(c: Config, r: Replica, k: Bytes, ver: uint64, now: int64, t: int)
    requires c.lww && Behind(r) && Tick(r.clock) <= t && now as int * 256 <= t && RemoteTick(ver) <= t && t + 1 < TICKS
    requires VersionOf(r, k) <= ver
    ensures var r' := Record(c, r, k, ver, now); Behind(r') && Tick(r'.clock) <= t + 1 && Rises(r, r')
  {
    hide AfterObserve, Tick, RemoteTick;
    ObserveIsLamport(r.clock, ver, now);
    TickInRange(AfterObserve(r.clock, ver, now));
  }

  lemma ApplyBehind(c: Config, r: Replica, m: Msg, now: int64, t: int)
    requires c.lww && Behind(r) && Tick(r.clock) <= t && t + 1 < TICKS
    requires now as int * 256 <= t && RemoteTick(MsgVer(m)) <= t
    ensures var r' := Apply(c, r, m, now); Behind(r') && Tick(r'.clock) <= t + 1 && Rises(r, r')
  {
    hide AfterObserve, Tick, RemoteTick, Record;
    if VersionOf(r, MsgKey(m)) <= MsgVer(m) {
      RecordBehind(c, r, MsgKey(m), MsgVer(m), now, t);
      RecordStore(c, r, MsgKey(m), MsgVer(m), now);
    }
  }

  lemma RecordStore(c: Config, r: Replica, k: Bytes, ver: uint64, now: int64)
    ensures forall st :: Record(c, r.(store := st), k, ver, now) == Record(c, r, k, ver, now).(store := st)
  {
  }

  /** No reading or version of the operation is past tick `bound`. */
  ghost predicate Fed(op: Op, bound: int) {
    match op
    case Write(_, _, _, _, now) => now as int * 256 <= bound
    case Receive(m, now) => now as int * 256 <= bound && RemoteTick(MsgVer(m)) <= bound
    case ReceiveBulk(items, nows) =>
      && (forall i :: 0 <= i < |nows| ==> nows[i] as int * 256 <= bound)
      && (forall i :: 0 <= i < |items| ==> RemoteTick(items[i].ver) <= bound)
  }

  /** How often an operation may advance the clock. */
  function Advances(op: Op): (n: nat) { if op.ReceiveBulk? then |op.items| else 1 }

  lemma {:induction false} AllBehind(c: Config, r: Replica, items: seq<SetMsg>, nows: seq<int64>, t: int, n: nat)
    requires c.lww && Behind(r) && Tick(r.clock) <= t && |items| == |nows| && n <= |items| && t + n < TICKS
    requires Fed(ReceiveBulk(items, nows), t)
    ensures var r' := ApplyAll(c, r, Sets(items[..n]), nows[..n]);
      Behind(r') && Tick(r'.clock) <= t + n && Rises(r, r')
  {
    hide Behind, ApplySet, Apply, Tick, RemoteTick;
    if n > 0 {
      AllBehind(c, r, items, nows, t, n - 1);
      var r1 := ApplyAll(c, r, Sets(items[..n - 1]), nows[..n - 1]);
      ApplyBehind(c, r1, Set(items[n - 1]), nows[n - 1], t + n - 1);
      ApplyMoreMsg(c, r, items, nows, n - 1);
    }
  }

  lemma ApplyMoreMsg(c: Config, r: Replica, items: seq<SetMsg>, nows: seq<int64>, i: nat)
    requires |items| == |nows| && i < |items|
    ensures ApplyAll(c, r, Sets(items[..i + 1]), nows[..i + 1])
         == Apply(c, ApplyAll(c, r, Sets(items[..i]), nows[..i]), Set(items[i]), nows[i])
  {
    hide ApplySet;
    ApplyMore(c, r, items, nows, i);
  }

  /** A local write outranks every version recorded on the node. */
  lemma IssuedOutranks(r: Replica, now: int64, b: Bytes)
    requires Behind(r) && (now as int) < MS && Tick(r.clock) + 1 < TICKS
    ensures Issued(r, now) > VersionOf(r, b)
    ensures RemoteTick(Issued(r, now)) == Tick(AfterNext(r.clock, now))
    ensures InRange(AfterNext(r.clock, now)) && Tick(AfterNext(r.clock, now)) > Tick(r.clock)
  {
    var c' := AfterNext(r.clock, now);
    NextIsLamport(r.clock, now);
    TickInRange(c');
    VersionOfTick(c');
    if b in r.version {
      assert r.version[b] as int < (RemoteTick(r.version[b]) + 1) * 256;
    }
  }

  lemma WriteBehind(c: Config, r: Replica, op: Op, t: int)
    requires c.lww && Behind(r) && op.Write? && Tick(r.clock) <= t && t + 1 < TICKS && Fed(op, t)
    ensures var r' := Step(c, r, op); Behind(r') && Tick(r'.clock) <= t + 1 && Rises(r, r')
  {
    hide AfterNext, Tick, RemoteTick, Version;
    IssuedOutranks(r, op.now, op.key);
    NextIsLamport(r.clock, op.now);
  }

  lemma StepBehind(c: Config, r: Replica, op: Op, t: int)
    requires c.lww && Behind(r) && Tick(r.clock) <= t && t + Advances(op) < TICKS && Fed(op, t)
    ensures var r' := Step(c, r, op); Behind(r') && Tick(r'.clock) <= t + Advances(op) && Rises(r, r')
  {
    hide Apply, ApplyAll, Tick, RemoteTick;
    match op
    case Write(_, _, _, _, _) => WriteBehind(c, r, op, t);
    case Receive(m, now) => ApplyBehind(c, r, m, now, t);
    case ReceiveBulk(items, nows) =>
      if |items| == |nows| {
        AllBehind(c, r, items, nows, t, SoundPrefix(c, items));
      }
  }

  ghost predicate IsRun(c: Config, ops: seq<Op>, states: seq<Replica>) {
    && |states| == |ops| + 1
    && states[0].store == map[] && states[0].version == map[] && Valid(states[0].clock) && Tick(states[0].clock) == 0
    && forall i :: 0 <= i < |ops| ==> states[i + 1] == Step(c, states[i], ops[i])
  }

  function TotalAdvances(ops: seq<Op>): (n: nat) {
    if ops == [] then 0 else TotalAdvances(ops[..|ops| - 1]) + Advances(ops[|ops| - 1])
  }

  lemma {:induction false} AdvancesGrow(ops: seq<Op>, n: nat)
    requires n <= |ops|
    ensures TotalAdvances(ops[..n]) <= TotalAdvances(ops)
    decreases |ops| - n
  {
    if n < |ops| {
      AdvancesGrow(ops, n + 1);
      assert ops[..n + 1][..n] == ops[..n];
    } else {
      assert ops[..n] == ops;
    }
  }

  /** The clock readings and versions of the run are far enough from the end of the
      48-bit range. */
  ghost predicate RoomToRun(ops: seq<Op>, bound: nat) {
    bound + TotalAdvances(ops) < TICKS - 1 && forall i :: 0 <= i < |ops| ==> Fed(ops[i], bound)
  }

  lemma {:induction false} RunBehind(c: Config, ops: seq<Op>, states: seq<Replica>, bound: nat, n: nat)
    requires c.lww && IsRun(c, ops, states) && RoomToRun(ops, bound) && n <= |ops|
    ensures Behind(states[n]) && Tick(states[n].clock) <= bound + TotalAdvances(ops[..n])
    ensures n > 0 ==> Rises(states[n - 1], states[n])
  {
    hide Step, Fed, Rises;
    AdvancesGrow(ops, n);
    if n == 0 {
      TickInRange(states[0].clock);
    } else {
      RunBehind(c, ops, states, bound, n - 1);
      assert ops[..n][..n - 1] == ops[..n - 1];
      var t := bound + TotalAdvances(ops[..n - 1]);
      FedMore(ops[n - 1], bound, t);
      StepBehind(c, states[n - 1], ops[n - 1], t);
    }
  }

  lemma FedMore(op: Op, a: int, b: int)
    requires Fed(op, a) && a <= b
    ensures Fed(op, b)
  {
  }

  /** Over any run of local writes and handlers, malformed messages and failed bulks
      included, no key's recorded version falls. */
  lemma {:induction false} VersionsNeverFall(
    c: Config, ops: seq<Op>, states: seq<Replica>, bound: nat, i: nat, j: nat, b: Bytes)
    requires c.lww && IsRun(c, ops, states) && RoomToRun(ops, bound) && i <= j <= |ops|
    ensures VersionOf(states[i], b) <= VersionOf(states[j], b)
    decreases j - i
  {
    hide RoomToRun, Step;
    if i < j {
      VersionsNeverFall(c, ops, states, bound, i, j - 1, b);
      RunBehind(c, ops, states, bound, j);
    }
  }

  /** In any run, each local write is newer than every version recorded on its node. */
  lemma LocalWriteOutranks(c: Config, ops: seq<Op>, states: seq<Replica>, bound: nat, i: nat, b: Bytes)
    requires c.lww && IsRun(c, ops, states) && RoomToRun(ops, bound) && i < |ops| && ops[i].Write?
    ensures Issued(states[i], ops[i].now) > VersionOf(states[i], b)
  {
    hide Step;
    RunBehind(c, ops, states, bound, i);
    AdvancesGrow(ops, i);
    assert Fed(ops[i], bound);
    IssuedOutranks(states[i], ops[i].now, b);
  }

  // ---------------------------------------------------------------- failed bulks

  lemma {:induction false} StaleItems(c: Config, r: Replica, items: seq<SetMsg>, nows: seq<int64>, n: nat)
    requires c.lww && |items| == |nows| && n <= |items|
    requires forall i :: 0 <= i < n ==> Sound(c, items[i]) && VersionOf(r, items[i].key) > items[i].ver
    ensures ApplyAll(c, r, Sets(items[..n]), nows[..n]) == r
  {
    if n > 0 {
      StaleItems(c, r, items, nows, n - 1);
      ApplyMore(c, r, items, nows, n - 1);
    }
  }

  lemma CurrentItemTicks(c: Config, r: Replica, m: SetMsg, now: int64)
    requires c.lww && Sound(c, m) && VersionOf(r, m.key) <= m.ver && InRange(r.clock)
    ensures Tick(ApplySet(c, r, m, now).0.clock) > Tick(r.clock)
  {
    ObserveIsLamport(r.clock, m.ver, now);
  }

  lemma {:induction false} TicksKeep(
    c: Config, r: Replica, items: seq<SetMsg>, nows: seq<int64>, t: int, i: nat, n: nat)
    requires c.lww && Behind(r) && Tick(r.clock) <= t && |items| == |nows| && i <= n <= |items| && t + n < TICKS
    requires Fed(ReceiveBulk(items, nows), t)
    ensures Tick(ApplyAll(c, r, Sets(items[..i]), nows[..i]).clock) <= Tick(ApplyAll(c, r, Sets(items[..n]), nows[..n]).clock)
    decreases n - i
  {
    hide Behind, Tick, RemoteTick, ApplyAll, AfterObserve;
    if i < n {
      TicksKeep(c, r, items, nows, t, i, n - 1);
      AllBehind(c, r, items, nows, t, n - 1);
      ApplyMore(c, r, items, nows, n - 1);
      SetTicks(c, ApplyAll(c, r, Sets(items[..n - 1]), nows[..n - 1]), items[n - 1], nows[n - 1]);
    }
  }

  lemma SetTicks(c: Config, r: Replica, m: SetMsg, now: int64)
    requires c.lww && Behind(r)
    ensures Tick(ApplySet(c, r, m, now).0.clock) >= Tick(r.clock)
  {
    ObserveIsLamport(r.clock, m.ver, now);
  }

  /** A failed bulk changes nothing exactly when every item before the unsound one is
      older than what the replica has recorded. */
  lemma FailedBulkChangesNothingIff(c: Config, r: Replica, items: seq<SetMsg>, nows: seq<int64>, bound: int)
    requires c.lww && Behind(r) && |items| == |nows|
    requires Tick(r.clock) <= bound && bound + |items| < TICKS && Fed(ReceiveBulk(items, nows), bound)
    requires !ApplyBulk(c, r, items, nows).1
    ensures ApplyBulk(c, r, items, nows).0 == r
       <==> forall i :: 0 <= i < SoundPrefix(c, items) ==> VersionOf(r, items[i].key) > items[i].ver
  {
    hide ApplyAll, ApplySet, Fed, Tick, Behind;
    var n := SoundPrefix(c, items);
    var i := FirstCurrent(r, items, n);
    StaleItems(c, r, items, nows, i);
    if i < n {
      ApplyMore(c, r, items, nows, i);
      BehindInRange(r);
      CurrentItemTicks(c, r, items[i], nows[i]);
      TicksKeep(c, r, items, nows, bound, i + 1, n);
    }
  }

  lemma BehindInRange(r: Replica)
    requires Behind(r)
    ensures InRange(r.clock)
  {
  }

  function FirstCurrent(r: Replica, items: seq<SetMsg>, n: nat): (i: nat)
    requires n <= |items|
    ensures i <= n && (forall j :: 0 <= j < i ==> VersionOf(r, items[j].key) > items[j].ver)
    ensures i < n ==> VersionOf(r, items[i].key) <= items[i].ver
  {
    if n == 0 then 0
    else
      var i := FirstCurrent(r, items, n - 1);
      if i < n - 1 || VersionOf(r, items[n - 1].key) <= items[n - 1].ver then i else n
  }

  lemma {:induction false} ItemsRaise(c: Config, r: Replica, items: seq<SetMsg>, nows: seq<int64>, i: nat, n: nat)
    requires c.lww && |items| == |nows| && i < n <= |items| && Sound(c, items[i])
    ensures VersionOf(ApplyAll(c, r, Sets(items[..n]), nows[..n]), items[i].key) >= items[i].ver
  {
    hide ApplyAll, ApplySet;
    var before := ApplyAll(c, r, Sets(items[..n - 1]), nows[..n - 1]);
    ApplyMoreMsg(c, r, items, nows, n - 1);
    if i == n - 1 {
      SoundIsHeld(c, before, items[i], nows[i]);
    } else {
      ItemsRaise(c, r, items, nows, i, n - 1);
      ApplyRises(c, before, Set(items[n - 1]), nows[n - 1]);
    }
  }

  lemma SoundIsHeld(c: Config, r: Replica, m: SetMsg, now: int64)
    requires c.lww && Sound(c, m)
    ensures VersionOf(Apply(c, r, Set(m), now), m.key) >= m.ver
  {
    hide AfterObserve;
  }

  /** A bulk that fails stores nothing, yet records the version of every sound item before
      the unsound one, so that an older write of such a key is refused afterwards though
      the newer value was lost. */
  lemma FailedBulkLosesWrite(
    c: Config, r: Replica, items: seq<SetMsg>, nows: seq<int64>, i: nat, older: SetMsg, now: int64)
    requires c.lww && |items| == |nows| && !ApplyBulk(c, r, items, nows).1 && i < SoundPrefix(c, items)
    requires Sound(c, older) && older.key == items[i].key && older.ver < items[i].ver
    ensures var r1 := ApplyBulk(c, r, items, nows).0;
      && r1.store == r.store && VersionOf(r1, items[i].key) >= items[i].ver
      && ApplySet(c, r1, older, now) == (r1, true)
  {
    hide ApplyAll;
    ItemsRaise(c, r, items, nows, i, SoundPrefix(c, items));
  }

  // ---------------------------------------------------------------- backfilled batches

  /** A decoded item of a backfill page. */
  datatype Got = Got(key: Bytes, k: Key, entry: Entry, ver: uint64)

  function Pairs(items: seq<Got>): (r: seq<(Key, Entry)>) {
    seq(|items|, i requires 0 <= i < |items| => (items[i].k, items[i].entry))
  }

  function Versions(version: map<Bytes, uint64>, items: seq<Got>): (r: map<Bytes, uint64>) {
    if items == [] then version
    else
      var last := items[|items| - 1];
      Versions(version, items[..|items| - 1])[last.key := last.ver]
  }

  function ApplyBatch(c: Config, r: Replica, items: seq<Got>, now: int64): (r': Replica) {
    var stored := r.(store := Imported(r.store, Pairs(items)));
    if !c.lww || items == [] then stored
    else
      var last := items[|items| - 1].ver;
      stored.(version := Versions(r.version, items),
              clock := if last > 0 then AfterObserve(r.clock, last, now) else r.clock)
  }

  /** Item `i` is the last one for its key. */
  ghost predicate Final(items: seq<Got>, i: int) {
    0 <= i < |items| && forall j :: i < j < |items| ==> items[j].key != items[i].key
  }

  lemma {:induction false} VersionsKeys(version: map<Bytes, uint64>, items: seq<Got>, b: Bytes)
    ensures b in Versions(version, items) <==> b in version || exists i :: 0 <= i < |items| && items[i].key == b
    ensures (forall i :: 0 <= i < |items| ==> items[i].key != b) && b in version ==>
      Versions(version, items)[b] == version[b]
  {
    if items != [] {
      var n := |items| - 1;
      VersionsKeys(version, items[..n], b);
      assert forall i :: 0 <= i < n ==> items[..n][i] == items[i];
      if i :| 0 <= i < |items| && items[i].key == b {
        assert i < n ==> items[..n][i].key == b;
      }
    }
  }

  lemma {:induction false} FinalVersion(version: map<Bytes, uint64>, items: seq<Got>, i: nat)
    requires Final(items, i)
    ensures items[i].key in Versions(version, items) && Versions(version, items)[items[i].key] == items[i].ver
  {
    var n := |items| - 1;
    if i < n {
      assert Final(items[..n], i);
      FinalVersion(version, items[..n], i);
    }
  }

  /** Each key of the batch ends up with the version of its last item. */
  lemma VersionsAre(version: map<Bytes, uint64>, items: seq<Got>, b: Bytes)
    ensures b in Versions(version, items) <==> b in version || exists i :: 0 <= i < |items| && items[i].key == b
    ensures (forall i :: 0 <= i < |items| ==> items[i].key != b) && b in version ==>
      Versions(version, items)[b] == version[b]
    ensures forall i :: Final(items, i) && items[i].key == b ==> Versions(version, items)[b] == items[i].ver
  {
    hide Versions;
    VersionsKeys(version, items, b);
    forall i | Final(items, i) && items[i].key == b
      ensures Versions(version, items)[b] == items[i].ver
    {
      FinalVersion(version, items, i);
    }
  }

  lemma {:induction false} FinalExists(items: seq<Got>, i: nat) returns (j: nat)
    requires i < |items|
    ensures Final(items, j) && items[j].key == items[i].key
    decreases |items| - i
  {
    if k :| i < k < |items| && items[k].key == items[i].key {
      j := FinalExists(items, k);
    } else {
      j := i;
    }
  }

  /** A backfilled batch lowers no recorded version if and only if no key's last item is
      older than what is recorded; nothing in the code checks this. */
  lemma BatchRisesIff(c: Config, r: Replica, items: seq<Got>, now: int64)
    requires c.lww
    ensures Rises(r, ApplyBatch(c, r, items, now))
       <==> forall i :: Final(items, i) ==> VersionOf(r, items[i].key) <= items[i].ver
  {
    hide AfterObserve;
    var r' := ApplyBatch(c, r, items, now);
    forall i | Final(items, i)
      ensures VersionOf(r', items[i].key) == items[i].ver
    {
      VersionsAre(r.version, items, items[i].key);
    }
    forall b
      ensures (exists i :: Final(items, i) && items[i].key == b) || VersionOf(r', b) == VersionOf(r, b)
    {
      VersionsAre(r.version, items, b);
      if i :| 0 <= i < |items| && items[i].key == b {
        var j := FinalExists(items, i);
      }
    }
  }

  /** The clock's tick after a batch. */
  function BatchTick(r: Replica, items: seq<Got>, now: int64): (t: int)
    requires items != []
  {
    var last := items[|items| - 1].ver;
    if last > 0 then ObserveTick(Tick(r.clock), RemoteTick(last), now) else Tick(r.clock)
  }

  /** After a batch the clock has passed every recorded version if and only if it has
      passed each key's last item, of which it observed only the very last. */
  lemma BatchBehindIff(c: Config, r: Replica, items: seq<Got>, now: int64)
    requires c.lww && Behind(r) && items != [] && BatchTick(r, items, now) < TICKS
    ensures Behind(ApplyBatch(c, r, items, now))
       <==> forall i :: Final(items, i) ==> RemoteTick(items[i].ver) <= BatchTick(r, items, now)
  {
    hide AfterObserve, Tick, RemoteTick;
    var r' := ApplyBatch(c, r, items, now);
    ObserveIsLamport(r.clock, items[|items| - 1].ver, now);
    TickInRange(r'.clock);
    TickInRange(r.clock);
    forall i | Final(items, i)
      ensures items[i].key in r'.version && r'.version[items[i].key] == items[i].ver
    {
      VersionsAre(r.version, items, items[i].key);
    }
    forall b | b in r'.version
      ensures (exists i :: Final(items, i) && items[i].key == b) || (b in r.version && r'.version[b] == r.version[b])
    {
      VersionsAre(r.version, items, b);
      if i :| 0 <= i < |items| && items[i].key == b {
        var j := FinalExists(items, i);
      }
    }
  }

  /** What the clock did not pass outranks the node's own next write. */
  lemma UnobservedOutranksWrite(r: Replica, now: int64, b: Bytes)
    requires InRange(r.clock) && b in r.version && RemoteTick(r.version[b]) > NextTick(Tick(r.clock), now)
    requires NextTick(Tick(r.clock), now) < TICKS
    ensures Issued(r, now) < VersionOf(r, b)
  {
    NextIsLamport(r.clock, now);
    TickInRange(AfterNext(r.clock, now));
    VersionOfTick(AfterNext(r.clock, now));
    assert r.version[b] as int >= RemoteTick(r.version[b]) * 256;
  }

  /** A batch of one older item lowers a recorded version. */
  lemma BatchLowersExample(c: Config, k: Key, e: Entry)
    requires c.lww
    ensures var r := Replica(map[], map[[1] := 512], Clock(2, 0, 0));
      VersionOf(ApplyBatch(c, r, [Got([1], k, e, 256)], 0), [1]) == 256 && VersionOf(r, [1]) == 512
  {
    hide AfterObserve;
    var r, items := Replica(map[], map[[1] := 512], Clock(2, 0, 0)), [Got([1], k, e, 256)];
    assert Final(items, 0);
    VersionsAre(r.version, items, [1]);
  }

  /** A batch whose last item is older than another leaves the clock behind that one, and
      the node's next write of the key is outranked by what it holds. */
  lemma BatchAheadExample(c: Config, k: Key, j: Key, e: Entry)
    requires c.lww
    ensures var r := ApplyBatch(c, Replica(map[], map[], Clock(0, 0, 0)),
              [Got([1], k, e, 0x8000_0000_0000_0000), Got([2], j, e, 256)], 0);
      !Behind(r) && Issued(r, 0) < VersionOf(r, [1])
  {
    hide AfterObserve, AfterNext;
    var r0, items := Replica(map[], map[], Clock(0, 0, 0)), [Got([1], k, e, 0x8000_0000_0000_0000), Got([2], j, e, 256)];
    var r := ApplyBatch(c, r0, items, 0);
    assert items[1].key[0] != items[0].key[0] && Final(items, 0) && Final(items, 1);
    VersionsAre(r0.version, items, [1]);
    BatchBehindIff(c, r0, items, 0);
    ObserveIsLamport(r0.clock, 256, 0);
    TickInRange(r.clock);
    UnobservedOutranksWrite(r, 0, [1]);
  }
}
