/** Bucket digests for backfill: per hash prefix, how many keys and the XOR of their
    hashes and versions. The key hash and the bucket of a hash are parameters. */
module Digests {
  import opened Wrappers

  const COUNTS := 0x1_0000_0000   // counts are 32 bits wide

  datatype Item = Item(key: Bytes, ver: bv64)

  datatype Sig = Sig(count: nat, hash: bv64)

  type Digest = map<Bytes, Sig>

  datatype Hashing = Hashing(hash: Bytes -> bv64, bucket: bv64 -> Bytes)

  function BucketOf(g: Hashing, it: Item): (p: Bytes) { g.bucket(g.hash(it.key)) }

  function SigAt(m: Digest, p: Bytes): (s: Sig) { if p in m then m[p] else Sig(0, 0) }

  function Mix(g: Hashing, it: Item): (x: bv64) { g.hash(it.key) ^ it.ver }

  function Plus(s: Sig, x: bv64): (r: Sig) { Sig((s.count + 1) % COUNTS, s.hash ^ x) }

  function Add(g: Hashing, m: Digest, it: Item): (m': Digest) {
    var p := BucketOf(g, it);
    m[p := Plus(SigAt(m, p), Mix(g, it))]
  }

  function AddAll(g: Hashing, m: Digest, items: seq<Item>): (m': Digest) {
    if items == [] then m else Add(g, AddAll(g, m, items[..|items| - 1]), items[|items| - 1])
  }

  // ---------------------------------------------------------------- the loops

  /** The items of the keys this node owns; a key without a version counts as 0. */
  function Kept(keys: seq<Bytes>, owns: Bytes -> bool, version: map<Bytes, bv64>): (r: seq<Item>) {
    if keys == [] then []
    else
      var k := keys[|keys| - 1];
      var rest := Kept(keys[..|keys| - 1], owns, version);
      if owns(k) then rest + [Item(k, if k in version then version[k] else 0)] else rest
  }

  method ComputeLocalDigests(g: Hashing, keys: seq<Bytes>, owns: Bytes -> bool, version: map<Bytes, bv64>)
    returns (m: Digest)
    ensures m == AddAll(g, map[], Kept(keys, owns, version))
    ensures forall s :: Distinct(keys) && Lists(s, Recorded(keys, owns, version)) ==> m == AddAll(g, map[], s)
  {
    m := map[];
    for i := 0 to |keys|
      invariant m == AddAll(g, map[], Kept(keys[..i], owns, version))
    {
      assert keys[..i + 1][..i] == keys[..i];
      if owns(keys[i]) {
        var ver := if keys[i] in version then version[keys[i]] else 0;
        AddLast(g, map[], Kept(keys[..i], owns, version), Item(keys[i], ver));
        m := Add(g, m, Item(keys[i], ver));
      }
    }
    assert keys[..|keys|] == keys;
    forall s | Distinct(keys) && Lists(s, Recorded(keys, owns, version))
      ensures m == AddAll(g, map[], s)
    {
      KeptLists(keys, owns, version);
      ListingsSame(g, map[], Kept(keys, owns, version), s, Recorded(keys, owns, version));
    }
  }

  /** The owned keys of a store with their recorded versions, 0 if there is none. */
  ghost function Recorded(keys: seq<Bytes>, owns: Bytes -> bool, version: map<Bytes, bv64>): (r: map<Bytes, bv64>) {
    map k | k in keys && owns(k) :: if k in version then version[k] else 0
  }

  lemma {:induction false} KeptMembers(keys: seq<Bytes>, owns: Bytes -> bool, version: map<Bytes, bv64>, it: Item)
    ensures it in Kept(keys, owns, version) <==>
      it.key in keys && owns(it.key) && it.ver == if it.key in version then version[it.key] else 0
  {
    if keys != [] {
      var n := |keys| - 1;
      KeptMembers(keys[..n], owns, version, it);
      assert it.key in keys <==> it.key in keys[..n] || it.key == keys[n];
    }
  }

  lemma {:induction false} KeptDistinct(keys: seq<Bytes>, owns: Bytes -> bool, version: map<Bytes, bv64>)
    requires Distinct(keys)
    ensures DistinctKeys(Kept(keys, owns, version))
  {
    if keys != [] {
      var n := |keys| - 1;
      KeptDistinct(keys[..n], owns, version);
      var rest := Kept(keys[..n], owns, version);
      forall i | 0 <= i < |rest|
        ensures rest[i].key != keys[n]
      {
        KeptMembers(keys[..n], owns, version, rest[i]);
        var j :| 0 <= j < n && keys[j] == rest[i].key;
      }
    }
  }

  lemma KeptLists(keys: seq<Bytes>, owns: Bytes -> bool, version: map<Bytes, bv64>)
    requires Distinct(keys)
    ensures Lists(Kept(keys, owns, version), Recorded(keys, owns, version))
  {
    KeptDistinct(keys, owns, version);
    forall it
      ensures it in Kept(keys, owns, version) <==>
        it.key in keys && owns(it.key) && it.ver == if it.key in version then version[it.key] else 0
    {
      KeptMembers(keys, owns, version, it);
    }
  }

  method UpdateWithBatch(g: Hashing, m: Digest, batch: seq<Item>) returns (m': Digest)
    ensures m' == AddAll(g, m, batch)
  {
    m' := m;
    for i := 0 to |batch|
      invariant m' == AddAll(g, m, batch[..i])
    {
      assert batch[..i + 1][..i] == batch[..i];
      m' := Add(g, m', batch[i]);
    }
    assert batch[..|batch|] == batch;
  }

  lemma AddLast(g: Hashing, m: Digest, items: seq<Item>, it: Item)
    ensures AddAll(g, m, items + [it]) == Add(g, AddAll(g, m, items), it)
  {
    assert (items + [it])[..|items|] == items;
  }

  lemma {:induction false} AddAllJoins(g: Hashing, m: Digest, a: seq<Item>, b: seq<Item>)
    ensures AddAll(g, m, a + b) == AddAll(g, AddAll(g, m, a), b)
    decreases |b|
  {
    if b == [] {
      assert a + b == a;
    } else {
      var n := |b| - 1;
      AddAllJoins(g, m, a, b[..n]);
      assert a + b == a + b[..n] + [b[n]];
      AddLast(g, m, a + b[..n], b[n]);
    }
  }

  // ---------------------------------------------------------------- order does not matter

  lemma AddCommutes(g: Hashing, m: Digest, x: Item, y: Item)
    ensures Add(g, Add(g, m, x), y) == Add(g, Add(g, m, y), x)
  {
    hide Plus, Mix, BucketOf;
    PlusCommutes(SigAt(m, BucketOf(g, x)), Mix(g, x), Mix(g, y));
  }

  lemma PlusCommutes(s: Sig, a: bv64, b: bv64)
    ensures Plus(Plus(s, a), b) == Plus(Plus(s, b), a)
  {
  }

  lemma WithoutOne(s: seq<Item>, i: nat)
    requires i < |s|
    ensures multiset(s[..i] + s[i + 1..]) == multiset(s) - multiset{s[i]}
  {
    assert s == s[..i] + [s[i]] + s[i + 1..];
  }

  /** Any item may be added last. */
  lemma {:induction false} AddedLast(g: Hashing, m: Digest, s: seq<Item>, i: nat)
    requires i < |s|
    ensures AddAll(g, m, s) == Add(g, AddAll(g, m, s[..i] + s[i + 1..]), s[i])
    decreases |s|
  {
    hide Add;
    var n := |s| - 1;
    if i == n {
      assert s[..i] + s[i + 1..] == s[..n];
    } else {
      var t := s[..n];
      AddedLast(g, m, t, i);
      var rest := t[..i] + t[i + 1..];
      assert s[..i] + s[i + 1..] == rest + [s[n]];
      AddLast(g, m, rest, s[n]);
      AddCommutes(g, AddAll(g, m, rest), s[i], s[n]);
    }
  }

  /** The digest depends only on which items there are, not on their order. */
  lemma {:induction false} OrderDoesNotMatter(g: Hashing, m: Digest, a: seq<Item>, b: seq<Item>)
    requires multiset(a) == multiset(b)
    ensures AddAll(g, m, a) == AddAll(g, m, b)
    decreases |a|
  {
    hide Add;
    if a == [] {
      SameSize(a, b);
    } else {
      var n := |a| - 1;
      assert a[n] in multiset(a) && a[n] in multiset(b);
      var i :| 0 <= i < |b| && b[i] == a[n];
      AddedLast(g, m, b, i);
      WithoutOne(a, n);
      assert a[..n] + a[n + 1..] == a[..n];
      WithoutOne(b, i);
      OrderDoesNotMatter(g, m, a[..n], b[..i] + b[i + 1..]);
    }
  }

  lemma SameSize(a: seq<Item>, b: seq<Item>)
    requires multiset(a) == multiset(b)
    ensures |a| == |b|
  {
    assert |multiset(a)| == |a| && |multiset(b)| == |b|;
  }

  // ---------------------------------------------------------------- the running digest

  ghost predicate DistinctKeys(s: seq<Item>) { forall i, j :: 0 <= i < j < |s| ==> s[i].key != s[j].key }

  /** `s` lists the keys and versions of `held`, each once. */
  ghost predicate Lists(s: seq<Item>, held: map<Bytes, bv64>) {
    && DistinctKeys(s)
    && (forall it :: it in s <==> it.key in held && held[it.key] == it.ver)
  }

  function Imported(held: map<Bytes, bv64>, batch: seq<Item>): (r: map<Bytes, bv64>) {
    if batch == [] then held
    else
      var last := batch[|batch| - 1];
      Imported(held, batch[..|batch| - 1])[last.key := last.ver]
  }

  lemma {:induction false} Multiplicity(s: seq<Item>, x: Item)
    requires DistinctKeys(s)
    ensures multiset(s)[x] == if x in s then 1 else 0
  {
    if s != [] {
      var n := |s| - 1;
      Multiplicity(s[..n], x);
      assert s == s[..n] + [s[n]];
      assert x in s <==> x in s[..n] || x == s[n];
    }
  }

  lemma ListingsSame(g: Hashing, m: Digest, a: seq<Item>, b: seq<Item>, held: map<Bytes, bv64>)
    requires Lists(a, held) && Lists(b, held)
    ensures AddAll(g, m, a) == AddAll(g, m, b)
  {
    forall x
      ensures multiset(a)[x] == multiset(b)[x]
    {
      Multiplicity(a, x);
      Multiplicity(b, x);
    }
    OrderDoesNotMatter(g, m, a, b);
  }

  lemma {:induction false} ListsImported(s: seq<Item>, held: map<Bytes, bv64>, batch: seq<Item>)
    requires Lists(s, held) && DistinctKeys(s + batch)
    ensures Lists(s + batch, Imported(held, batch))
    decreases |batch|
  {
    if batch == [] {
      assert s + batch == s;
    } else {
      var n := |batch| - 1;
      var t := s + batch[..n];
      assert t == (s + batch)[..|s| + n] && s + batch == t + [batch[n]];
      ListsImported(s, held, batch[..n]);
      ListsOneMore(t, Imported(held, batch[..n]), batch[n]);
    }
  }

  lemma ListsOneMore(s: seq<Item>, held: map<Bytes, bv64>, x: Item)
    requires Lists(s, held) && DistinctKeys(s + [x])
    ensures Lists(s + [x], held[x.key := x.ver])
  {
    var t := s + [x];
    assert x.key in held ==> Item(x.key, held[x.key]) in s;
    forall it
      ensures it in t <==> it in s || it == x
    {
    }
    forall it | it in s
      ensures it.key != x.key
    {
      var i :| 0 <= i < |s| && s[i] == it;
      assert t[i].key != t[|s|].key;
    }
  }

  /** How many items fall into bucket `p`. */
  function CountIn(g: Hashing, s: seq<Item>, p: Bytes): (n: nat)
    ensures n <= |s|
  {
    if s == [] then 0
    else CountIn(g, s[..|s| - 1], p) + if BucketOf(g, s[|s| - 1]) == p then 1 else 0
  }

  /** The keys that fall into bucket `p`. */
  ghost function KeysIn(g: Hashing, s: seq<Item>, p: Bytes): (r: set<Bytes>) {
    set it | it in s && BucketOf(g, it) == p :: it.key
  }

  lemma {:induction false} DigestCounts(g: Hashing, s: seq<Item>, p: Bytes)
    requires |s| < COUNTS
    ensures SigAt(AddAll(g, map[], s), p).count == CountIn(g, s, p)
  {
    if s != [] {
      DigestCounts(g, s[..|s| - 1], p);
    }
  }

  lemma KeysInMore(g: Hashing, s: seq<Item>, x: Item, p: Bytes)
    ensures KeysIn(g, s + [x], p) == KeysIn(g, s, p) + if BucketOf(g, x) == p then {x.key} else {}
  {
    forall it
      ensures it in s + [x] <==> it in s || it == x
    {
    }
  }

  /** A bucket counts at least its keys, and exactly them if none repeats. */
  lemma {:induction false} CountsKeys(g: Hashing, s: seq<Item>, p: Bytes)
    ensures CountIn(g, s, p) >= |KeysIn(g, s, p)|
    ensures DistinctKeys(s) ==> CountIn(g, s, p) == |KeysIn(g, s, p)|
  {
    hide KeysIn;
    if s == [] {
      NoKeysIn(g, p);
    } else {
      var n := |s| - 1;
      var t, x := s[..n], s[n];
      CountsKeys(g, t, p);
      assert s == t + [x];
      KeysInMore(g, t, x, p);
      if DistinctKeys(s) {
        NotAgain(g, t, x, p);
      }
    }
  }

  lemma NoKeysIn(g: Hashing, p: Bytes)
    ensures KeysIn(g, [], p) == {}
  {
  }

  /** If a key repeats, its bucket counts more than its keys. */
  lemma {:induction false} CountsMoreThanKeys(g: Hashing, s: seq<Item>, i: nat, j: nat)
    requires i < j < |s| && s[i].key == s[j].key
    ensures CountIn(g, s, BucketOf(g, s[j])) > |KeysIn(g, s, BucketOf(g, s[j]))|
    decreases |s|
  {
    hide KeysIn;
    var n, p := |s| - 1, BucketOf(g, s[j]);
    var t, x := s[..n], s[n];
    assert s == t + [x];
    KeysInMore(g, t, x, p);
    if j < n {
      CountsMoreThanKeys(g, t, i, j);
    } else {
      CountsKeys(g, t, p);
      KeyIsIn(g, t, i);
      assert KeysIn(g, t, p) + {x.key} == KeysIn(g, t, p);
    }
  }

  lemma KeyIsIn(g: Hashing, s: seq<Item>, i: nat)
    requires i < |s|
    ensures s[i].key in KeysIn(g, s, BucketOf(g, s[i]))
  {
  }

  lemma NotAgain(g: Hashing, t: seq<Item>, x: Item, p: Bytes)
    requires DistinctKeys(t + [x])
    ensures x.key !in KeysIn(g, t, p)
  {
    forall it | it in t
      ensures it.key != x.key
    {
      var i :| 0 <= i < |t| && t[i] == it;
      assert (t + [x])[i].key != (t + [x])[|t|].key;
    }
  }

  lemma {:induction false} ImportedKeys(held: map<Bytes, bv64>, batch: seq<Item>, k: Bytes)
    ensures k in Imported(held, batch) <==> k in held || exists it :: it in batch && it.key == k
  {
    if batch != [] {
      var n := |batch| - 1;
      ImportedKeys(held, batch[..n], k);
      assert batch == batch[..n] + [batch[n]];
      assert forall it :: it in batch <==> it in batch[..n] || it == batch[n];
    }
  }

  /** The keys this node owns; only these are digested. */
  function OwnedOf(m: map<Bytes, bv64>, owns: Bytes -> bool): (r: map<Bytes, bv64>) {
    map k | k in m && owns(k) :: m[k]
  }

  lemma {:induction false} OwnedImported(held: map<Bytes, bv64>, batch: seq<Item>, owns: Bytes -> bool)
    requires forall it :: it in batch ==> owns(it.key)
    ensures OwnedOf(Imported(held, batch), owns) == Imported(OwnedOf(held, owns), batch)
  {
    if batch != [] {
      var n := |batch| - 1;
      assert forall it :: it in batch[..n] ==> it in batch;
      OwnedImported(held, batch[..n], owns);
      assert batch[n] in batch;
    }
  }

  lemma KeysAfter(
    g: Hashing, s: seq<Item>, held: map<Bytes, bv64>, batch: seq<Item>, after: seq<Item>, owns: Bytes -> bool, p: Bytes)
    requires Lists(s, OwnedOf(held, owns)) && Lists(after, OwnedOf(Imported(held, batch), owns))
    ensures KeysIn(g, after, p) == set k | k in KeysIn(g, s + batch, p) && owns(k)
  {
    var all := OwnedOf(Imported(held, batch), owns);
    forall k
      ensures k in KeysIn(g, after, p) <==> k in KeysIn(g, s + batch, p) && owns(k)
    {
      ImportedKeys(held, batch, k);
      if k in all {
        assert Item(k, all[k]) in after;
      }
      if k in held && owns(k) {
        assert Item(k, held[k]) in s && Item(k, held[k]) in s + batch;
      }
      if it :| it in batch && it.key == k {
        assert it in s + batch;
      }
    }
  }

  /** A repeated key counts twice in the running digest and once after recomputing. */
  lemma Repeated(g: Hashing, all: seq<Item>, after: seq<Item>, owns: Bytes -> bool, i: nat, j: nat)
    requires i < j < |all| && all[i].key == all[j].key && DistinctKeys(after)
    requires forall p :: KeysIn(g, after, p) == set k | k in KeysIn(g, all, p) && owns(k)
    ensures exists p :: CountIn(g, all, p) > CountIn(g, after, p)
  {
    hide KeysIn, CountIn;
    var p := BucketOf(g, all[j]);
    CountsMoreThanKeys(g, all, i, j);
    CountsKeys(g, after, p);
    SubsetSize(KeysIn(g, after, p), KeysIn(g, all, p));
  }

  /** A key of another node counts in the running digest only. */
  lemma Foreign(g: Hashing, all: seq<Item>, after: seq<Item>, owns: Bytes -> bool, j: nat)
    requires j < |all| && !owns(all[j].key) && DistinctKeys(after)
    requires forall p :: KeysIn(g, after, p) == set k | k in KeysIn(g, all, p) && owns(k)
    ensures exists p :: CountIn(g, all, p) > CountIn(g, after, p)
  {
    hide KeysIn, CountIn;
    var p := BucketOf(g, all[j]);
    KeyIsIn(g, all, j);
    CountsKeys(g, all, p);
    CountsKeys(g, after, p);
    SubsetSize(KeysIn(g, after, p), KeysIn(g, all, p) - {all[j].key});
  }

  /** Adding an imported batch to the running digest gives what recomputing would give,
      exactly when the batch repeats no key, brings none that was already held, and
      brings only keys this node owns. */
  lemma RunningDigestIff(
    g: Hashing, s: seq<Item>, held: map<Bytes, bv64>, batch: seq<Item>, after: seq<Item>, owns: Bytes -> bool)
    requires Lists(s, OwnedOf(held, owns)) && Lists(after, OwnedOf(Imported(held, batch), owns))
    requires |s| + |batch| < COUNTS && |after| < COUNTS
    ensures AddAll(g, AddAll(g, map[], s), batch) == AddAll(g, map[], after)
       <==> DistinctKeys(s + batch) && forall it :: it in batch ==> owns(it.key)
  {
    hide Lists, AddAll;
    AddAllJoins(g, map[], s, batch);
    if DistinctKeys(s + batch) && forall it :: it in batch ==> owns(it.key) {
      OwnedImported(held, batch, owns);
      ListsImported(s, OwnedOf(held, owns), batch);
      ListingsSame(g, map[], s + batch, after, Imported(OwnedOf(held, owns), batch));
    } else {
      forall p
        ensures KeysIn(g, after, p) == set k | k in KeysIn(g, s + batch, p) && owns(k)
      {
        KeysAfter(g, s, held, batch, after, owns, p);
      }
      ListsDistinct(after, OwnedOf(Imported(held, batch), owns));
      SomeBucketDiffers(g, s, batch, after, owns);
      var p :| CountIn(g, s + batch, p) > CountIn(g, after, p);
      DigestCounts(g, s + batch, p);
      DigestCounts(g, after, p);
    }
  }

  lemma SomeBucketDiffers(g: Hashing, s: seq<Item>, batch: seq<Item>, after: seq<Item>, owns: Bytes -> bool)
    requires !DistinctKeys(s + batch) || exists it :: it in batch && !owns(it.key)
    requires DistinctKeys(after) && forall p :: KeysIn(g, after, p) == set k | k in KeysIn(g, s + batch, p) && owns(k)
    ensures exists p :: CountIn(g, s + batch, p) > CountIn(g, after, p)
  {
    hide KeysIn, CountIn;
    var all := s + batch;
    if it :| it in batch && !owns(it.key) {
      var j :| 0 <= j < |batch| && batch[j] == it;
      assert all[|s| + j] == it;
      Foreign(g, all, after, owns, |s| + j);
    } else {
      var i, j :| 0 <= i < j < |all| && all[i].key == all[j].key;
      Repeated(g, all, after, owns, i, j);
    }
  }

  /** Importing a newer version of a held key makes the running digest wrong. */
  lemma RunningDigestExample(g: Hashing)
    ensures var s, batch := [Item([1], 1)], [Item([1], 2)];
      AddAll(g, AddAll(g, map[], s), batch) != AddAll(g, map[], batch) && Lists(batch, Imported(map[[1] := 1], batch))
  {
    var s, batch := [Item([1], 1)], [Item([1], 2)];
    var held := map[[1] := 1];
    assert Imported(held, batch) == map[[1] := 2];
    assert Lists(s, held) && Lists(batch, map[[1] := 2]);
    assert OwnedOf(held, k => true) == held && OwnedOf(map[[1] := 2], k => true) == map[[1] := 2];
    RunningDigestIff(g, s, held, batch, batch, k => true);
    assert (s + batch)[0].key == (s + batch)[1].key;
  }

  lemma ListsDistinct(s: seq<Item>, held: map<Bytes, bv64>)
    requires Lists(s, held)
    ensures DistinctKeys(s)
  {
  }

  // ---------------------------------------------------------------- what a digest detects

  lemma XorCancels(h: bv64, k: bv64, v: bv64, v': bv64)
    requires v != v'
    ensures h ^ (k ^ v) != h ^ (k ^ v')
  {
  }

  /** Two nodes that differ in one key's version alone have different digests there. */
  lemma OneVersionIsDetected(g: Hashing, s: seq<Item>, i: nat, ver: bv64)
    requires i < |s| && ver != s[i].ver
    ensures var t, p := s[i := Item(s[i].key, ver)], BucketOf(g, s[i]);
      SigAt(AddAll(g, map[], s), p) != SigAt(AddAll(g, map[], t), p)
  {
    hide AddAll;
    var t := s[i := Item(s[i].key, ver)];
    AddedLast(g, map[], s, i);
    AddedLast(g, map[], t, i);
    assert t[..i] + t[i + 1..] == s[..i] + s[i + 1..];
    var m := AddAll(g, map[], s[..i] + s[i + 1..]);
    XorCancels(SigAt(m, BucketOf(g, s[i])).hash, g.hash(s[i].key), s[i].ver, ver);
  }

  /** So two nodes with the same keys, one of which has another version of an owned key,
      compute different digests. */
  lemma ComputedVersionIsDetected(
    g: Hashing, keys: seq<Bytes>, owns: Bytes -> bool, version: map<Bytes, bv64>, k: Bytes, ver: bv64)
    requires Distinct(keys) && k in keys && owns(k) && k in version && ver != version[k]
    ensures var p := g.bucket(g.hash(k));
      SigAt(AddAll(g, map[], Kept(keys, owns, version)), p)
      != SigAt(AddAll(g, map[], Kept(keys, owns, version[k := ver])), p)
  {
    hide AddAll, Kept;
    var s, changed := Kept(keys, owns, version), version[k := ver];
    KeptLists(keys, owns, version);
    KeptLists(keys, owns, changed);
    KeptMembers(keys, owns, version, Item(k, version[k]));
    var i :| 0 <= i < |s| && s[i] == Item(k, version[k]);
    var t := s[i := Item(k, ver)];
    ListsChanged(s, Recorded(keys, owns, version), i, ver);
    assert Recorded(keys, owns, version)[k := ver] == Recorded(keys, owns, changed);
    ListingsSame(g, map[], t, Kept(keys, owns, changed), Recorded(keys, owns, changed));
    OneVersionIsDetected(g, s, i, ver);
  }

  lemma ListsChanged(s: seq<Item>, held: map<Bytes, bv64>, i: nat, ver: bv64)
    requires Lists(s, held) && i < |s|
    ensures Lists(s[i := Item(s[i].key, ver)], held[s[i].key := ver])
  {
    var t, k := s[i := Item(s[i].key, ver)], s[i].key;
    forall it
      ensures it in t <==> it == Item(k, ver) || (it in s && it.key != k)
    {
      if it in s && it.key != k {
        var j :| 0 <= j < |s| && s[j] == it;
        assert t[j] == it;
      }
      if it in t && it != Item(k, ver) {
        var j :| 0 <= j < |t| && t[j] == it;
        assert s[j] == it && s[j].key != s[i].key;
      }
      assert t[i] == Item(k, ver);
    }
  }

  /** So have two nodes of which one lacks a single key of the other. */
  lemma OneKeyIsDetected(g: Hashing, s: seq<Item>, i: nat)
    requires i < |s| < COUNTS
    ensures var t, p := s[..i] + s[i + 1..], BucketOf(g, s[i]);
      SigAt(AddAll(g, map[], s), p).count == SigAt(AddAll(g, map[], t), p).count + 1
  {
    hide AddAll;
    var t := s[..i] + s[i + 1..];
    AddedLast(g, map[], s, i);
    DigestCounts(g, t, BucketOf(g, s[i]));
  }
}
