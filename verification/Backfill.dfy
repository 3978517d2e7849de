/** Backfilling one bucket: the donor's digest, its pages and the joiner's import taken
    together. Both nodes agree on which keys the joiner owns. */
module Backfill {
  import opened Digests
  import opened Paging
  import opened Wrappers

  /** What a node holds in bucket `p`. */
  function Part(g: Hashing, m: map<Bytes, bv64>, p: Bytes): (r: map<Bytes, bv64>) {
    map k | k in m && g.bucket(g.hash(k)) == p :: m[k]
  }

  /** The rows of one bucket that the donor pages through. */
  ghost function Rows(g: Hashing, m: map<Bytes, bv64>, p: Bytes): (all: set<Row>) {
    set k | k in Part(g, m, p) :: Row(g.hash(k) as nat, k)
  }

  /** The rows sent, with the donor's versions. */
  function Batch(m: map<Bytes, bv64>, out: seq<Row>): (r: seq<Item>) {
    seq(|out|, i requires 0 <= i < |out| => Item(out[i].key, if out[i].key in m then m[out[i].key] else 0))
  }

  // ---------------------------------------------------------------- a bucket by itself

  function InBucket(g: Hashing, s: seq<Item>, p: Bytes): (r: seq<Item>) {
    if s == [] then []
    else
      var rest, last := InBucket(g, s[..|s| - 1], p), s[|s| - 1];
      if BucketOf(g, last) == p then rest + [last] else rest
  }

  lemma {:induction false} InBucketMembers(g: Hashing, s: seq<Item>, p: Bytes, it: Item)
    ensures it in InBucket(g, s, p) <==> it in s && BucketOf(g, it) == p
  {
    if s != [] {
      var n := |s| - 1;
      InBucketMembers(g, s[..n], p, it);
      assert it in s <==> it in s[..n] || it == s[n];
    }
  }

  lemma {:induction false} InBucketDistinct(g: Hashing, s: seq<Item>, p: Bytes)
    requires DistinctKeys(s)
    ensures DistinctKeys(InBucket(g, s, p))
  {
    if s != [] {
      var n := |s| - 1;
      InBucketDistinct(g, s[..n], p);
      var rest := InBucket(g, s[..n], p);
      forall i | 0 <= i < |rest|
        ensures rest[i].key != s[n].key
      {
        InBucketMembers(g, s[..n], p, rest[i]);
        var j :| 0 <= j < n && s[j] == rest[i];
      }
    }
  }

  /** A bucket's signature depends on the items of the bucket alone. */
  lemma {:induction false} SigOfBucket(g: Hashing, s: seq<Item>, p: Bytes)
    ensures SigAt(AddAll(g, map[], s), p) == SigAt(AddAll(g, map[], InBucket(g, s, p)), p)
  {
    hide Plus, Mix;
    if s != [] {
      var n := |s| - 1;
      SigOfBucket(g, s[..n], p);
      AddLast(g, map[], InBucket(g, s[..n], p), s[n]);
    }
  }

  lemma ListsBucket(g: Hashing, s: seq<Item>, m: map<Bytes, bv64>, p: Bytes)
    requires Lists(s, m)
    ensures Lists(InBucket(g, s, p), Part(g, m, p))
  {
    InBucketDistinct(g, s, p);
    forall it
      ensures it in InBucket(g, s, p) <==> it in s && BucketOf(g, it) == p
    {
      InBucketMembers(g, s, p, it);
    }
  }

  /** Nodes that hold the same in a bucket have the same signature there. */
  lemma SamePartSameSig(
    g: Hashing, a: seq<Item>, ma: map<Bytes, bv64>, b: seq<Item>, mb: map<Bytes, bv64>, p: Bytes)
    requires Lists(a, ma) && Lists(b, mb) && Part(g, ma, p) == Part(g, mb, p)
    ensures SigAt(AddAll(g, map[], a), p) == SigAt(AddAll(g, map[], b), p)
  {
    hide Lists, AddAll, Part;
    SigOfBucket(g, a, p);
    SigOfBucket(g, b, p);
    ListsBucket(g, a, ma, p);
    ListsBucket(g, b, mb, p);
    ListingsSame(g, map[], InBucket(g, a, p), InBucket(g, b, p), Part(g, ma, p));
  }

  lemma PartCounts(g: Hashing, s: seq<Item>, m: map<Bytes, bv64>, p: Bytes)
    requires Lists(s, m) && |s| < COUNTS
    ensures SigAt(AddAll(g, map[], s), p).count == |Part(g, m, p).Keys|
  {
    hide AddAll, CountIn;
    DigestCounts(g, s, p);
    CountsKeys(g, s, p);
    forall k
      ensures k in KeysIn(g, s, p) <==> k in Part(g, m, p)
    {
      if k in Part(g, m, p) {
        assert Item(k, m[k]) in s;
      }
    }
    assert KeysIn(g, s, p) == Part(g, m, p).Keys;
  }

  // ---------------------------------------------------------------- what the import leaves

  /** Importing items that carry the versions of `m`. */
  lemma {:induction false} ImportedFrom(held: map<Bytes, bv64>, batch: seq<Item>, m: map<Bytes, bv64>, k: Bytes)
    requires forall it :: it in batch ==> it.key in m && it.ver == m[it.key]
    ensures var after := Imported(held, batch);
      if exists it :: it in batch && it.key == k then k in after && k in m && after[k] == m[k]
      else k !in held ==> k !in after
  {
    if batch != [] {
      var n := |batch| - 1;
      assert forall it :: it in batch <==> it in batch[..n] || it == batch[n];
      ImportedFrom(held, batch[..n], m, k);
      if exists it :: it in batch && it.key == k {
        var it :| it in batch && it.key == k;
        assert it == batch[n] || it in batch[..n];
      }
    }
  }

  ghost predicate Sent(out: seq<Row>, k: Bytes) { exists r :: r in out && r.key == k }

  lemma BatchHas(m: map<Bytes, bv64>, out: seq<Row>, k: Bytes)
    ensures (exists it :: it in Batch(m, out) && it.key == k) <==> Sent(out, k)
  {
    if r :| r in out && r.key == k {
      var i :| 0 <= i < |out| && out[i] == r;
      assert Batch(m, out)[i] in Batch(m, out);
    }
    if it :| it in Batch(m, out) && it.key == k {
      var i :| 0 <= i < |out| && Batch(m, out)[i] == it;
      assert out[i] in out;
    }
  }

  lemma BatchFrom(g: Hashing, m: map<Bytes, bv64>, p: Bytes, out: seq<Row>)
    requires forall r :: r in out ==> r in Rows(g, m, p)
    ensures forall it :: it in Batch(m, out) ==> it.key in Part(g, m, p) && it.ver == m[it.key]
  {
    forall it | it in Batch(m, out)
      ensures it.key in Part(g, m, p) && it.ver == m[it.key]
    {
      var i :| 0 <= i < |out| && Batch(m, out)[i] == it;
      assert out[i] in out && out[i] in Rows(g, m, p);
    }
  }

  /** In the bucket the joiner then has the keys sent, in the donor's versions. */
  lemma PartAfter(g: Hashing, held: map<Bytes, bv64>, m: map<Bytes, bv64>, p: Bytes, out: seq<Row>, k: Bytes)
    requires Part(g, held, p) == map[] && forall r :: r in out ==> r in Rows(g, m, p)
    ensures var after := Part(g, Imported(held, Batch(m, out)), p);
      && (k in after <==> Sent(out, k))
      && (k in after ==> k in Part(g, m, p) && after[k] == m[k])
  {
    hide Rows, Sent, Batch;
    BatchFrom(g, m, p, out);
    BatchHas(m, out, k);
    ImportedFrom(held, Batch(m, out), m, k);
    assert k in Part(g, held, p) <==> k in held && g.bucket(g.hash(k)) == p;
    if it :| it in Batch(m, out) && it.key == k {
      assert it.key in Part(g, m, p);
    }
  }

  lemma SentAll(g: Hashing, m: map<Bytes, bv64>, p: Bytes, out: seq<Row>)
    requires forall r :: r in out ==> r in Rows(g, m, p)
    ensures Complete(Rows(g, m, p), out) <==> forall k :: k in Part(g, m, p) ==> Sent(out, k)
  {
    forall k | k in Part(g, m, p)
      ensures Row(g.hash(k) as nat, k) in out <==> Sent(out, k)
    {
      if r :| r in out && r.key == k {
        assert r in Rows(g, m, p);
      }
    }
  }

  /** So the bucket's signatures agree exactly when every key was sent. */
  lemma SignaturesAgreeIff(
    g: Hashing, held: map<Bytes, bv64>, m: map<Bytes, bv64>, p: Bytes,
    out: seq<Row>, after: seq<Item>, theirs: seq<Item>)
    requires Part(g, held, p) == map[] && forall r :: r in out ==> r in Rows(g, m, p)
    requires Lists(after, Imported(held, Batch(m, out))) && |after| < COUNTS && Lists(theirs, m) && |theirs| < COUNTS
    ensures SigAt(AddAll(g, map[], after), p) == SigAt(AddAll(g, map[], theirs), p) <==> Complete(Rows(g, m, p), out)
  {
    hide Lists, AddAll, Rows, Complete, Sent, Batch, Part;
    var got := Imported(held, Batch(m, out));
    var mine, whole := Part(g, got, p), Part(g, m, p);
    forall k
      ensures (k in mine <==> Sent(out, k)) && (k in mine ==> k in whole && mine[k] == whole[k])
    {
      PartAfter(g, held, m, p, out, k);
      PartValue(g, m, p, k);
    }
    SentAll(g, m, p, out);
    if Complete(Rows(g, m, p), out) {
      assert mine == whole;
      SamePartSameSig(g, after, got, theirs, m, p);
    } else {
      var k :| k in whole && !Sent(out, k);
      SubsetSize(mine.Keys, whole.Keys - {k});
      PartCounts(g, after, got, p);
      PartCounts(g, theirs, m, p);
    }
  }

  lemma PartValue(g: Hashing, m: map<Bytes, bv64>, p: Bytes, k: Bytes)
    ensures k in Part(g, m, p) ==> k in m && Part(g, m, p)[k] == m[k]
  {
  }

  // ---------------------------------------------------------------- the whole exchange

  lemma DistinctBatch(m: map<Bytes, bv64>, s: seq<Item>, out: seq<Row>)
    requires DistinctKeys(s) && forall i, j :: 0 <= i < j < |out| ==> out[i].key != out[j].key
    requires forall it, r :: it in s && r in out ==> it.key != r.key
    ensures DistinctKeys(s + Batch(m, out))
  {
    var all := s + Batch(m, out);
    forall i, j | 0 <= i < j < |all|
      ensures all[i].key != all[j].key
    {
      if j >= |s| {
        assert all[j].key == out[j - |s|].key && out[j - |s|] in out;
        if i < |s| {
          assert s[i] in s;
        } else {
          assert all[i].key == out[i - |s|].key;
        }
      }
    }
  }

  lemma DistinctRows(g: Hashing, m: map<Bytes, bv64>, p: Bytes, out: seq<Row>)
    requires Distinct(out) && forall r :: r in out ==> r in Rows(g, m, p)
    ensures forall i, j :: 0 <= i < j < |out| ==> out[i].key != out[j].key
  {
    forall i, j | 0 <= i < j < |out|
      ensures out[i].key != out[j].key
    {
      assert out[i] in out && out[j] in out && out[i] != out[j];
    }
  }

  lemma NoneHeld(g: Hashing, s: seq<Item>, held: map<Bytes, bv64>, m: map<Bytes, bv64>, p: Bytes, out: seq<Row>)
    requires Lists(s, held) && Part(g, held, p) == map[] && forall r :: r in out ==> r in Rows(g, m, p)
    ensures forall it, r :: it in s && r in out ==> it.key != r.key
  {
    forall it, r | it in s && r in out
      ensures it.key != r.key
    {
      assert r in Rows(g, m, p) && it.key !in Part(g, held, p);
    }
  }

  /** A joiner that held no key of its own in the bucket, and pages and imports it: its
      running digest is what recomputing gives, and has the donor's signature for the
      bucket exactly when no hash is zero and no group of keys with one hash is split
      between two pages. */
  lemma BucketSyncedIff(
    g: Hashing, owns: Bytes -> bool, held: map<Bytes, bv64>, donor: map<Bytes, bv64>, p: Bytes, limit: nat,
    out: seq<Row>, mine: seq<Item>, after: seq<Item>, theirs: seq<Item>)
    requires Part(g, OwnedOf(held, owns), p) == map[]
    requires limit >= 1 && Fetched(Rows(g, OwnedOf(donor, owns), p), limit, 0, out)
    requires Lists(mine, OwnedOf(held, owns)) && Lists(theirs, OwnedOf(donor, owns))
    requires Lists(after, OwnedOf(Imported(held, Batch(OwnedOf(donor, owns), out)), owns))
    requires |mine| + |out| < COUNTS && |after| < COUNTS && |theirs| < COUNTS
    ensures var all, batch := Rows(g, OwnedOf(donor, owns), p), Batch(OwnedOf(donor, owns), out);
      var running := AddAll(g, AddAll(g, map[], mine), batch);
      && running == AddAll(g, map[], after)
      && (SigAt(running, p) == SigAt(AddAll(g, map[], theirs), p) <==> NonZero(all) && Unsplit(all, limit))
  {
    hide Lists, AddAll, Rows, Complete, Batch, Part, Fetched, Unsplit, NonZero, Imported, DistinctKeys;
    var m := OwnedOf(donor, owns);
    var batch := Batch(m, out);
    FetchedInOrder(Rows(g, m, p), limit, 0, out);
    ListsDistinct(mine, OwnedOf(held, owns));
    DistinctRows(g, m, p, out);
    NoneHeld(g, mine, OwnedOf(held, owns), m, p, out);
    DistinctBatch(m, mine, out);
    BatchFrom(g, m, p, out);
    forall it | it in batch
      ensures owns(it.key)
    {
      PartValue(g, m, p, it.key);
    }
    BatchSize(m, out);
    OwnedImported(held, batch, owns);
    RunningDigestIff(g, mine, held, batch, after, owns);
    SignaturesAgreeIff(g, OwnedOf(held, owns), m, p, out, after, theirs);
    PagingCompleteIff(Rows(g, m, p), limit, out);
  }

  lemma BatchSize(m: map<Bytes, bv64>, out: seq<Row>)
    ensures |Batch(m, out)| == |out|
  {
  }
}
