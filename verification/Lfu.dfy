/** Cache nodes and the O(1) LFU index: a circular list of frequency buckets in
    ascending order, a frequency-to-bucket map and an item-to-bucket map. */
module Lfu {
  import opened Wrappers

  class CacheItem {
    var key: Option<Key>
    var value: Value
    var expireTime: int
    var lastAccess: int
    var frequency: int
    var prev: CacheItem?
    var next: CacheItem?

    constructor ()
      ensures key == None && prev == null && next == null
    {
      key, expireTime, lastAccess, frequency, prev, next := None, 0, 0, 0, null, null;
    }
  }

  class FreqNode {
    const freq: nat
    var items: set<CacheItem>
    var prev: FreqNode?
    var next: FreqNode?

    constructor (freq: nat)
      ensures this.freq == freq && items == {}
    {
      this.freq := freq;
      items, prev, next := {}, null, null;
    }
  }

  // ---------------------------------------------------------------- shape of the bucket list

  ghost function Inserted(s: seq<FreqNode>, p: nat, n: FreqNode): (r: seq<FreqNode>)
    requires p <= |s|
    ensures |r| == |s| + 1 && r[p] == n
    ensures forall i :: 0 <= i < |r| && i != p ==> r[i] == s[if i < p then i else i - 1]
  {
    s[..p] + [n] + s[p..]
  }

  /** `ring` lists the nodes of `live` from the sentinel in strictly ascending frequency. */
  ghost predicate Sorted(ring: seq<FreqNode>, live: set<FreqNode>) {
    && |ring| > 0 && ring[0].freq == 0
    && (forall i, j :: 0 <= i < j < |ring| ==> ring[i].freq < ring[j].freq)
    && (forall i :: 0 <= i < |ring| ==> ring[i] in live)
    && (forall n :: n in live ==> n in ring)
  }

  /** `fm` names exactly the buckets of `live`. */
  ghost predicate Mapped(head: FreqNode, live: set<FreqNode>, fm: map<nat, FreqNode>) {
    && (forall n :: n in live && n != head ==> n.freq in fm && fm[n.freq] == n)
    && (forall f :: f in fm ==> fm[f] in live && fm[f] != head && fm[f].freq == f)
  }

  /** The buckets partition the items as `itf` says. */
  ghost predicate Filed(live: set<FreqNode>, itf: map<CacheItem, FreqNode>)
    reads live`items
  {
    && (forall n, x :: n in live && x in n.items ==> x in itf && itf[x] == n)
    && (forall x :: x in itf ==> itf[x] in live && x in itf[x].items)
  }

  /** No bucket is empty except possibly `spare`; the sentinel holds nothing. */
  ghost predicate Full(head: FreqNode, live: set<FreqNode>, spare: FreqNode?)
    reads live`items
  {
    && head in live && head.items == {}
    && (forall n :: n in live && n != head && n != spare ==> n.items != {})
  }

  ghost function Freqs(itf: map<CacheItem, FreqNode>): (m: map<CacheItem, nat>)
    ensures m.Keys == itf.Keys && forall x :: x in m ==> m[x] == itf[x].freq
  {
    map x | x in itf :: itf[x].freq
  }

  lemma FreqsUpdate(itf: map<CacheItem, FreqNode>, x: CacheItem, n: FreqNode)
    ensures Freqs(itf[x := n]) == Freqs(itf)[x := n.freq]
  {
  }

  lemma FreqsRemove(itf: map<CacheItem, FreqNode>, x: CacheItem)
    ensures Freqs(itf - {x}) == Freqs(itf) - {x}
  {
  }

  lemma InsertedHolds(ring: seq<FreqNode>, p: nat, n: FreqNode, m: FreqNode)
    requires p <= |ring| && m in ring
    ensures m in Inserted(ring, p, n)
  {
    var i :| 0 <= i < |ring| && ring[i] == m;
    assert Inserted(ring, p, n)[if i < p then i else i + 1] == m;
  }

  lemma SortedInsert(ring: seq<FreqNode>, live: set<FreqNode>, p: nat, n: FreqNode)
    requires Sorted(ring, live) && 0 < p <= |ring| && ring[p - 1].freq < n.freq && (p < |ring| ==> n.freq < ring[p].freq)
    ensures Sorted(Inserted(ring, p, n), live + {n})
  {
    hide Inserted;
    var r := Inserted(ring, p, n);
    assert forall i :: 0 <= i < p ==> ring[i].freq <= ring[p - 1].freq;
    assert forall j :: p <= j < |ring| ==> ring[p].freq <= ring[j].freq;
    forall m | m in live
      ensures m in r
    {
      InsertedHolds(ring, p, n, m);
    }
  }

  lemma SortedRemove(ring: seq<FreqNode>, live: set<FreqNode>, p: nat)
    requires Sorted(ring, live) && 0 < p < |ring|
    ensures Sorted(Cut(ring, p), live - {ring[p]})
  {
    hide Cut;
    var r := Cut(ring, p);
    forall i | 0 <= i < |r|
      ensures r[i] in live && r[i] != ring[p]
    {
      assert r[i].freq != ring[p].freq;
    }
    forall m | m in live && m != ring[p]
      ensures m in r
    {
      var i :| 0 <= i < |ring| && ring[i] == m;
      assert r[if i < p then i else i - 1] == m;
    }
  }

  lemma MappedInsert(head: FreqNode, live: set<FreqNode>, fm: map<nat, FreqNode>, n: FreqNode)
    requires Mapped(head, live, fm) && n.freq !in fm && n != head
    ensures Mapped(head, live + {n}, fm[n.freq := n])
  {
  }

  lemma MappedRemove(head: FreqNode, live: set<FreqNode>, fm: map<nat, FreqNode>, n: FreqNode)
    requires Mapped(head, live, fm) && n in live && n != head
    ensures Mapped(head, live - {n}, fm - {n.freq})
  {
  }

  lemma FiledInsert(live: set<FreqNode>, itf: map<CacheItem, FreqNode>, n: FreqNode)
    requires Filed(live, itf) && n.items == {}
    ensures Filed(live + {n}, itf)
  {
  }

  lemma FiledRemove(live: set<FreqNode>, itf: map<CacheItem, FreqNode>, n: FreqNode)
    requires Filed(live, itf) && n.items == {}
    ensures Filed(live - {n}, itf)
  {
  }

  class LfuList {
    const head: FreqNode
    var freqMap: map<nat, FreqNode>
    var itemFreq: map<CacheItem, FreqNode>
    ghost var ring: seq<FreqNode>    // the sentinel, then the buckets in list order
    ghost var live: set<FreqNode>    // the same nodes as a set

    /** A circular list through the sentinel. */
    ghost predicate Links()
      reads `ring, `live, live`prev, live`next
    {
      && |ring| > 0 && ring[0] == head
      && (forall i :: 0 <= i < |ring| ==> ring[i] in live)
      && (forall i {:trigger ring[i].next} :: 0 <= i < |ring| ==>
            ring[i].next == if i + 1 < |ring| then ring[i + 1] else head)
      && (forall i {:trigger ring[i].prev} :: 0 <= i < |ring| ==>
            ring[i].prev == if i > 0 then ring[i - 1] else ring[|ring| - 1])
    }

    ghost predicate Shaped()
      reads `ring, `live, `freqMap, live`prev, live`next
    {
      head.freq == 0 && Links() && Sorted(ring, live) && Mapped(head, live, freqMap)
    }

    ghost predicate Valid()
      reads this, live
    {
      Shaped() && Filed(live, itemFreq) && Full(head, live, null)
    }

    /** What the index means: a use count for each item. */
    ghost function Counts(): (m: map<CacheItem, nat>)
      reads `itemFreq
    {
      Freqs(itemFreq)
    }

    constructor ()
      ensures Valid() && Counts() == map[] && fresh(live)
    {
      var h := new FreqNode(0);
      head := h;
      freqMap, itemFreq, ring, live := map[], map[], [h], {h};
      new;
      head.next, head.prev := head, head;
    }

    method Splice(prev: FreqNode, n: FreqNode, ghost p: nat)
      requires Links() && Distinct(ring) && p < |ring| && ring[p] == prev && n !in live
      modifies `ring, `live, live`prev, live`next, n`prev, n`next
      ensures Links() && ring == Inserted(old(ring), p + 1, n) && live == old(live) + {n}
    {
      var nxt := prev.next;
      prev.next := n;
      n.prev := prev;
      n.next := nxt;
      nxt.prev := n;
      ring, live := Inserted(ring, p + 1, n), live + {n};
    }

    method Unsplice(n: FreqNode, ghost p: nat)
      requires Links() && Distinct(ring) && 0 < p < |ring| && ring[p] == n
      modifies `ring, `live, live`prev, live`next
      ensures Links() && ring == Cut(old(ring), p) && live == old(live) - {n}
    {
      n.prev.next := n.next;
      n.next.prev := n.prev;
      ring, live := Cut(ring, p), live - {n};
    }

    lemma PositionOf(n: FreqNode) returns (p: nat)
      requires Shaped() && n in live
      ensures p < |ring| && ring[p] == n && (n != head ==> p > 0) && Distinct(ring)
      ensures p + 1 < |ring| && n.freq + 1 !in freqMap ==> n.freq + 1 < ring[p + 1].freq
    {
      p :| 0 <= p < |ring| && ring[p] == n;
      if p + 1 < |ring| {
        assert n.freq < ring[p + 1].freq && ring[p + 1] in live && ring[p + 1] != head;
      }
    }

    /** Drops an empty bucket. */
    method RemoveFreqNode(n: FreqNode)
      requires Shaped() && n in live && n != head
      modifies `ring, `live, `freqMap, live`prev, live`next
      ensures Shaped() && live == old(live) - {n}
    {
      hide Links, Sorted, Mapped, Distinct;
      ghost var p := PositionOf(n);
      SortedRemove(ring, live, p);
      MappedRemove(head, live, freqMap, n);
      Unsplice(n, p);
      freqMap := freqMap - {n.freq};
    }

    lemma Bucket(freq: nat)
      requires Shaped() && freq in freqMap
      ensures freqMap[freq] in live && freqMap[freq].freq == freq && freqMap[freq] != head
    {
    }

    /** The bucket for the frequency after `prev`'s, created there if there is none. */
    method EnsureIndex(prev: FreqNode, freq: nat) returns (n: FreqNode)
      requires Shaped() && prev in live && prev.freq + 1 == freq
      modifies `ring, `live, `freqMap, live`prev, live`next
      ensures Shaped() && n.freq == freq && n != head && live == old(live) + {n}
      ensures n !in old(live) ==> fresh(n) && n.items == {}
    {
      hide Links, Sorted, Mapped, Distinct;
      if freq in freqMap {
        n := freqMap[freq];
        Bucket(freq);
        assert live == live + {n};
        return;
      }
      ghost var p := PositionOf(prev);
      n := new FreqNode(freq);
      SortedInsert(ring, live, p + 1, n);
      MappedInsert(head, live, freqMap, n);
      Splice(prev, n, p);
      freqMap := freqMap[freq := n];
    }

    method FileItem(n: FreqNode, x: CacheItem)
      requires Filed(live, itemFreq) && n in live && n != head && x !in itemFreq
      requires head in live && head.items == {}
      modifies `itemFreq, n`items
      ensures Filed(live, itemFreq) && n.items == old(n.items) + {x} && Counts() == old(Counts())[x := n.freq]
    {
      FreqsUpdate(itemFreq, x, n);
      n.items := n.items + {x};
      itemFreq := itemFreq[x := n];
    }

    method UnfileItem(x: CacheItem) returns (n: FreqNode)
      requires Filed(live, itemFreq) && x in itemFreq
      modifies `itemFreq, live`items
      ensures n == old(itemFreq)[x] && n in live && Filed(live, itemFreq) && x !in itemFreq
      ensures Counts() == old(Counts()) - {x}
      ensures n.items == old(n.items) - {x} && forall m :: m in live && m != n ==> m.items == old(m.items)
    {
      FreqsRemove(itemFreq, x);
      n := itemFreq[x];
      n.items := n.items - {x};
      itemFreq := itemFreq - {x};
    }

    /** Drops a bucket that has just lost its last item. */
    method Prune(n: FreqNode)
      requires Shaped() && Filed(live, itemFreq) && Full(head, live, n) && n in live && n != head
      modifies `ring, `live, `freqMap, live`prev, live`next
      ensures Valid() && live <= old(live)
    {
      hide Shaped;
      if n.items == {} {
        FiledRemove(live, itemFreq, n);
        RemoveFreqNode(n);
      }
    }

    lemma NextIsLive(n: FreqNode)
      requires Shaped() && n in live
      ensures n.next != null && n.next in live
    {
      var p := PositionOf(n);
    }

    /** The bucket one frequency up: the next one if it fits, else looked up or created. */
    method BucketAfter(prev: FreqNode) returns (n: FreqNode)
      requires Shaped() && prev in live
      modifies `ring, `live, `freqMap, live`prev, live`next
      ensures Shaped() && n.freq == prev.freq + 1 && n != head && live == old(live) + {n}
      ensures n !in old(live) ==> fresh(n) && n.items == {}
    {
      hide Links, Sorted, Mapped;
      NextIsLive(prev);
      if prev.next != head && prev.next.freq == prev.freq + 1 {
        n := prev.next;
        assert live == live + {n};
      } else {
        n := EnsureIndex(prev, prev.freq + 1);
      }
    }

    /** Puts an untracked item into the bucket after `prev`'s. */
    method FileAfter(prev: FreqNode, x: CacheItem)
      requires Shaped() && Filed(live, itemFreq) && Full(head, live, prev) && prev in live && x !in itemFreq
      modifies `ring, `live, `freqMap, `itemFreq, live, x`frequency
      ensures Shaped() && Filed(live, itemFreq) && Full(head, live, prev) && prev in live
      ensures Counts() == old(Counts())[x := prev.freq + 1] && x.frequency == prev.freq + 1
      ensures fresh(live - old(live))
    {
      hide Shaped, Filed, Counts;
      var n := BucketAfter(prev);
      if n !in old(live) {
        FiledInsert(old(live), itemFreq, n);
      } else {
        assert live == old(live);
      }
      FileItem(n, x);
      x.frequency := prev.freq + 1;
    }

    method Add(x: CacheItem)
      requires Valid() && x !in itemFreq
      modifies this, live, x`frequency
      ensures Valid() && Counts() == old(Counts())[x := 1] && x.frequency == 1 && fresh(live - old(live))
    {
      hide Links, Mapped, Filed;
      FileAfter(head, x);
    }

    lemma BucketOf(x: CacheItem)
      requires Valid() && x in itemFreq
      ensures itemFreq[x] in live && itemFreq[x] != head && itemFreq[x].freq > 0
    {
      var p := PositionOf(itemFreq[x]);
    }

    /** Moves a tracked item one bucket up. */
    method Promote(x: CacheItem)
      requires Valid() && x in itemFreq
      modifies this, live, x`frequency
      ensures Valid() && fresh(live - old(live)) && x in old(Counts())
      ensures Counts() == (old(Counts()) - {x})[x := old(Counts())[x] + 1] && x.frequency == old(Counts())[x] + 1
    {
      hide Shaped, Filed, Freqs;
      BucketOf(x);
      var cur := UnfileItem(x);
      FileAfter(cur, x);
      Prune(cur);
    }

    method Increment(x: CacheItem)
      requires Valid()
      modifies this, live, x`frequency
      ensures Valid() && fresh(live - old(live))
      ensures var m := old(Counts());
        Counts() == (if x in m then m[x := m[x] + 1] else m[x := 1]) && x.frequency == Counts()[x]
    {
      hide Valid, Freqs;
      if x !in itemFreq {
        Add(x);
      } else {
        ghost var m := Counts();
        Promote(x);
        assert (m - {x})[x := m[x] + 1] == m[x := m[x] + 1];
      }
    }

    method Remove(x: CacheItem)
      requires Valid()
      modifies this, live
      ensures Valid() && live <= old(live) && Counts() == old(Counts()) - {x}
    {
      hide Shaped, Filed;
      if x !in itemFreq {
        return;
      }
      BucketOf(x);
      var n := UnfileItem(x);
      Prune(n);
    }

    /** Counts an item from one again. */
    method Reset(x: CacheItem)
      requires Valid()
      modifies this, live, x`frequency
      ensures Valid() && Counts() == old(Counts())[x := 1] && x.frequency == 1 && fresh(live - old(live))
    {
      hide Valid, Freqs;
      ghost var m := Counts();
      Remove(x);
      assert (m - {x})[x := 1] == m[x := 1];
      Add(x);
    }

    lemma InBucket(n: FreqNode, x: CacheItem)
      requires Valid() && n in live && x in n.items
      ensures x in itemFreq && itemFreq[x] == n
    {
    }

    lemma FirstBucket()
      requires Valid()
      ensures head.next != null
      ensures head.next == head ==> itemFreq == map[]
      ensures head.next != head ==> head.next in live && head.next.items != {}
      ensures forall x :: x in itemFreq ==> head.next.freq <= itemFreq[x].freq
    {
      forall x | x in itemFreq
        ensures head.next != head && head.next.freq <= itemFreq[x].freq
      {
        BucketOf(x);
        var p := PositionOf(itemFreq[x]);
        assert ring[1].freq <= ring[p].freq;
      }
    }

    /** Evicts an item whose count is minimal over the whole index. */
    method RemoveLFU() returns (victim: CacheItem?)
      requires Valid()
      modifies this, live
      ensures Valid() && live <= old(live)
      ensures victim == null ==> old(Counts()) == map[] && unchanged(this) && unchanged(live)
      ensures victim != null ==> var m := old(Counts());
        && victim in m && (forall x :: x in m ==> m[victim] <= m[x]) && Counts() == m - {victim}
    {
      hide Shaped, Filed, Freqs;
      FirstBucket();
      var node := head.next;
      if node == head {
        return null;
      }
      victim :| victim in node.items;
      InBucket(node, victim);
      BucketOf(victim);
      var n := UnfileItem(victim);
      Prune(n);
    }
  }
}
