/** One shard of the in-memory cache: a key map, an intrusive doubly linked list
    between two sentinels, an optional LFU index, a live counter and a shared pool of
    recycled nodes. */
module Shards {
  import opened Lfu
  import opened CacheSpec
  import opened Wrappers

  /** sync.Pool: may hand back any node put into it, or a new one. */
  class Pool {
    var free: set<CacheItem>

    constructor ()
      ensures free == {}
    {
      free := {};
    }

    method Put(x: CacheItem)
      modifies this
      ensures free == old(free) + {x}
    {
      free := free + {x};
    }

    method Get() returns (x: CacheItem)
      modifies this
      ensures x in old(free) || fresh(x)
      ensures free == old(free) - {x}
    {
      var reuse: bool := *;
      if reuse && free != {} {
        x :| x in free;
        free := free - {x};
      } else {
        x := new CacheItem();
      }
    }
  }

  /** `data` holds exactly the nodes of `owned`, each under its own key. */
  ghost predicate Keyed(data: map<Key, CacheItem>, owned: set<CacheItem>)
    reads owned`key
  {
    && (forall x :: x in owned ==> x.key.Some? && x.key.value in data && data[x.key.value] == x)
    && (forall k :: k in data ==> data[k] in owned && data[k].key == Some(k))
  }

  /** `order` lists the keys of `nodes`, which are exactly the nodes of `owned`. */
  ghost predicate Listed(nodes: seq<CacheItem>, owned: set<CacheItem>, order: seq<Key>)
    reads owned`key
  {
    && |order| == |nodes|
    && (forall i :: 0 <= i < |nodes| ==> nodes[i] in owned && nodes[i].key == Some(order[i]))
    && (forall x :: x in owned ==> x in nodes)
  }

  /** `entries` is what the nodes hold. */
  ghost predicate Holding(data: map<Key, CacheItem>, owned: set<CacheItem>, entries: map<Key, Entry>)
    reads owned`value, owned`expireTime
  {
    && entries.Keys == data.Keys
    && (forall k :: k in data ==> data[k] in owned && entries[k] == Entry(data[k].value, data[k].expireTime))
  }

  /** Under AdmissionLFU, and only there, `heat` is how often and when last the nodes were
      used. */
  ghost predicate Warm(policy: Policy, data: map<Key, CacheItem>, owned: set<CacheItem>, heat: map<Key, Heat>)
    reads owned`frequency, owned`lastAccess
  {
    if policy != AdmissionLFU then heat == map[]
    else
      && heat.Keys == data.Keys
      && forall k :: k in data ==> data[k] in owned && heat[k] == Heat(data[k].frequency, data[k].lastAccess)
  }

  lemma WarmAdd(
    policy: Policy, data: map<Key, CacheItem>, owned: set<CacheItem>, heat: map<Key, Heat>, x: CacheItem, k: Key)
    requires Warm(policy, data, owned, heat)
    ensures Warm(policy, data[k := x], owned + {x}, Warmed(policy, heat, k, Heat(x.frequency, x.lastAccess)))
  {
  }

  lemma WarmRemove(
    policy: Policy, data: map<Key, CacheItem>, owned: set<CacheItem>, heat: map<Key, Heat>, k: Key)
    requires Keyed(data, owned) && Warm(policy, data, owned, heat) && k in data
    ensures Warm(policy, data - {k}, owned - {data[k]}, heat - {k})
  {
    forall j | j in data && j != k
      ensures data[j] != data[k]
    {
      assert data[j].key == Some(j);
    }
  }

  /** The map, the list and the contents agree. */
  ghost predicate Agree(
    data: map<Key, CacheItem>, nodes: seq<CacheItem>, owned: set<CacheItem>, order: seq<Key>, entries: map<Key, Entry>)
    reads owned`key, owned`value, owned`expireTime
  {
    Keyed(data, owned) && Listed(nodes, owned, order) && Holding(data, owned, entries)
  }

  lemma EmptyAgrees()
    ensures Agree(map[], [], {}, [], map[])
  {
  }

  lemma AgreeAdd(
    data: map<Key, CacheItem>, nodes: seq<CacheItem>, owned: set<CacheItem>, order: seq<Key>, entries: map<Key, Entry>,
    x: CacheItem, k: Key, e: Entry)
    requires Agree(data, nodes, owned, order, entries) && k !in data && x !in owned && x.key == Some(k)
    requires e == Entry(x.value, x.expireTime)
    ensures Agree(data[k := x], [x] + nodes, owned + {x}, [k] + order, entries[k := e])
    ensures |data[k := x]| == |data| + 1
  {
    hide Keyed, Listed, Holding;
    KeyedAdd(data, owned, x, k);
    ListedAdd(nodes, owned, order, x, k);
    HoldingAdd(data, owned, entries, x, k);
    assert data[k := x].Keys == data.Keys + {k};
  }

  lemma AgreeRemove(
    data: map<Key, CacheItem>, nodes: seq<CacheItem>, owned: set<CacheItem>, order: seq<Key>, entries: map<Key, Entry>,
    i: nat, k: Key)
    requires Agree(data, nodes, owned, order, entries) && k in data
    requires i < |nodes| == |order| && nodes[i] == data[k] && Distinct(nodes) && Erase(order, k) == Cut(order, i)
    ensures Agree(data - {k}, Cut(nodes, i), owned - {data[k]}, Erase(order, k), entries - {k})
    ensures |data - {k}| == |data| - 1
  {
    hide Keyed, Listed, Holding, Erase, Cut;
    KeyedRemove(data, owned, k);
    ListedRemove(nodes, owned, order, i);
    HoldingRemove(data, owned, entries, k);
    assert (data - {k}).Keys == data.Keys - {k};
  }

  ghost function UsesOf(data: map<Key, CacheItem>, counts: map<CacheItem, nat>): (r: map<Key, nat>)
    ensures forall k :: k in r <==> k in data && data[k] in counts
    ensures forall k :: k in r ==> r[k] == counts[data[k]]
  {
    map k | k in data && data[k] in counts :: counts[data[k]]
  }

  lemma KeyedAdd(data: map<Key, CacheItem>, owned: set<CacheItem>, x: CacheItem, k: Key)
    requires Keyed(data, owned) && k !in data && x !in owned && x.key == Some(k)
    ensures Keyed(data[k := x], owned + {x})
  {
  }

  lemma KeyedRemove(data: map<Key, CacheItem>, owned: set<CacheItem>, k: Key)
    requires Keyed(data, owned) && k in data
    ensures Keyed(data - {k}, owned - {data[k]})
  {
  }

  lemma HoldingAdd(data: map<Key, CacheItem>, owned: set<CacheItem>, entries: map<Key, Entry>, x: CacheItem, k: Key)
    requires Holding(data, owned, entries)
    ensures Holding(data[k := x], owned + {x}, entries[k := Entry(x.value, x.expireTime)])
  {
  }

  lemma HoldingRemove(data: map<Key, CacheItem>, owned: set<CacheItem>, entries: map<Key, Entry>, k: Key)
    requires Keyed(data, owned) && Holding(data, owned, entries) && k in data
    ensures Holding(data - {k}, owned - {data[k]}, entries - {k})
  {
    var x := data[k];
    forall j | j in data && j != k
      ensures data[j] != x
    {
      assert data[j].key == Some(j);
    }
  }

  lemma ListedAdd(nodes: seq<CacheItem>, owned: set<CacheItem>, order: seq<Key>, x: CacheItem, k: Key)
    requires Listed(nodes, owned, order) && x.key == Some(k)
    ensures Listed([x] + nodes, owned + {x}, [k] + order)
  {
  }

  lemma ListedRemove(nodes: seq<CacheItem>, owned: set<CacheItem>, order: seq<Key>, i: nat)
    requires Listed(nodes, owned, order) && i < |nodes| && Distinct(nodes)
    ensures Listed(Cut(nodes, i), owned - {nodes[i]}, Cut(order, i))
  {
    hide Cut;
    forall x | x in owned && x != nodes[i]
      ensures x in Cut(nodes, i)
    {
      var j :| 0 <= j < |nodes| && nodes[j] == x;
      assert Cut(nodes, i)[if j < i then j else j - 1] == x;
    }
  }

  lemma UsesRemove(data: map<Key, CacheItem>, owned: set<CacheItem>, counts: map<CacheItem, nat>, k: Key)
    requires Keyed(data, owned) && k in data
    ensures UsesOf(data - {k}, counts - {data[k]}) == UsesOf(data, counts) - {k}
  {
    var x := data[k];
    forall j | j in data && j != k
      ensures data[j] != x
    {
      assert data[j].key == Some(j);
    }
  }

  lemma UsesUpdate(data: map<Key, CacheItem>, owned: set<CacheItem>, counts: map<CacheItem, nat>, k: Key, n: nat)
    requires Keyed(data, owned) && k in data
    ensures UsesOf(data, counts[data[k] := n]) == UsesOf(data, counts)[k := n]
  {
    var x := data[k];
    forall j | j in data && j != k
      ensures data[j] != x
    {
      assert data[j].key == Some(j);
    }
  }

  lemma {:induction false} EraseAt(s: seq<Key>, i: nat)
    requires i < |s| && forall j :: 0 <= j < i ==> s[j] != s[i]
    ensures Erase(s, s[i]) == Cut(s, i)
  {
    if i > 0 {
      EraseAt(s[1..], i - 1);
      assert Cut(s, i) == [s[0]] + Cut(s[1..], i - 1);
    }
  }

  /** An element of distinct ones, and the ones beside it, are nowhere else. */
  lemma Neighbours<T>(s: seq<T>, k: nat)
    requires Distinct(s) && k < |s|
    ensures forall i :: 0 <= i < |s| && i != k ==> s[i] != s[k]
    ensures k > 0 ==> forall i :: 0 <= i < |s| && i != k - 1 ==> s[i] != s[k - 1]
    ensures k + 1 < |s| ==> forall i :: 0 <= i < |s| && i != k + 1 ==> s[i] != s[k + 1]
  {
  }

  /** An empty list: two linked sentinels. */
  method Sentinels() returns (head: CacheItem, tail: CacheItem)
    ensures fresh(head) && fresh(tail) && head != tail && head.next == tail && tail.prev == head
  {
    head := new CacheItem();
    tail := new CacheItem();
    head.next := tail;
    tail.prev := head;
  }

  class Shard {
    const policy: Policy
    var data: map<Key, CacheItem>
    var head: CacheItem
    var tail: CacheItem
    var lfu: LfuList    // consulted only under LFU
    var size: int
    ghost var nodes: seq<CacheItem>    // most recently linked first
    ghost var owned: set<CacheItem>    // the same nodes as a set
    ghost var view: State              // what the shard means

    constructor (policy: Policy)
      ensures Valid() && this.policy == policy && view == EMPTY && owned == {}
      ensures fresh(head) && fresh(tail) && fresh(lfu) && fresh(lfu.live)
    {
      this.policy := policy;
      data, size, nodes, owned, view := map[], 0, [], {}, EMPTY;
      var h, t := Sentinels();
      head, tail := h, t;
      lfu := new LfuList();
      new;
      EmptyAgrees();
    }

    /** head <-> nodes <-> tail. */
    ghost predicate Chain()
      reads `head, `tail, `nodes, `owned, head`next, tail`prev, owned`prev, owned`next
    {
      && head != tail && head !in owned && tail !in owned
      && (forall i :: 0 <= i < |nodes| ==> nodes[i] in owned) && Distinct(nodes)
      && head.next == (if nodes == [] then tail else nodes[0])
      && tail.prev == (if nodes == [] then head else nodes[|nodes| - 1])
      && (forall i {:trigger nodes[i].next} :: 0 <= i < |nodes| ==>
            nodes[i].next == if i + 1 < |nodes| then nodes[i + 1] else tail)
      && (forall i {:trigger nodes[i].prev} :: 0 <= i < |nodes| ==>
            nodes[i].prev == if i > 0 then nodes[i - 1] else head)
    }

    ghost predicate Stored()
      reads `data, `nodes, `owned, `view, owned`key, owned`value, owned`expireTime
    {
      Agree(data, nodes, owned, view.order, view.entries)
    }

    /** Under LFU, and only there, the index counts the uses of exactly the cached nodes. */
    ghost predicate Indexed()
      reads `lfu, `owned, `data, `view, lfu, lfu.live
    {
      && lfu.Valid()
      && (policy == LFU ==> lfu.Counts().Keys == owned && view.uses == UsesOf(data, lfu.Counts()))
      && (policy != LFU ==> view.uses == map[])
    }

    ghost predicate Valid()
      reads this, head, tail, owned, lfu, lfu.live
    {
      Consistent() && Indexed() && Tempered()
    }

    ghost predicate Tempered()
      reads `data, `owned, `view, owned`frequency, owned`lastAccess
    {
      Warm(policy, data, owned, view.heat)
    }

    method Link(x: CacheItem)
      requires Chain() && x !in owned && x != head && x != tail
      modifies `nodes, `owned, head`next, tail`prev, owned`prev, x`prev, x`next
      ensures Chain() && nodes == [x] + old(nodes) && owned == old(owned) + {x}
    {
      var oldNext := head.next;
      head.next := x;
      x.next := oldNext;
      x.prev := head;
      oldNext.prev := x;
      nodes, owned := [x] + nodes, owned + {x};
    }

    method Unlink(x: CacheItem, ghost k: nat)
      requires Chain() && k < |nodes| && nodes[k] == x
      modifies `nodes, `owned, head`next, tail`prev, owned`prev, owned`next
      ensures Chain() && nodes == Cut(old(nodes), k) && owned == old(owned) - {x}
    {
      hide Cut, Distinct;
      CutMembers(nodes, k);
      Neighbours(nodes, k);
      if x.prev != null {
        x.prev.next := x.next;
      }
      if x.next != null {
        x.next.prev := x.prev;
      }
      x.prev, x.next := null, null;
      nodes, owned := Cut(nodes, k), owned - {x};
    }

    ghost predicate Consistent()
      reads `data, `head, `tail, `size, `nodes, `owned, `view, head`next, tail`prev
      reads owned`prev, owned`next, owned`key, owned`value, owned`expireTime
    {
      Chain() && Stored() && size == |data|
    }

    /** Where a cached key is in the list, and that its key is nowhere else. */
    lemma PositionOf(k: Key) returns (i: nat)
      requires Chain() && Stored() && k in data
      ensures i < |nodes| && nodes[i] == data[k] && data[k] in owned && |view.order| == |nodes| && view.order[i] == k
      ensures Erase(view.order, k) == Cut(view.order, i) && Distinct(nodes)
      ensures k in view.entries
    {
      i :| 0 <= i < |nodes| && nodes[i] == data[k];
      forall j | 0 <= j < i
        ensures view.order[j] != view.order[i]
      {
        assert nodes[j] in owned && nodes[i] in owned && nodes[j] != nodes[i];
      }
      EraseAt(view.order, i);
    }

    /** Takes a cached key out of the map and the list. */
    method Detach(k: Key) returns (x: CacheItem)
      requires Consistent() && k in data
      modifies `data, `size, `nodes, `owned, `view, head`next, tail`prev, owned`prev, owned`next
      ensures Consistent() && x == old(data)[k] && x in old(owned) && owned == old(owned) - {x}
      ensures data == old(data) - {k} && view == Remove(old(view), k).(uses := old(view.uses))
    {
      hide Chain, Agree, Erase, Cut;
      x := data[k];
      ghost var i := PositionOf(k);
      AgreeRemove(data, nodes, owned, view.order, view.entries, i, k);
      data := data - {k};
      Unlink(x, i);
      size := size - 1;
      view := Remove(view, k).(uses := view.uses);
    }

    method Fill(x: CacheItem, k: Key, e: Entry)
      requires Consistent() && x !in owned && x != head && x != tail
      modifies x`key, x`value, x`expireTime
      ensures Consistent() && x.key == Some(k) && Entry(x.value, x.expireTime) == e
    {
      hide Agree;
      x.value, x.expireTime := e.value, e.expire;
      x.key := Some(k);
    }

    /** Puts a node under a new key at the front. */
    method Attach(x: CacheItem, k: Key, e: Entry)
      requires Consistent() && k !in data && x !in owned && x != head && x != tail
      modifies `data, `size, `nodes, `owned, `view, head`next, tail`prev, owned`prev
      modifies x`prev, x`next, x`key, x`value, x`expireTime
      ensures Consistent() && owned == old(owned) + {x} && data == old(data)[k := x]
      ensures view == State([k] + old(view.order), old(view.entries)[k := e], old(view.uses), old(view.heat))
    {
      hide Chain, Agree;
      Fill(x, k, e);
      AgreeAdd(data, nodes, owned, view.order, view.entries, x, k, e);
      data, size := data[k := x], size + 1;
      view := State([k] + view.order, view.entries[k := e], view.uses, view.heat);
      Link(x);
    }

    /** Writes a cached key in place, keeping its links. */
    method Overwrite(k: Key, e: Entry)
      requires Consistent() && k in data
      modifies `view, owned`value, owned`expireTime
      ensures Consistent() && view == old(view).(entries := old(view.entries)[k := e])
    {
      hide Listed;
      data[k].value, data[k].expireTime := e.value, e.expire;
      view := view.(entries := view.entries[k := e]);
    }

    /** Promotes a cached key to the front unless it is there already. */
    method MoveToHead(k: Key)
      requires Consistent() && k in data
      modifies `nodes, `owned, `view, head`next, tail`prev, owned`prev, owned`next
      ensures Consistent() && owned == old(owned) && view == old(view).(order := [k] + Erase(old(view.order), k))
    {
      hide Chain, Keyed, Listed, Holding, Erase, Cut, Distinct;
      ghost var i := PositionOf(k);
      var x := data[k];
      if head.next == x {
        FrontIsFirst(i);
        return;
      }
      ListedRemove(nodes, owned, view.order, i);
      KeyedKey(data, owned, k);
      ListedAdd(Cut(nodes, i), owned - {x}, Cut(view.order, i), x, k);
      assert owned - {x} + {x} == owned;
      Relink(x, i);
      view := view.(order := [k] + Erase(view.order, k));
    }

    lemma FrontIsFirst(i: nat)
      requires Chain() && i < |nodes| == |view.order| && head.next == nodes[i]
      requires Erase(view.order, view.order[i]) == Cut(view.order, i)
      ensures [view.order[i]] + Erase(view.order, view.order[i]) == view.order
    {
      assert nodes[0] == nodes[i];
    }

    method Relink(x: CacheItem, ghost i: nat)
      requires Chain() && i < |nodes| && nodes[i] == x
      modifies `nodes, `owned, head`next, tail`prev, owned`prev, owned`next
      ensures Chain() && nodes == [x] + Cut(old(nodes), i) && owned == old(owned)
    {
      hide Chain;
      OwnedApart();
      Unlink(x, i);
      Link(x);
      assert old(owned) - {x} + {x} == old(owned);
    }

    lemma SentinelsApart()
      requires Consistent()
      ensures head !in owned && tail !in owned
    {
    }

    lemma OwnedApart()
      requires Chain()
      ensures head !in owned && tail !in owned && forall i :: 0 <= i < |nodes| ==> nodes[i] in owned
    {
    }

    /** No recycled node is reachable from the shard. */
    ghost predicate Apart(pool: Pool)
      reads `head, `tail, `owned, pool
    {
      forall x :: x in pool.free ==> x !in owned && x != head && x != tail
    }

    /** Every object the shard may change by itself. */
    ghost function Footprint(): (r: set<object>)
      reads `head, `tail, `owned, `lfu, lfu`live
    {
      {this, head, tail, lfu} + owned + lfu.live
    }

    ghost predicate Ready(pool: Pool)
      reads this, head, tail, owned, lfu, lfu.live, pool
    {
      Valid() && Apart(pool)
    }

    lemma UsesWithout(k: Key)
      requires Valid() && policy == LFU && k in data
      ensures UsesOf(data - {k}, lfu.Counts() - {data[k]}) == view.uses - {k}
      ensures lfu.Counts().Keys - {data[k]} == owned - {data[k]}
    {
      hide Chain, LfuList.Valid, Freqs, Listed, Holding;
      UsesRemove(data, owned, lfu.Counts(), k);
    }

    lemma UsesWith(k: Key, n: nat)
      requires Valid() && policy == LFU && k in data
      ensures data[k] in lfu.Counts() && k in view.uses && view.uses[k] == lfu.Counts()[data[k]]
      ensures UsesOf(data, lfu.Counts()[data[k] := n]) == view.uses[k := n]
      ensures lfu.Counts()[data[k] := n].Keys == owned
    {
      hide Chain, LfuList.Valid, Freqs, Listed, Holding;
      UsesUpdate(data, owned, lfu.Counts(), k, n);
      assert lfu.Counts()[data[k] := n].Keys == lfu.Counts().Keys + {data[k]};
    }

    /** Records the use counts in the shard's meaning; nothing real changes. */
    ghost method SetUses(uses: map<Key, nat>)
      requires Consistent()
      modifies `view
      ensures Consistent() && view == old(view).(uses := uses)
    {
      hide Chain, Agree;
      view := view.(uses := uses);
    }

    /** Brings the shard's meaning up to date with the LFU index. */
    ghost method Reindex(uses: map<Key, nat>)
      requires Consistent() && lfu.Valid() && policy == LFU && view.heat == map[]
      requires lfu.Counts().Keys == owned && UsesOf(data, lfu.Counts()) == uses
      modifies `view
      ensures Valid() && view == old(view).(uses := uses)
    {
      hide Consistent, LfuList.Valid, UsesOf, Freqs;
      SetUses(uses);
    }

    ghost function HeatOf(k: Key): (h: Heat)
      requires k in data
      reads `data, data[k]
    {
      Heat(data[k].frequency, data[k].lastAccess)
    }

    lemma TemperedWithout(k: Key)
      requires Valid() && k in data
      ensures Warm(policy, data - {k}, owned - {data[k]}, view.heat - {k})
      ensures policy != AdmissionLFU ==> view.heat == map[]
    {
      hide Chain, Indexed, Listed, Holding;
      WarmRemove(policy, data, owned, view.heat, k);
    }

    ghost method SetHeat(heat: map<Key, Heat>)
      requires Consistent() && Warm(policy, data, owned, heat)
      modifies `view
      ensures Consistent() && Tempered() && view == old(view).(heat := heat)
    {
      hide Chain, Agree;
      view := view.(heat := heat);
    }

    /** Brings the shard's meaning up to date with one node's frequency and last access. */
    ghost method Reheat(k: Key)
      requires Consistent() && Indexed() && k in data
      requires Warm(policy, data - {k}, owned - {data[k]}, view.heat - {k}) && data[k] in owned
      requires policy != AdmissionLFU ==> view.heat == map[]
      modifies `view
      ensures Valid()
      ensures view == old(view).(heat := Warmed(policy, old(view.heat), k, HeatOf(k)))
    {
      hide Consistent, LfuList.Valid, LfuList.Counts, UsesOf, Warm;
      var x := data[k];
      WarmAdd(policy, data - {k}, owned - {x}, view.heat - {k}, x, k);
      assert (data - {k})[k := x] == data && owned - {x} + {x} == owned;
      assert policy == AdmissionLFU ==> (view.heat - {k})[k := HeatOf(k)] == view.heat[k := HeatOf(k)];
      SetHeat(Warmed(policy, view.heat, k, HeatOf(k)));
    }

    /** Takes a detached node out of the use counts. */
    method Unindex(x: CacheItem, k: Key)
      requires Consistent() && Tempered() && lfu.Valid() && (policy != LFU ==> view.uses == map[])
      requires policy == LFU ==> && lfu.Counts().Keys - {x} == owned
                                 && UsesOf(data, lfu.Counts() - {x}) == view.uses - {k}
      modifies `view, lfu, lfu.live
      ensures Valid() && view == old(view).(uses := old(view.uses) - {k}) && lfu.live <= old(lfu.live)
    {
      hide LfuList.Valid, UsesOf, Freqs, Consistent, Warm;
      if policy == LFU {
        lfu.Remove(x);
      } else {
        assert view.uses - {k} == view.uses;
      }
      SetUses(view.uses - {k});
    }

    /** Deletes a cached key everywhere. */
    method Release(k: Key) returns (x: CacheItem)
      requires Valid() && k in data
      modifies `data, `size, `nodes, `owned, `view, head`next, tail`prev, owned`prev, owned`next, lfu, lfu.live
      ensures Valid() && view == Remove(old(view), k) && data == old(data) - {k}
      ensures x in old(owned) && x != head && x != tail && owned == old(owned) - {x} && lfu.live <= old(lfu.live)
    {
      hide Consistent, Indexed, LfuList.Valid, LfuList.Counts, Erase, UsesOf, Warm;
      SentinelsApart();
      IndexValid();
      TemperedWithout(k);
      if policy == LFU {
        UsesWithout(k);
      }
      x := Detach(k);
      Unindex(x, k);
    }

    /** Deletes a cached key everywhere and recycles its node. */
    method Drop(k: Key, pool: Pool)
      requires Ready(pool) && k in data
      modifies `data, `size, `nodes, `owned, `view, head`next, tail`prev, owned`prev, owned`next, lfu, lfu.live, pool
      ensures Ready(pool) && view == Remove(old(view), k) && data == old(data) - {k}
      ensures owned <= old(owned) && pool.free == old(pool.free) + (old(owned) - owned) && lfu.live <= old(lfu.live)
    {
      hide Consistent, Indexed, Tempered, Remove;
      var x := Release(k);
      pool.Put(x);
    }

    method CountUse(k: Key)
      requires Valid() && policy == LFU && k in data
      modifies `view, lfu, lfu.live, owned`frequency
      ensures Valid() && fresh(lfu.live - old(lfu.live))
      ensures view == old(view).(uses := Counted(policy, old(view.uses), k))
    {
      hide Consistent, Indexed, LfuList.Valid, LfuList.Counts, UsesOf;
      Cached(k);
      IndexValid();
      var x := data[k];
      ghost var counts := lfu.Counts()[x := lfu.Counts()[x] + 1];
      UsesWith(k, lfu.Counts()[x] + 1);
      lfu.Increment(x);
      assert lfu.Counts() == counts;
      Reindex(view.uses[k := view.uses[k] + 1]);
    }

    method Stamp(k: Key, now: int)
      requires Valid() && k in data
      modifies `view, owned`lastAccess, owned`frequency
      ensures Valid() && view == old(view).(heat := Heated(policy, old(view.heat), k, now))
    {
      hide Consistent, Indexed, Warm;
      Cached(k);
      TemperedWithout(k);
      data[k].lastAccess := now;
      data[k].frequency := data[k].frequency + 1;
      Reheat(k);
    }

    /** A hit: moves the key under LRU, counts the use under LFU, stamps the node. */
    method Touch(k: Key, now: int)
      requires Valid() && k in data
      modifies `nodes, `owned, `view, head`next, tail`prev, owned`prev, owned`next, owned`lastAccess, owned`frequency
      modifies lfu, lfu.live
      ensures Valid() && owned == old(owned) && fresh(lfu.live - old(lfu.live))
      ensures view == old(view).(order := Use(policy, old(view.order), k), uses := Counted(policy, old(view.uses), k),
                                 heat := Heated(policy, old(view.heat), k, now))
    {
      hide Consistent, Indexed, Tempered, Erase;
      if policy == LRU {
        MoveToHeadValid(k);
      } else if policy == LFU {
        Stamp(k, now);
        CountUse(k);
      } else if policy == AdmissionLFU {
        Stamp(k, now);
      }
    }

    lemma IndexValid()
      requires Valid()
      ensures lfu.Valid() && (policy != LFU ==> view.uses == map[]) && (policy != AdmissionLFU ==> view.heat == map[])
    {
    }

    lemma Cached(k: Key)
      requires Valid()
      ensures k in data <==> k in view.entries
      ensures k in data ==> && data[k] in owned && view.entries[k] == Entry(data[k].value, data[k].expireTime)
                            && (policy == LFU ==> data[k] in lfu.Counts())
                            && (policy == AdmissionLFU ==>
                                  k in view.heat && view.heat[k] == Heat(data[k].frequency, data[k].lastAccess))
    {
      hide Chain, LfuList.Valid, Freqs, Listed;
    }

    /** Reads a key: a stale entry is dropped and missed, a live one counts as a use. */
    method Get(k: Key, now: int, pool: Pool) returns (hit: Option<Entry>)
      requires Ready(pool)
      modifies `data, `size, `nodes, `owned, `view, head`next, tail`prev
      modifies owned`prev, owned`next, owned`lastAccess, owned`frequency, lfu, lfu.live, pool
      ensures Ready(pool) && view == Read(policy, old(view), k, now)
      ensures var e := old(view.entries);
        && hit == (if k in e && !(0 < e[k].expire < now) then Some(e[k]) else None)
        && view.entries == (if k in e && hit.None? then e - {k} else e)
      ensures owned <= old(owned) && pool.free == old(pool.free) + (old(owned) - owned)
      ensures fresh(lfu.live - old(lfu.live))
    {
      hide Consistent, Indexed, Tempered, Remove;
      Cached(k);
      if k !in data {
        return None;
      }
      var e := Entry(data[k].value, data[k].expireTime);
      if Stale(e, now) {
        RemovedEntries(view, k);
        Drop(k, pool);
        return None;
      }
      Touch(k, now);
      return Some(e);
    }

    method Exists(k: Key, now: int, pool: Pool) returns (found: bool)
      requires Ready(pool)
      modifies `data, `size, `nodes, `owned, `view, head`next, tail`prev, owned`prev, owned`next, lfu, lfu.live, pool
      ensures Ready(pool)
      ensures var e := old(view.entries);
        && (found <==> k in e && !(0 < e[k].expire < now))
        && view == if k in e && !found then Remove(old(view), k) else old(view)
      ensures owned <= old(owned) && pool.free == old(pool.free) + (old(owned) - owned) && lfu.live <= old(lfu.live)
    {
      hide Consistent, Indexed, Tempered, Remove;
      Cached(k);
      found := k in data;
      if found && data[k].expireTime > 0 && now > data[k].expireTime {
        Drop(k, pool);
        found := false;
      }
    }

    method Delete(k: Key, pool: Pool) returns (found: bool)
      requires Ready(pool)
      modifies `data, `size, `nodes, `owned, `view, head`next, tail`prev, owned`prev, owned`next, lfu, lfu.live, pool
      ensures Ready(pool) && (found <==> k in old(view.entries)) && (found ==> view == Remove(old(view), k))
      ensures !found ==> view == old(view)
      ensures owned <= old(owned) && pool.free == old(pool.free) + (old(owned) - owned) && lfu.live <= old(lfu.live)
    {
      hide Consistent, Indexed, Tempered, Remove;
      Cached(k);
      found := k in data;
      if found {
        Drop(k, pool);
      }
    }

    /** A written key starts counting again from one. */
    method ResetUses(k: Key)
      requires Valid() && policy == LFU && k in data
      modifies `view, lfu, lfu.live, owned`frequency
      ensures Valid() && fresh(lfu.live - old(lfu.live)) && view == old(view).(uses := old(view.uses)[k := 1])
    {
      hide Consistent, Indexed, LfuList.Valid, Freqs, UsesOf;
      Cached(k);
      IndexValid();
      var x := data[k];
      UsesWith(k, 1);
      lfu.Reset(x);
      Reindex(view.uses[k := 1]);
    }

    /** Writes a cached key in place; under LRU it moves to the front. */
    method Rewrite(k: Key, e: Entry, now: int)
      requires Valid() && k in data
      modifies `nodes, `owned, `view, head`next, tail`prev, owned, lfu, lfu.live
      ensures Valid() && owned == old(owned) && fresh(lfu.live - old(lfu.live))
      ensures view == Put(policy, old(view), k, e, now)
    {
      hide Consistent, Indexed, Tempered, Erase;
      Cached(k);
      OverwriteValid(k, e);
      SetAccess(k, now);
      if policy == LRU {
        MoveToHeadValid(k);
      } else if policy == LFU {
        ResetUses(k);
      }
    }

    method OverwriteValid(k: Key, e: Entry)
      requires Valid() && k in data
      modifies `view, owned`value, owned`expireTime
      ensures Valid() && view == old(view).(entries := old(view.entries)[k := e])
    {
      hide Consistent, LfuList.Valid, LfuList.Counts, UsesOf, Warm;
      Overwrite(k, e);
    }

    method MoveToHeadValid(k: Key)
      requires Valid() && k in data
      modifies `nodes, `owned, `view, head`next, tail`prev, owned`prev, owned`next
      ensures Valid() && owned == old(owned) && view == old(view).(order := [k] + Erase(old(view.order), k))
    {
      hide Consistent, LfuList.Valid, LfuList.Counts, UsesOf, Erase, Warm;
      MoveToHead(k);
    }

    method SetAccess(k: Key, now: int)
      requires Valid() && k in data
      modifies `view, owned`lastAccess, owned`frequency
      ensures Valid() && view == old(view).(heat := Warmed(policy, old(view.heat), k, Heat(1, now)))
    {
      hide Consistent, Indexed, Warm;
      Cached(k);
      TemperedWithout(k);
      data[k].lastAccess := now;
      if policy == LFU || policy == AdmissionLFU {
        data[k].frequency := 1;
      }
      Reheat(k);
    }

    /** Starts counting the uses of a node that has just been attached. */
    method Index(x: CacheItem, k: Key)
      requires Consistent() && Tempered() && lfu.Valid() && (policy != LFU ==> view.uses == map[])
      requires policy == LFU ==> && x !in lfu.Counts() && lfu.Counts().Keys + {x} == owned
                                 && UsesOf(data, lfu.Counts()[x := 1]) == view.uses[k := 1]
      modifies `view, lfu, lfu.live, x`frequency
      ensures Valid() && fresh(lfu.live - old(lfu.live))
      ensures view == old(view).(uses := if policy == LFU then old(view.uses)[k := 1] else old(view.uses))
    {
      hide Consistent, LfuList.Valid, Freqs, UsesOf;
      if policy == LFU {
        assert lfu.Counts()[x := 1].Keys == lfu.Counts().Keys + {x};
        lfu.Add(x);
        Reindex(view.uses[k := 1]);
      }
    }

    lemma UsesNew(x: CacheItem, k: Key)
      requires Valid() && policy == LFU && x !in owned && k !in data
      ensures x !in lfu.Counts() && UsesOf(data[k := x], lfu.Counts()[x := 1]) == view.uses[k := 1]
    {
      hide Chain, LfuList.Valid, Freqs, Listed, Holding;
      assert forall j :: j in data ==> data[j] in owned;
    }

    /** Links a node that is not in the shard under a key that is not cached. */
    method Insert(x: CacheItem, k: Key, e: Entry, ghost now: int)
      requires Valid() && k !in data && x !in owned && x != head && x != tail && x.frequency == 1 && x.lastAccess == now
      modifies `data, `size, `nodes, `owned, `view, head`next, tail`prev, owned`prev, x, lfu, lfu.live
      ensures Valid() && view == Put(policy, old(view), k, e, now) && data == old(data)[k := x]
      ensures owned == old(owned) + {x} && fresh(lfu.live - old(lfu.live))
    {
      hide Consistent, Indexed, LfuList.Valid, Freqs, UsesOf, Erase, Warm;
      Cached(k);
      IndexValid();
      if policy == LFU {
        UsesNew(x, k);
        IndexCovers();
      }
      WarmAdd(policy, data, owned, view.heat, x, k);
      Attach(x, k, e);
      SetHeat(Warmed(policy, view.heat, k, Heat(1, now)));
      Index(x, k);
    }

    lemma IndexCovers()
      requires Valid() && policy == LFU
      ensures lfu.Counts().Keys == owned
    {
    }

    /** Takes a node from the pool and inserts it. */
    method InsertNew(k: Key, e: Entry, now: int, pool: Pool)
      requires Ready(pool) && k !in data
      modifies `data, `size, `nodes, `owned, `view, head`next, tail`prev, owned`prev, lfu, lfu.live, pool, pool.free
      ensures Ready(pool) && view == Put(policy, old(view), k, e, now)
      ensures pool.free <= old(pool.free) && owned >= old(owned) && fresh(owned - old(owned) - old(pool.free))
      ensures fresh(lfu.live - old(lfu.live))
    {
      hide Consistent, Indexed, Tempered, Put;
      var x := pool.Get();
      x.lastAccess := now;
      x.frequency := 1;
      Insert(x, k, e, now);
    }

    lemma LastNode()
      requires Valid()
      ensures tail.prev == head <==> data == map[]
      ensures tail.prev != head ==> tail.prev != null && tail.prev.key.Some? && tail.prev.key.value in data
      ensures tail.prev != head ==> view.order != [] && tail.prev.key.value == view.order[|view.order| - 1]
    {
      hide Holding, LfuList.Valid;
      if nodes == [] {
        assert owned == {};
        assert data == map[];
      } else {
        assert nodes[|nodes| - 1] in owned;
      }
    }

    /** LRU and FIFO: the node before the tail sentinel goes. */
    method EvictLast(pool: Pool) returns (ok: bool, ghost v: Option<Key>)
      requires Ready(pool) && (policy == LRU || policy == FIFO)
      modifies `data, `size, `nodes, `owned, `view, head`next, tail`prev, owned`prev, owned`next, lfu, lfu.live, pool
      ensures Ready(pool) && (ok <==> old(data) != map[]) && (ok <==> v.Some?)
      ensures ok ==> IsVictim(policy, old(view), v.value) && view == Remove(old(view), v.value)
      ensures !ok ==> view == old(view)
      ensures owned <= old(owned) && pool.free == old(pool.free) + (old(owned) - owned) && lfu.live <= old(lfu.live)
    {
      hide Consistent, Indexed, Tempered, Remove;
      LastNode();
      if tail.prev == head {
        return false, None;
      }
      var k := tail.prev.key.value;
      Cached(k);
      Drop(k, pool);
      return true, Some(k);
    }

    lemma LfuVictim(x: CacheItem)
      requires Valid() && policy == LFU && x in lfu.Counts() && forall y :: y in lfu.Counts() ==> lfu.Counts()[x] <= lfu.Counts()[y]
      ensures x.key.Some? && x.key.value in data && data[x.key.value] == x
      ensures IsVictim(policy, view, x.key.value)
      ensures UsesOf(data - {x.key.value}, lfu.Counts() - {x}) == view.uses - {x.key.value}
      ensures (lfu.Counts() - {x}).Keys == owned - {x}
    {
      hide Chain, LfuList.Valid, Freqs, Listed;
      UsesRemove(data, owned, lfu.Counts(), x.key.value);
      assert (lfu.Counts() - {x}).Keys == lfu.Counts().Keys - {x};
    }

    /** LFU: a node of the lowest bucket goes. */
    method EvictLFU() returns (x: CacheItem?, ghost v: Option<Key>)
      requires Valid() && policy == LFU
      modifies `data, `size, `nodes, `owned, `view, head`next, tail`prev, owned`prev, owned`next, lfu, lfu.live
      ensures Valid() && (x != null <==> old(data) != map[]) && (x != null <==> v.Some?)
      ensures x != null ==> IsVictim(policy, old(view), v.value) && view == Remove(old(view), v.value)
      ensures x != null ==> x in old(owned) && x != head && x != tail && owned == old(owned) - {x}
      ensures x == null ==> view == old(view) && owned == old(owned)
      ensures lfu.live <= old(lfu.live)
    {
      hide Consistent, Indexed, Tempered, LfuList.Valid, LfuList.Counts, UsesOf, Remove, IsVictim;
      IndexValid();
      CountsEmpty();
      SentinelsApart();
      forall y | y in lfu.Counts() && (forall z :: z in lfu.Counts() ==> lfu.Counts()[y] <= lfu.Counts()[z]) {
        LfuVictim(y);
      }
      x := lfu.RemoveLFU();
      if x == null {
        return null, None;
      }
      v := Some(x.key.value);
      ReleaseUncounted(x.key.value);
    }

    /** Detaches a key whose node the LFU index has already given up. */
    method ReleaseUncounted(k: Key)
      requires Consistent() && lfu.Valid() && policy == LFU && view.heat == map[] && k in data
      requires lfu.Counts().Keys == owned - {data[k]} && UsesOf(data - {k}, lfu.Counts()) == view.uses - {k}
      modifies `data, `size, `nodes, `owned, `view, head`next, tail`prev, owned`prev, owned`next
      ensures Valid() && view == Remove(old(view), k) && owned == old(owned) - {old(data)[k]}
      ensures old(data)[k] in old(owned)
    {
      hide Consistent, LfuList.Valid, Freqs, UsesOf, Erase;
      var _ := Detach(k);
      assert view.heat == map[];
      Reindex(view.uses - {k});
    }

    lemma CountsEmpty()
      requires Valid() && policy == LFU
      ensures lfu.Counts() == map[] <==> data == map[]
    {
      hide Chain, LfuList.Valid, Freqs, Listed;
      if data != map[] {
        var k :| k in data;
        assert data[k] in lfu.Counts();
      } else {
        assert owned == {};
      }
    }

    /** AdmissionLFU: scans at most `sampleSize` nodes in map order, which is arbitrary,
        and returns the coldest of them. */
    method PickVictim(sampleSize: int) returns (victim: CacheItem?, ghost sample: set<Key>)
      requires Valid()
      ensures victim == null <==> data == map[]
      ensures sample <= data.Keys && |sample| == Min(SampleSize(sampleSize), |data|)
      ensures victim != null ==> && victim.key.Some? && victim.key.value in sample && data[victim.key.value] == victim
                                 && forall k :: k in sample ==> Colder(HeatOf(victim.key.value), HeatOf(k))
    {
      hide Chain, Listed, Holding, Indexed, Tempered;
      victim, sample := null, {};
      if |data| == 0 {
        return;
      }
      var n := Min(SampleSize(sampleSize), |data|);
      var rest, cnt := data.Keys, 0;
      while cnt < n
        invariant rest <= data.Keys && sample == data.Keys - rest && cnt == |sample| <= n && |rest| == |data| - cnt
        invariant victim == null <==> sample == {}
        invariant victim != null ==> && victim.key.Some? && victim.key.value in sample && data[victim.key.value] == victim
                                     && forall k :: k in sample ==> Colder(HeatOf(victim.key.value), HeatOf(k))
        decreases n - cnt
      {
        assert rest != {};
        var k :| k in rest;
        var it := data[k];
        assert it in owned && it.key == Some(k);
        if victim == null || it.frequency < victim.frequency
           || (it.frequency == victim.frequency && it.lastAccess < victim.lastAccess) {
          victim := it;
        }
        rest, sample, cnt := rest - {k}, sample + {k}, cnt + 1;
      }
      assert sample != {};
    }

    lemma SampledVictim(sample: set<Key>, v: Key)
      requires Valid() && policy == AdmissionLFU && v in sample && sample <= data.Keys
      requires |sample| == Min(SAMPLE, |data|) && forall k :: k in sample ==> Colder(HeatOf(v), HeatOf(k))
      ensures IsVictim(policy, view, v)
    {
      hide Chain, Keyed, Listed, Indexed, Colder;
      assert data.Keys == view.entries.Keys;
      assert Coldest(view.heat, sample, v);
    }

    /** Evicts exactly one victim of the policy's choosing, unless the shard is empty. */
    method Evict(pool: Pool) returns (ok: bool, ghost v: Option<Key>)
      requires Ready(pool)
      modifies `data, `size, `nodes, `owned, `view, head`next, tail`prev, owned`prev, owned`next, lfu, lfu.live, pool
      ensures Ready(pool) && (ok <==> old(data) != map[]) && (ok <==> v.Some?)
      ensures ok ==> IsVictim(policy, old(view), v.value) && view == Remove(old(view), v.value)
      ensures !ok ==> view == old(view)
      ensures owned <= old(owned) && pool.free == old(pool.free) + (old(owned) - owned) && lfu.live <= old(lfu.live)
    {
      hide Consistent, Indexed, Tempered, Remove, IsVictim;
      if policy == LFU {
        var x;
        x, v := EvictLFU();
        if x == null {
          return false, None;
        }
        pool.Put(x);
        return true, v;
      }
      if policy == AdmissionLFU {
        var victim, sample := PickVictim(SAMPLE);
        if victim == null {
          return false, None;
        }
        SampledVictim(sample, victim.key.value);
        v := Some(victim.key.value);
        Drop(victim.key.value, pool);
        return true, v;
      }
      ok, v := EvictLast(pool);
    }

    lemma Sized()
      requires Valid()
      ensures size == |data| == |view.entries|
    {
      hide Chain, Keyed, Listed, Indexed;
      assert data.Keys == view.entries.Keys;
    }

    /** Stores a key. A full shard evicts one victim first, except that under
        AdmissionLFU the newcomer is refused unless the admission filter's verdict
        `admit` lets it in. */
    method Set(k: Key, e: Entry, now: int, cap: int, admit: bool, pool: Pool)
      requires Ready(pool)
      modifies `data, `size, `nodes, `owned, `view, head`next, tail`prev, owned, lfu, lfu.live, pool, pool.free
      ensures Ready(pool) && Written(policy, cap, old(view), k, e, now, !admit, view)
      ensures policy == AdmissionLFU && !admit && k !in old(view.entries) && 0 < cap <= |old(view.entries)| ==>
        view == old(view)
      ensures pool.free <= old(pool.free) + old(owned) && fresh(owned - old(owned) - old(pool.free))
      ensures fresh(lfu.live - old(lfu.live))
    {
      hide Consistent, Indexed, Tempered, Remove, Put, IsVictim;
      Cached(k);
      Sized();
      if k in data {
        Rewrite(k, e, now);
        return;
      }
      if cap > 0 && size >= cap {
        if policy == AdmissionLFU && !admit {
          return;
        }
        ghost var before := view;
        var ok, v := Evict(pool);
        GoneToo(before, v.value, k);
        Cached(k);
      }
      InsertNew(k, e, now, pool);
    }

    lemma GoneToo(s: State, v: Key, k: Key)
      requires k !in s.entries
      ensures k !in Remove(s, v).entries
    {
    }

    /** Applies an authoritative value: evicts until there is room, never refuses. */
    method Import(k: Key, e: Entry, now: int, cap: int, pool: Pool)
      requires Ready(pool)
      modifies `data, `size, `nodes, `owned, `view, head`next, tail`prev, owned, lfu, lfu.live, pool, pool.free
      ensures Ready(pool) && (k in old(view.entries) || cap <= 0 ==> view == Put(policy, old(view), k, e, now))
      ensures k !in old(view.entries) && cap > 0 ==>
        exists s :: Evicts(policy, cap, old(view), s) && view == Put(policy, s, k, e, now)
      ensures pool.free <= old(pool.free) + old(owned) && fresh(owned - old(owned) - old(pool.free))
      ensures fresh(lfu.live - old(lfu.live))
    {
      hide Consistent, Indexed, Tempered, Evicts, Put;
      Cached(k);
      if k in data {
        Rewrite(k, e, now);
        return;
      }
      if cap > 0 {
        EvictUntilRoom(k, cap, pool);
      }
      Cached(k);
      InsertNew(k, e, now, pool);
    }

    method EvictUntilRoom(ghost k: Key, cap: int, pool: Pool)
      requires Ready(pool) && cap > 0 && k !in view.entries
      modifies `data, `size, `nodes, `owned, `view, head`next, tail`prev, owned`prev, owned`next, lfu, lfu.live, pool
      ensures Ready(pool) && k !in view.entries && Evicts(policy, cap, old(view), view)
      ensures owned <= old(owned) && pool.free == old(pool.free) + (old(owned) - owned) && lfu.live <= old(lfu.live)
    {
      hide Consistent, Indexed, Tempered, Remove, IsVictim, Evicts;
      Sized();
      while size >= cap
        invariant Ready(pool) && k !in view.entries && size == |view.entries|
        invariant forall s :: Evicts(policy, cap, view, s) ==> Evicts(policy, cap, old(view), s)
        invariant owned <= old(owned) && pool.free == old(pool.free) + (old(owned) - owned) && lfu.live <= old(lfu.live)
        decreases size
      {
        ghost var before := view;
        Sized();
        var ok, v := Evict(pool);
        Sized();
        if !ok {
          break;
        }
        EvictsMore(policy, cap, before, v.value);
        GoneToo(before, v.value, k);
        VictimSize(before, v.value);
      }
      EnoughRoom(policy, cap, view);
    }

    lemma VictimSize(s: State, v: Key)
      requires IsVictim(policy, s, v)
      ensures |Remove(s, v).entries| == |s.entries| - 1
    {
      RemoveSize(s, v);
    }

    lemma OrderMatches(k: Key)
      requires Chain() && Stored()
      ensures k in view.order <==> k in view.entries
    {
      if k in data {
        var i := PositionOf(k);
      }
      if k in view.order {
        var i :| 0 <= i < |view.order| && view.order[i] == k;
        assert nodes[i] in owned;
      }
    }

    lemma OrderDistinct()
      requires Chain() && Stored()
      ensures Distinct(view.order)
    {
      hide Holding;
      forall i, j | 0 <= i < j < |view.order|
        ensures view.order[i] != view.order[j]
      {
        assert nodes[i] in owned && nodes[j] in owned && nodes[i] != nodes[j];
      }
    }

    lemma UsesMatch()
      requires Stored() && Indexed()
      ensures view.uses.Keys == if policy == LFU then view.entries.Keys else {}
    {
      hide LfuList.Valid, Freqs, Listed;
    }

    lemma HeatMatches()
      requires Stored() && Tempered()
      ensures view.heat.Keys == if policy == AdmissionLFU then view.entries.Keys else {}
    {
      hide Listed;
    }

    /** The list, the map and the counts describe the same keys. */
    lemma ViewWellFormed()
      requires Valid()
      ensures WellFormed(policy, view)
    {
      hide Chain, Stored, Indexed, Tempered;
      forall k
        ensures k in view.order <==> k in view.entries
      {
        OrderMatches(k);
      }
      OrderDistinct();
      UsesMatch();
      HeatMatches();
    }

    /** Ages a node. */
    method Halve(k: Key)
      requires Valid() && policy == AdmissionLFU && k in data
      modifies `view, owned`frequency
      ensures Valid() && k in old(view.heat) && view == old(view).(heat := old(view.heat)[k := Cooled(old(view.heat)[k])])
    {
      hide Consistent, Indexed, Warm;
      Cached(k);
      TemperedWithout(k);
      if data[k].frequency > 1 {
        data[k].frequency := data[k].frequency / 2;
      }
      Reheat(k);
    }

    /** Collects the stale keys and, under AdmissionLFU, ages the others. */
    method CollectStale(now: int) returns (stale: set<Key>)
      requires Valid()
      modifies `view, owned`frequency
      ensures Valid() && stale == set k | k in view.entries && Stale(view.entries[k], now)
      ensures view == old(view).(heat := CooledBut(old(view.heat), stale))
    {
      hide Consistent, Indexed, Tempered, Cooled;
      stale := {};
      var rest := data.Keys;
      AllHeat();
      IndexValid();
      while rest != {}
        invariant Valid() && rest <= data.Keys
        invariant forall k :: k in stale <==> k in data && k !in rest && k in view.entries && Stale(view.entries[k], now)
        invariant view == old(view).(heat := CooledBut(old(view.heat), rest + stale))
        decreases rest
      {
        var k :| k in rest;
        Cached(k);
        assert rest - {k} + (stale + {k}) == rest + stale;
        if data[k].expireTime > 0 && now > data[k].expireTime {
          stale := stale + {k};
        } else {
          CooledMore(old(view.heat), rest, stale, k);
          if policy == AdmissionLFU {
            Halve(k);
          }
        }
        rest := rest - {k};
      }
      forall k | k in view.entries
        ensures k in data
      {
        Cached(k);
      }
      assert rest + stale == stale;
    }

    lemma AllHeat()
      requires Valid()
      ensures CooledBut(view.heat, data.Keys + {}) == view.heat
    {
      hide Consistent, Indexed;
    }

    method DropAll(keys: set<Key>, pool: Pool)
      requires Ready(pool)
      modifies `data, `size, `nodes, `owned, `view, head`next, tail`prev, owned`prev, owned`next, lfu, lfu.live, pool
      ensures Ready(pool) && view == Restrict(old(view), old(view.entries) - keys)
      ensures owned <= old(owned) && pool.free == old(pool.free) + (old(owned) - owned) && lfu.live <= old(lfu.live)
    {
      hide Consistent, Indexed, Tempered, Remove, Restrict, WellFormed;
      ghost var before := view;
      ViewWellFormed();
      RestrictAll(policy, before);
      var rest := keys;
      assert before.entries - (keys - rest) == before.entries;
      while rest != {}
        invariant Ready(pool) && rest <= keys && view == Restrict(before, before.entries - (keys - rest))
        invariant owned <= old(owned) && pool.free == old(pool.free) + (old(owned) - owned) && lfu.live <= old(lfu.live)
        decreases rest
      {
        var k :| k in rest;
        DropsOne(policy, before, keys, rest, k);
        Cached(k);
        if k in data {
          Drop(k, pool);
        }
        rest := rest - {k};
      }
      assert before.entries - (keys - rest) == before.entries - keys;
    }

    /** Drops every stale key and nothing else, and ages the others. */
    method Cleanup(now: int, pool: Pool)
      requires Ready(pool)
      modifies `data, `size, `nodes, `owned, `view, head`next, tail`prev
      modifies owned`prev, owned`next, owned`frequency, lfu, lfu.live, pool
      ensures Ready(pool) && view == Clean(old(view), now)
      ensures view.entries == var e := old(view.entries); map k | k in e && !(0 < e[k].expire < now) :: e[k]
      ensures owned <= old(owned) && pool.free == old(pool.free) + (old(owned) - owned) && lfu.live <= old(lfu.live)
    {
      hide Consistent, Indexed, Tempered, Restrict, Clean;
      ghost var before := view;
      var stale := CollectStale(now);
      assert view.entries - stale == Fresh(view.entries, now);
      CleanedBut(before, stale, now);
      CleanEntries(before, now);
      DropAll(stale, pool);
    }

    /** One operation under the shard's lock. The answer is the entry read by a Get, or
        whether an Exists or Delete found the key. */
    method Apply(op: Op, cap: int, admit: bool, pool: Pool) returns (hit: Option<Entry>, found: bool)
      requires Ready(pool) && Fits(cap, view)
      modifies Footprint(), pool, pool.free
      ensures Ready(pool) && Step(policy, cap, old(view), op, view) && Answers(old(view), op, hit, found)
      ensures Admits(policy, cap, old(view), op, admit, view)
      ensures pool.free <= old(pool.free) + old(owned) && fresh(owned - old(owned) - old(pool.free))
      ensures (head == old(head) || fresh(head)) && (tail == old(tail) || fresh(tail)) && (lfu == old(lfu) || fresh(lfu))
      ensures fresh(lfu.live - old(lfu.live))
    {
      hide Consistent, Indexed, Tempered, Remove, Restrict, Written, Evicts, Put, WellFormed, Read;
      hit, found := None, false;
      match op
      case Get(k, at) => hit := Get(k, at, pool);
      case Exists(k, at) => found := Exists(k, at, pool);
      case Set(k, e, at) =>
        ghost var before := view;
        Set(k, e, at, cap, admit, pool);
        WrittenAnyway(policy, cap, before, k, e, at, !admit, view);
        if admit {
          WrittenHolds(policy, cap, before, k, e, at, view);
        }
      case Import(k, e, at) =>
        ghost var before := view;
        Import(k, e, at, cap, pool);
        ImportWrites(policy, cap, before, k, e, at, view);
      case Delete(k) =>
        ghost var before := view;
        ViewWellFormed();
        found := Delete(k, pool);
        if !found {
          RemoveAbsent(policy, before, k);
        }
      case Cleanup(at) => Cleanup(at, pool);
      case Clear => Clear(pool);
    }

    /** Empties the shard; every node goes to the pool, and the list and the LFU index
        start afresh. */
    method Clear(pool: Pool)
      requires Ready(pool)
      modifies this, pool
      ensures Ready(pool) && view == EMPTY && owned == {} && pool.free == old(pool.free) + old(owned)
      ensures fresh(head) && fresh(tail) && fresh(lfu) && fresh(lfu.live)
    {
      hide Consistent, Indexed, Tempered;
      ValuesAreOwned();
      pool.free := pool.free + data.Values;
      Reset();
    }

    lemma ValuesAreOwned()
      requires Consistent()
      ensures data.Values == owned
    {
      hide Holding, Distinct;
      forall x | x in owned
        ensures x in data.Values
      {
        assert x.key.Some? && data[x.key.value] == x;
      }
    }

    lemma NothingLinked()
      requires head != tail && head.next == tail && tail.prev == head
      requires nodes == [] && owned == {} && data == map[] && size == 0 && view == EMPTY
      ensures Consistent()
    {
      EmptyAgrees();
    }

    lemma NothingCounted()
      requires lfu.Valid() && lfu.Counts() == map[] && owned == {} && data == map[] && view.uses == map[] && view.heat == map[]
      ensures Indexed() && Tempered()
    {
    }

    /** Back to an empty list, map and index. */
    method Reset()
      modifies this
      ensures Valid() && view == EMPTY && owned == {}
      ensures fresh(head) && fresh(tail) && fresh(lfu) && fresh(lfu.live)
    {
      hide LfuList.Valid, LfuList.Counts, Indexed, Tempered, Consistent;
      head, tail := Sentinels();
      lfu := new LfuList();
      data, size, nodes, owned, view := map[], 0, [], {}, EMPTY;
      NothingLinked();
      NothingCounted();
    }
  }

  lemma RemovedEntries(s: State, k: Key)
    ensures Remove(s, k).entries == s.entries - {k}
  {
  }

  lemma CleanEntries(s: State, now: int)
    ensures Clean(s, now).entries == map k | k in s.entries && !(0 < s.entries[k].expire < now) :: s.entries[k]
  {
  }

  /** Only the admission filter keeps a Set out, and only a new key of a full shard. */
  ghost predicate Admits(policy: Policy, cap: int, s: State, op: Op, admit: bool, s': State) {
    op.Set? && policy == AdmissionLFU && op.k !in s.entries && 0 < cap <= |s.entries| ==>
      if admit then op.k in s'.entries else s' == s
  }

  /** What an operation answers, from the state it found. */
  ghost predicate Answers(s: State, op: Op, hit: Option<Entry>, found: bool) {
    && (op.Get? ==>
          hit == if op.k in s.entries && !(0 < s.entries[op.k].expire < op.now) then Some(s.entries[op.k]) else None)
    && (op.Exists? ==> (found <==> op.k in s.entries && !(0 < s.entries[op.k].expire < op.now)))
    && (op.Delete? ==> (found <==> op.k in s.entries))
  }

  lemma EvictsMore(policy: Policy, cap: int, s: State, v: Key)
    requires IsVictim(policy, s, v) && |s.entries| >= cap
    ensures forall s' :: Evicts(policy, cap, Remove(s, v), s') ==> Evicts(policy, cap, s, s')
  {
    hide Remove;
    RemoveSize(s, v);
  }

  lemma EnoughRoom(policy: Policy, cap: int, s: State)
    requires |s.entries| < cap
    ensures Evicts(policy, cap, s, s)
  {
  }

  lemma WrittenAnyway(policy: Policy, cap: int, s: State, k: Key, e: Entry, now: int, refusable: bool, s': State)
    requires Written(policy, cap, s, k, e, now, refusable, s')
    ensures Written(policy, cap, s, k, e, now, true, s')
  {
  }

  lemma WrittenHolds(policy: Policy, cap: int, s: State, k: Key, e: Entry, now: int, s': State)
    requires Written(policy, cap, s, k, e, now, false, s')
    ensures k in s'.entries
  {
    hide IsVictim;
  }

  lemma ImportWrites(policy: Policy, cap: int, s: State, k: Key, e: Entry, now: int, s': State)
    requires Fits(cap, s) && (k in s.entries || cap <= 0 ==> s' == Put(policy, s, k, e, now))
    requires k !in s.entries && cap > 0 ==> exists s1 :: Evicts(policy, cap, s, s1) && s' == Put(policy, s1, k, e, now)
    ensures Written(policy, cap, s, k, e, now, false, s')
  {
    hide Put, Evicts, Remove;
    if k !in s.entries && cap > 0 {
      var s1 :| Evicts(policy, cap, s, s1) && s' == Put(policy, s1, k, e, now);
      EvictsWrites(policy, cap, s, s1, k, e, now);
    }
  }

  lemma CooledMore(heat: map<Key, Heat>, rest: set<Key>, stale: set<Key>, k: Key)
    requires k in rest && k !in stale
    ensures CooledBut(heat, rest - {k} + stale)
         == if k in heat then CooledBut(heat, rest + stale)[k := Cooled(heat[k])] else CooledBut(heat, rest + stale)
    ensures k in heat ==> CooledBut(heat, rest + stale)[k] == heat[k]
  {
  }

  lemma DropsOne(policy: Policy, s: State, keys: set<Key>, rest: set<Key>, k: Key)
    requires WellFormed(policy, s) && k in rest && rest <= keys
    ensures var keep, less := s.entries - (keys - rest), s.entries - (keys - (rest - {k}));
      && Remove(Restrict(s, keep), k) == Restrict(s, less) && Restrict(s, keep).entries == keep
      && (k !in keep ==> Restrict(s, less) == Restrict(s, keep))
  {
    hide KeepIn;
    var keep := s.entries - (keys - rest);
    RestrictRemove(s, keep, k);
    assert keep - {k} == s.entries - (keys - (rest - {k}));
    assert k !in keep ==> keep - {k} == keep;
  }

  /** It does not matter whether what a cleanup drops was aged. */
  lemma CleanedBut(s: State, stale: set<Key>, now: int)
    requires stale == set k | k in s.entries && Stale(s.entries[k], now)
    ensures Restrict(s.(heat := CooledBut(s.heat, stale)), Fresh(s.entries, now)) == Clean(s, now)
  {
    hide KeepIn;
  }

  /** The requested sample size, defaulted and clamped. */
  function SampleSize(requested: int): (n: int)
    ensures 1 <= n <= 20 && (1 <= requested <= 20 ==> n == requested) && (requested <= 0 ==> n == 5)
    ensures requested > 20 ==> n == 20
  {
    if requested <= 0 then 5 else if requested > 20 then 20 else requested
  }

  lemma KeyedKey(data: map<Key, CacheItem>, owned: set<CacheItem>, k: Key)
    requires Keyed(data, owned) && k in data
    ensures data[k] in owned && data[k].key == Some(k)
  {
  }
}
