/** The per-peer hint queue as the program holds it: hint objects with
    back-pointers, a doubly linked ring for the FIFO (`container/list`), an array
    heap whose slots are written back into the items (`container/heap`), a key
    index and running counters. */
module Handoff {
  import opened HandoffSpec
  import opened Wrappers
  import opened BinaryHeap

  class HintItem {
    var hint: Hint        // the data fields; only `nextAt` and `tries` change
    var elem: Element?    // the item's place in the FIFO, if it is there
    var heapIndex: int    // the item's slot in the backoff heap, or -1

    constructor (h: Hint)
      ensures hint == h && elem == null && heapIndex == -1
    {
      hint, elem, heapIndex := h, null, -1;
    }
  }

  /** A link of `container/list`; an item holds the element that holds it, and the
      root of the ring holds no item. */
  class Element {
    var next: Element?
    var prev: Element?
    var item: HintItem?

    constructor (item: HintItem?)
      ensures this.item == item
    {
      this.item := item;
      next, prev := null, null;
    }
  }

  class Fifo {
    const root: Element
    ghost var elems: seq<Element>
    ghost var contents: seq<HintItem>
    ghost var hints: seq<Hint>
    ghost var links: set<Element>    // every element that may still be linked

    constructor ()
      ensures Indexed() && contents == [] && hints == [] && links == {} && fresh(root)
    {
      var r := new Element(null);
      root := r;
      elems, contents, hints, links := [], [], [], {};
      new;
      root.next, root.prev := root, root;
    }

    /** The root and the elements form a ring in list order. */
    ghost predicate Ring()
      reads `elems, `links, root, links
    {
      && root !in links && (forall i :: 0 <= i < |elems| ==> elems[i] in links)
      && (forall i, j :: 0 <= i < j < |elems| ==> elems[i] != elems[j])
      && root.next == (if elems == [] then root else elems[0])
      && root.prev == (if elems == [] then root else elems[|elems| - 1])
      && (forall i {:trigger elems[i].next} :: 0 <= i < |elems| ==>
            elems[i].next == if i + 1 < |elems| then elems[i + 1] else root)
      && (forall i {:trigger elems[i].prev} :: 0 <= i < |elems| ==>
            elems[i].prev == if i > 0 then elems[i - 1] else root)
    }

    /** Element `i` holds item `i`, which points back at it. */
    ghost predicate Indexed()
      reads this, root, links, contents
    {
      && Ring() && |hints| == |contents| == |elems|
      && (forall i :: 0 <= i < |elems| ==>
            && elems[i].item == contents[i] && contents[i].elem == elems[i]
            && contents[i].heapIndex == -1 && contents[i].hint == hints[i])
    }

    lemma DistinctContents()
      requires Indexed()
      ensures Distinct(contents) && |hints| == |contents|
    {
    }

    lemma NotInHeap(k: nat)
      requires Indexed() && k < |contents|
      ensures contents[k].heapIndex == -1 && contents[k].elem != null
    {
    }

    method Front() returns (x: HintItem?)
      requires Indexed()
      ensures if hints == [] then x == null else contents != [] && x == contents[0] && x.hint == hints[0]
    {
      x := if root.next == root then null else root.next.item;
    }

    method Link(e: Element)
      requires Ring() && e != root && e !in links
      modifies `elems, `links, root`next, root`prev, links`next, links`prev, e`next, e`prev
      ensures Ring() && elems == old(elems) + [e] && links == old(links) + {e}
    {
      var last := root.prev;
      e.prev, e.next := last, root;
      last.next := e;
      root.prev := e;
      elems, links := elems + [e], links + {e};
    }

    method Unlink(e: Element, ghost k: nat)
      requires Ring() && k < |elems| && elems[k] == e
      modifies `elems, root`next, root`prev, links`next, links`prev
      ensures Ring() && elems == Cut(old(elems), k)
    {
      hide Cut;
      e.prev.next := e.next;
      e.next.prev := e.prev;
      e.next, e.prev := null, null;
      elems := Cut(elems, k);
    }

    method PushItem(x: HintItem)
      requires Indexed() && x !in contents && x.heapIndex == -1
      modifies this, root`next, root`prev, links`next, links`prev, x`elem
      ensures Indexed() && contents == old(contents) + [x] && hints == old(hints) + [x.hint]
      ensures fresh(links - old(links))
    {
      hide Ring;
      var e := new Element(x);
      Link(e);
      contents, hints := contents + [x], hints + [x.hint];
      x.elem := e;
    }

    method RemoveItem(x: HintItem, ghost k: nat)
      requires Indexed() && k < |contents| && contents[k] == x
      modifies this, root`next, root`prev, links`next, links`prev, x`elem
      ensures Indexed() && hints == Cut(old(hints), k)
      ensures links == old(links) && x.elem == null
      ensures forall y :: y in contents <==> y in old(contents) && y != x
    {
      hide Cut, Distinct;
      DistinctContents();
      CutMembers(contents, k);
      Unlink(x.elem, k);
      contents, hints := Cut(contents, k), Cut(hints, k);
      x.elem := null;
    }

    /** Lets `x` take over the element of `prior`, which keeps its stale handle. */
    method Put(prior: HintItem, x: HintItem, ghost k: nat)
      requires Indexed() && k < |contents| && contents[k] == prior && x !in contents
      modifies `contents, `hints, x`elem, x`heapIndex, links`item
      ensures Indexed() && hints == old(hints)[k := x.hint] && contents == old(contents)[k := x]
    {
      var e := prior.elem;
      e.item := x;
      x.elem := e;
      x.heapIndex := -1;
      contents, hints := contents[k := x], hints[k := x.hint];
    }
  }

  class DelayHeap {
    var items: seq<HintItem>
    ghost var hints: seq<Hint>
    ghost var owned: set<HintItem>

    constructor ()
      ensures Indexed() && items == [] && hints == [] && owned == {}
    {
      items, hints, owned := [], [], {};
    }

    /** Every item is in exactly one slot and knows which. */
    ghost predicate Indexed()
      reads this, owned
    {
      && |hints| == |items|
      && (forall i :: 0 <= i < |items| ==>
            items[i] in owned && items[i].heapIndex == i && items[i].hint == hints[i] && items[i].elem == null)
      && (forall x :: x in owned ==> 0 <= x.heapIndex < |items| && items[x.heapIndex] == x)
    }

    method Swap(i: nat, j: nat)
      requires i < |items| && j < |items| && Indexed()
      modifies `items, `hints, owned`heapIndex
      ensures Indexed() && items == Exchange(old(items), i, j) && hints == Exchange(old(hints), i, j)
    {
      items, hints := items[i := items[j]][j := items[i]], Exchange(hints, i, j);
      items[i].heapIndex := i;
      items[j].heapIndex := j;
    }

    lemma SameHints()
      requires Indexed()
      ensures |hints| == |items| && forall i :: 0 <= i < |items| ==> items[i].hint == hints[i]
    {
    }

    method SiftUp(start: nat)
      requires start < |items| && Indexed()
      modifies `items, `hints, owned`heapIndex
      ensures Indexed() && hints == Up(old(hints), start, NextAt)
      ensures |items| == |old(items)| && forall k :: start < k < |items| ==> items[k] == old(items)[k]
    {
      hide Indexed;
      SameHints();
      var j: nat := start;
      while j > 0
        invariant j <= start < |items| == |old(items)| && Indexed() && |hints| == |items|
        invariant Up(hints, j, NextAt) == Up(old(hints), start, NextAt)
        invariant forall k :: start < k < |items| ==> items[k] == old(items)[k]
      {
        SameHints();
        var i := (j - 1) / 2;
        if items[i].hint.nextAt <= items[j].hint.nextAt {
          break;
        }
        Swap(i, j);
        j := i;
      }
    }

    /** One turn of the sift-down loop: the slot the item at `i` moves to, or `i`. */
    method SinkOnce(i: nat, n: nat) returns (j: nat)
      requires i <= n <= |items| && Indexed()
      modifies `items, `hints, owned`heapIndex
      ensures Indexed() && |items| == |old(items)|
      ensures if Sinks(old(hints), i, n, NextAt) then i < j < n else j == i && hints == old(hints)
      ensures i <= j <= n && Down(hints, j, n, NextAt) == Down(old(hints), i, n, NextAt)
      ensures forall k :: n <= k < |items| ==> items[k] == old(items)[k]
    {
      hide Indexed;
      SameHints();
      if 2 * i + 1 >= n {
        return i;
      }
      j := 2 * i + 1;
      if j + 1 < n && items[j + 1].hint.nextAt < items[j].hint.nextAt {
        j := j + 1;
      }
      if items[j].hint.nextAt >= items[i].hint.nextAt {
        return i;
      }
      Swap(i, j);
    }

    method SiftDown(start: nat, n: nat) returns (moved: bool)
      requires start <= n <= |items| && Indexed()
      modifies `items, `hints, owned`heapIndex
      ensures Indexed() && hints == Down(old(hints), start, n, NextAt)
      ensures moved <==> Sinks(old(hints), start, n, NextAt)
      ensures !moved ==> hints == old(hints)
      ensures |items| == |old(items)| && forall k :: n <= k < |items| ==> items[k] == old(items)[k]
    {
      var i: nat := start;
      var j := SinkOnce(start, n);
      while i != j
        invariant start <= i <= j <= n <= |items| == |old(items)| && Indexed()
        invariant Down(hints, j, n, NextAt) == Down(old(hints), start, n, NextAt)
        invariant i == j ==> !Sinks(hints, j, n, NextAt)
        invariant if j > start then Sinks(old(hints), start, n, NextAt)
                  else hints == old(hints) && !Sinks(old(hints), start, n, NextAt)
        invariant forall k :: n <= k < |items| ==> items[k] == old(items)[k]
        decreases n - j, j - i
      {
        i := j;
        j := SinkOnce(i, n);
      }
      moved := i > start;
    }

    method PushItem(x: HintItem)
      requires Indexed() && x !in owned && x.elem == null
      modifies this, x`heapIndex, owned`heapIndex
      ensures Indexed() && owned == old(owned) + {x}
      ensures hints == Push(old(hints), x.hint, NextAt)
    {
      x.heapIndex := |items|;
      items, hints, owned := items + [x], hints + [x.hint], owned + {x};
      SiftUp(|items| - 1);
    }

    /** Cuts the last slot off; the item forgets its slot. */
    method TakeLast() returns (x: HintItem)
      requires Indexed() && items != []
      modifies this, owned`heapIndex
      ensures Indexed() && x == old(items)[|old(items)| - 1] && x.heapIndex == -1
      ensures x in old(owned) && owned == old(owned) - {x}
      ensures hints == old(hints)[..|old(items)| - 1]
    {
      var n := |items| - 1;
      x := items[n];
      items, hints, owned := items[..n], hints[..n], owned - {x};
      x.heapIndex := -1;
    }

    method PopItem() returns (x: HintItem)
      requires Indexed() && items != []
      modifies this, owned`heapIndex
      ensures Indexed() && x == old(items)[0] && x.heapIndex == -1
      ensures x in old(owned) && owned == old(owned) - {x}
      ensures hints == Pop(old(hints), NextAt)
    {
      hide Down;
      var n := |items| - 1;
      Swap(0, n);
      var _ := SiftDown(0, n);
      x := TakeLast();
    }

    method RemoveAt(i: nat) returns (x: HintItem)
      requires Indexed() && i < |items|
      modifies this, owned`heapIndex
      ensures Indexed() && x == old(items)[i] && x.heapIndex == -1
      ensures x in old(owned) && owned == old(owned) - {x}
      ensures hints == Delete(old(hints), i, NextAt)
    {
      hide Sift, Exchange;
      var n := |items| - 1;
      if n != i {
        Swap(i, n);
        Repair(i, n);
      }
      x := TakeLast();
    }

    method Repair(i: nat, n: nat)
      requires i < n <= |items| && Indexed()
      modifies `items, `hints, owned`heapIndex
      ensures Indexed() && hints == Sift(old(hints), i, n, NextAt)
      ensures |items| == |old(items)| && forall k :: n <= k < |items| ==> items[k] == old(items)[k]
    {
      hide Down, Up, Sinks;
      var moved := SiftDown(i, n);
      if !moved {
        SiftUp(i);
      }
    }

    /** Overwrites slot `i`; the item that was there keeps its stale slot number. */
    method Put(i: nat, x: HintItem)
      requires Indexed() && i < |items| && x !in owned
      modifies this, x`heapIndex, x`elem
      ensures Indexed() && items == old(items)[i := x] && hints == old(hints)[i := x.hint]
      ensures owned == old(owned) - {old(items)[i]} + {x}
    {
      owned := owned - {items[i]} + {x};
      items, hints := items[i := x], hints[i := x.hint];
      x.heapIndex := i;
      x.elem := null;
    }
  }

  class HintQueue {
    const c: Config
    const ready: Fifo
    const delayed: DelayHeap
    var index: map<Bytes, HintItem>
    var bytes: int
    var items: int
    ghost var inReady: set<HintItem>

    /** The queue's value, as the specification sees it. */
    ghost function View(): (q: Queue)
      reads ready`hints, delayed`hints
    {
      Queue(ready.hints, delayed.hints)
    }

    /** Both containers have correct back-pointers and an item is in one of them only. */
    ghost predicate Contained()
      reads `inReady, ready, ready.root, ready.links, inReady, delayed, delayed.owned
    {
      && (forall x :: x in ready.contents ==> x in inReady) && (forall x :: x in inReady ==> x in ready.contents)
      && (forall x :: x in inReady ==> x !in delayed.owned) && ready.Indexed() && delayed.Indexed()
    }

    ghost predicate InIndex(x: HintItem)
      reads `index, x`hint
    {
      x.hint.key in index && index[x.hint.key] == x
    }

    /** The index holds exactly the items in `m`, under their keys. */
    ghost predicate Indexes(m: set<HintItem>)
      reads `index, m`hint
    {
      && (forall x :: x in m ==> InIndex(x))
      && (forall k :: k in index ==> index[k] in m && index[k].hint.key == k)
    }

    ghost predicate Linked()
      reads `index, `inReady, ready, ready.root, ready.links, inReady, delayed, delayed.owned
    {
      Contained() && Indexes(inReady + delayed.owned)
    }

    ghost predicate Counted()
      reads `items, `bytes, ready`hints, delayed`hints
    {
      items == Count(View()) && bytes == Size(View())
    }

    ghost predicate Valid()
      reads this, ready, ready.root, ready.links, inReady, delayed, delayed.owned
    {
      Linked() && Counted() && WellFormed(c, View())
    }

    constructor (c: Config)
      ensures Valid() && this.c == c && View() == Queue([], [])
      ensures ready.links == {} && inReady == {} && delayed.owned == {}
      ensures fresh(ready) && fresh(ready.root) && fresh(delayed)
    {
      this.c := c;
      ready := new Fifo();
      delayed := new DelayHeap();
      index, bytes, items, inReady := map[], 0, 0, {};
    }

    lemma ReadyPosition(k: nat)
      requires Linked() && k < |ready.contents|
      ensures var h := ready.contents[k].hint;
        && KeyIn(View().ready, h.key) && Position(View().ready, h.key) == k && HintFor(View(), h.key) == h
    {
      var key := ready.contents[k].hint.key;
      assert At(View().ready, k, key);
      forall i | At(View().ready, i, key)
        ensures i == k
      {
        assert InIndex(ready.contents[i]) && InIndex(ready.contents[k]);
        assert ready.elems[i] == ready.elems[k];
      }
    }

    lemma DelayedPosition(x: HintItem)
      requires Linked() && x in delayed.owned
      ensures var key := x.hint.key;
        && !KeyIn(View().ready, key) && KeyIn(View().delayed, key)
        && Position(View().delayed, key) == x.heapIndex && HintFor(View(), key) == x.hint
    {
      var key := x.hint.key;
      assert At(View().delayed, x.heapIndex, key) && InIndex(x);
      forall i | At(View().delayed, i, key)
        ensures i == x.heapIndex
      {
        assert delayed.items[i] in delayed.owned && InIndex(delayed.items[i]);
      }
      forall i | 0 <= i < |View().ready|
        ensures !At(View().ready, i, key)
      {
        assert ready.contents[i] in inReady && InIndex(ready.contents[i]);
      }
    }

    /** Drops an item from the index. */
    method Forget(hi: HintItem, ghost m: set<HintItem>)
      requires Indexes(m) && hi in m
      modifies `index
      ensures Indexes(m - {hi}) && index == old(index) - {hi.hint.key}
    {
      index := index - {hi.hint.key};
    }

    method UnlinkReady(hi: HintItem, ghost k: nat)
      requires Linked() && k < |ready.contents| && ready.contents[k] == hi
      modifies `index, `inReady, ready, ready.root`next, ready.root`prev, ready.links`next, ready.links`prev, hi`elem
      ensures Linked() && index == old(index) - {hi.hint.key}
      ensures hi.elem == null && hi.heapIndex == -1
      ensures inReady == old(inReady) - {hi} && ready.links == old(ready.links)
      ensures ready.hints == old(ready.hints)[..k] + old(ready.hints)[k + 1..]
    {
      hide Fifo.Indexed, DelayHeap.Indexed, Indexes;
      ready.NotInHeap(k);
      Forget(hi, inReady + delayed.owned);
      inReady := inReady - {hi};
      ready.RemoveItem(hi, k);
      assert inReady + delayed.owned == old(inReady + delayed.owned) - {hi};
    }

    method UnlinkDelayed(hi: HintItem)
      requires Linked() && hi in delayed.owned
      modifies `index, delayed, delayed.owned`heapIndex
      ensures Linked() && index == old(index) - {hi.hint.key}
      ensures hi.elem == null && hi.heapIndex == -1 && delayed.owned == old(delayed.owned) - {hi}
      ensures 0 <= old(hi.heapIndex) < |old(delayed.hints)|
      ensures delayed.hints == Delete(old(delayed.hints), old(hi.heapIndex), NextAt)
    {
      hide Fifo.Indexed, Indexes, Delete;
      Forget(hi, inReady + delayed.owned);
      var _ := delayed.RemoveAt(hi.heapIndex);
      assert inReady + delayed.owned == old(inReady + delayed.owned) - {hi};
    }

    method RemoveReady(hi: HintItem, ghost k: nat)
      requires Linked() && Counted() && k < |ready.contents| && ready.contents[k] == hi
      modifies this, ready, ready.root`next, ready.root`prev, ready.links`next, ready.links`prev, hi`elem
      ensures Linked() && Counted() && index == old(index) - {hi.hint.key}
      ensures hi.elem == null && hi.heapIndex == -1
      ensures inReady == old(inReady) - {hi} && ready.links == old(ready.links)
      ensures Holds(old(View()), hi.hint.key) && View() == Without(old(View()), hi.hint.key)
    {
      hide Linked, Delete, Sum, KeyIn;
      ReadyPosition(k);
      WithoutCounts(View(), hi.hint.key);
      items := items - 1;
      bytes := bytes - hi.hint.size;
      UnlinkReady(hi, k);
    }

    method RemoveDelayed(hi: HintItem)
      requires Linked() && Counted() && hi in delayed.owned
      modifies this, delayed, delayed.owned`heapIndex
      ensures Linked() && Counted() && index == old(index) - {hi.hint.key}
      ensures hi.elem == null && hi.heapIndex == -1
      ensures inReady == old(inReady) && delayed.owned == old(delayed.owned) - {hi}
      ensures Holds(old(View()), hi.hint.key) && View() == Without(old(View()), hi.hint.key)
    {
      hide Linked, Delete, Sum, KeyIn;
      DelayedPosition(hi);
      WithoutCounts(View(), hi.hint.key);
      items := items - 1;
      bytes := bytes - hi.hint.size;
      UnlinkDelayed(hi);
    }

    /** The item's own handle says where it is. */
    lemma Where(hi: HintItem) returns (k: nat)
      requires Linked() && InIndex(hi)
      ensures hi.elem != null ==> && k < |ready.contents| == |ready.hints| && ready.contents[k] == hi
                                  && ready.hints[k] == hi.hint && hi in inReady && hi !in delayed.owned
      ensures hi.elem == null ==> && hi in delayed.owned && hi !in inReady
                                  && 0 <= hi.heapIndex < |delayed.hints| && delayed.hints[hi.heapIndex] == hi.hint
    {
      assert hi in inReady + delayed.owned;
      if hi in inReady {
        k :| 0 <= k < |ready.contents| && ready.contents[k] == hi;
      } else {
        k := 0;
      }
    }

    method RemoveItem(hi: HintItem)
      requires Linked() && Counted() && InIndex(hi)
      modifies this, ready, ready.root`next, ready.root`prev, ready.links`next, ready.links`prev
      modifies delayed, delayed.owned`heapIndex, hi`elem
      ensures Linked() && Counted() && index == old(index) - {hi.hint.key}
      ensures hi.elem == null && hi.heapIndex == -1
      ensures inReady <= old(inReady) && delayed.owned <= old(delayed.owned) && ready.links == old(ready.links)
      ensures Holds(old(View()), hi.hint.key) && View() == Without(old(View()), hi.hint.key)
    {
      hide Linked, Counted, Holds, Without;
      ghost var k := Where(hi);
      if hi.elem != null {
        RemoveReady(hi, k);
      } else {
        RemoveDelayed(hi);
      }
    }

    method PromoteOne()
      requires Linked() && delayed.items != []
      modifies `inReady, ready, ready.root`next, ready.root`prev, ready.links`next, ready.links`prev
      modifies delayed, delayed.owned`heapIndex, delayed.owned`elem
      ensures Linked()
      ensures old(delayed.hints) != []
      ensures View() == Queue(old(ready.hints) + [old(delayed.hints)[0]], Pop(old(delayed.hints), NextAt))
      ensures delayed.owned <= old(delayed.owned) && fresh(ready.links - old(ready.links))
      ensures inReady + delayed.owned == old(inReady + delayed.owned)
    {
      hide Fifo.Indexed, Indexes, Pop;
      var hi := delayed.PopItem();
      ready.PushItem(hi);
      inReady := inReady + {hi};
      assert inReady + delayed.owned == old(inReady + delayed.owned);
    }

    method MoveDue(now: int)
      requires Linked()
      modifies `inReady, ready, ready.root`next, ready.root`prev, ready.links`next, ready.links`prev
      modifies delayed, delayed.owned`heapIndex, delayed.owned`elem
      ensures Linked() && View() == HandoffSpec.MoveDue(old(View()), now)
      ensures delayed.owned <= old(delayed.owned) && fresh(ready.links - old(ready.links))
      ensures inReady + delayed.owned == old(inReady + delayed.owned)
    {
      hide Fifo.Indexed, Indexes, Pop;
      while |delayed.items| > 0
        invariant Linked() && delayed.owned <= old(delayed.owned) && fresh(ready.links - old(ready.links))
        invariant inReady + delayed.owned == old(inReady + delayed.owned)
        invariant HandoffSpec.MoveDue(View(), now) == HandoffSpec.MoveDue(old(View()), now)
        decreases |delayed.hints|
      {
        if delayed.items[0].hint.nextAt > now {
          break;
        }
        PromoteOne();
      }
    }

    /** An item is the one looked for exactly when it has its key. */
    lemma SameKeySameItem(x: HintItem, y: HintItem)
      requires Linked() && (x in inReady || x in delayed.owned) && InIndex(y)
      ensures x == y <==> x.hint.key == y.hint.key
      ensures InIndex(x)
    {
      assert InIndex(x);
    }

    lemma Fronts()
      requires Linked()
      ensures ready.Indexed()
      ensures |ready.contents| == |ready.hints| && |delayed.items| == |delayed.hints|
      ensures ready.hints != [] ==> && ready.contents[0].hint == ready.hints[0] && ready.contents[0] in inReady
                                    && ready.contents[0] !in delayed.owned
      ensures delayed.hints != [] ==> delayed.items[0].hint == delayed.hints[0] && delayed.items[0] in delayed.owned
    {
    }

    method DropReady(hi: HintItem)
      requires Linked() && Counted() && ready.contents != [] && hi == ready.contents[0]
      modifies this, ready, ready.root`next, ready.root`prev, ready.links`next, ready.links`prev, hi`elem
      ensures Linked() && Counted() && index == old(index) - {hi.hint.key}
      ensures hi.elem == null && hi.heapIndex == -1 && old(ready.hints) != [] && old(ready.hints)[0] == hi.hint
      ensures hi in old(inReady) && hi !in delayed.owned
      ensures inReady == old(inReady) - {hi} && ready.links == old(ready.links)
      ensures View() == old(View()).(ready := old(ready.hints)[1..])
    {
      hide Linked, Counted, KeyIn, Without;
      Fronts();
      ReadyPosition(0);
      WithoutFirst(View());
      RemoveReady(hi, 0);
    }

    method UnlinkRoot(hi: HintItem)
      requires Linked() && delayed.items != [] && hi == delayed.items[0]
      modifies `index, delayed, delayed.owned`heapIndex
      ensures Linked() && index == old(index) - {hi.hint.key} && delayed.owned == old(delayed.owned) - {hi}
      ensures delayed.hints == Pop(old(delayed.hints), NextAt)
    {
      hide Fifo.Indexed, Indexes, Pop;
      Forget(hi, inReady + delayed.owned);
      var _ := delayed.PopItem();
      assert inReady + delayed.owned == old(inReady + delayed.owned) - {hi};
    }

    method DropDelayed(hi: HintItem)
      requires Linked() && Counted() && delayed.items != [] && hi == delayed.items[0]
      modifies this, delayed, delayed.owned`heapIndex
      ensures Linked() && Counted() && index == old(index) - {hi.hint.key}
      ensures inReady == old(inReady) && delayed.owned == old(delayed.owned) - {hi}
      ensures old(delayed.hints) != [] && old(delayed.hints)[0] == hi.hint
      ensures View() == old(View()).(delayed := Pop(old(delayed.hints), NextAt))
    {
      hide Linked, Pop, Sum;
      Fronts();
      PopSize(delayed.hints);
      items := items - 1;
      bytes := bytes - hi.hint.size;
      UnlinkRoot(hi);
    }

    lemma PopSize(s: seq<Hint>)
      requires s != []
      ensures Sum(Pop(s, NextAt)) == Sum(s) - s[0].size && |Pop(s, NextAt)| == |s| - 1
    {
      hide Pop;
      PopCounts(s);
    }

    method DropOldest(avoid: HintItem) returns (count: nat, size: int)
      requires Linked() && Counted() && InIndex(avoid)
      modifies this, ready, ready.root`next, ready.root`prev, ready.links`next, ready.links`prev, inReady`elem
      modifies delayed, delayed.owned`heapIndex
      ensures Linked() && Counted() && InIndex(avoid)
      ensures inReady <= old(inReady) && delayed.owned <= old(delayed.owned) && ready.links == old(ready.links)
      ensures if HasVictim(old(View()), avoid.hint.key)
        then count == 1 && size == Victim(old(View()), avoid.hint.key).size
             && View() == DropOne(old(View()), avoid.hint.key)
        else count == 0 && size == 0 && View() == old(View())
    {
      hide Linked, Fifo.Indexed, Pop;
      Fronts();
      var front := ready.Front();
      if front != null {
        SameKeySameItem(front, avoid);
      }
      if front != null && front != avoid {
        count, size := 1, front.hint.size;
        DropReady(front);
      } else if |delayed.items| > 0 && delayed.items[0] != avoid {
        SameKeySameItem(delayed.items[0], avoid);
        count, size := 1, delayed.items[0].hint.size;
        DropDelayed(delayed.items[0]);
      } else {
        count, size := 0, 0;
      }
    }

    predicate IsOverCap()
      reads `items, `bytes
    {
      OverCap(c, items, bytes)
    }

    /** The loop that makes room for `it`: stops when the queue fits or nothing but
        `it` is left to drop. */
    method DropUntilFits(it: HintItem) returns (fits: bool, count: int, size: int)
      requires Linked() && Counted() && InIndex(it)
      modifies this, ready, ready.root`next, ready.root`prev, ready.links`next, ready.links`prev, inReady`elem
      modifies delayed, delayed.owned`heapIndex
      ensures Linked() && Counted() && InIndex(it)
      ensures inReady <= old(inReady) && delayed.owned <= old(delayed.owned) && ready.links == old(ready.links)
      ensures View() == MakeRoom(c, old(View()), it.hint.key) && (fits <==> Fits(c, View()))
      ensures count == Count(old(View())) - Count(View()) && size == Size(old(View())) - Size(View())
    {
      hide Linked, Pop, Sum;
      count, size := 0, 0;
      fits := true;
      while IsOverCap()
        invariant Linked() && Counted() && InIndex(it)
        invariant inReady <= old(inReady) && delayed.owned <= old(delayed.owned) && ready.links == old(ready.links)
        invariant MakeRoom(c, View(), it.hint.key) == MakeRoom(c, old(View()), it.hint.key)
        invariant count == Count(old(View())) - Count(View()) && size == Size(old(View())) - Size(View())
        invariant fits
        decreases Count(View())
      {
        ghost var before := View();
        var dc, db := DropOldest(it);
        if dc == 0 {
          fits := false;
          break;
        }
        DropOneCounts(before, it.hint.key);
        count, size := count + dc, size + db;
      }
    }

    lemma ReplaceReady(k: nat, h: Hint)
      requires Linked() && k < |ready.contents| && ready.contents[k].hint.key == h.key
      ensures Replace(View(), h) == Queue(ready.hints[k := h], delayed.hints)
    {
      forall i | 0 <= i < |ready.contents| && i != k
        ensures ready.hints[i].key != h.key
      {
        assert InIndex(ready.contents[i]) && InIndex(ready.contents[k]);
        assert ready.elems[i] != ready.elems[k];
      }
      forall i | 0 <= i < |delayed.items|
        ensures delayed.hints[i].key != h.key
      {
        assert ready.contents[k] in inReady && delayed.items[i] in delayed.owned;
        assert InIndex(delayed.items[i]) && InIndex(ready.contents[k]);
      }
      assert ReplaceIn(ready.hints, h) == ready.hints[k := h];
      assert ReplaceIn(delayed.hints, h) == delayed.hints;
    }

    lemma ReplaceDelayed(x: HintItem, h: Hint)
      requires Linked() && x in delayed.owned && x.hint.key == h.key
      ensures 0 <= x.heapIndex < |delayed.hints|
      ensures Replace(View(), h) == Queue(ready.hints, delayed.hints[x.heapIndex := h])
    {
      forall i | 0 <= i < |ready.contents|
        ensures ready.hints[i].key != h.key
      {
        assert ready.contents[i] in inReady;
        assert InIndex(ready.contents[i]) && InIndex(x);
      }
      forall i | 0 <= i < |delayed.items| && i != x.heapIndex
        ensures delayed.hints[i].key != h.key
      {
        assert InIndex(delayed.items[i]) && InIndex(x);
      }
      assert ReplaceIn(ready.hints, h) == ready.hints;
      assert ReplaceIn(delayed.hints, h) == delayed.hints[x.heapIndex := h];
    }

    /** Points the index at `it` instead of `prior`. */
    method Reindex(prior: HintItem, it: HintItem, ghost m: set<HintItem>)
      requires Indexes(m) && prior in m && it !in m && it.hint.key == prior.hint.key
      modifies `index
      ensures Indexes(m - {prior} + {it}) && index == old(index)[it.hint.key := it]
    {
      index := index[it.hint.key := it];
    }

    method TakeOverReady(prior: HintItem, it: HintItem, ghost k: nat)
      requires Linked() && k < |ready.contents| && ready.contents[k] == prior
      requires it !in inReady && it !in delayed.owned && it.hint.key == prior.hint.key
      modifies `index, `inReady, ready, ready.links`item, it`elem, it`heapIndex
      ensures Linked() && InIndex(it) && inReady == old(inReady) - {prior} + {it} && ready.links == old(ready.links)
      ensures 0 <= k < |old(ready.hints)| && ready.hints == old(ready.hints)[k := it.hint]
    {
      hide DelayHeap.Indexed, Fifo.Indexed, Indexes, Distinct;
      ready.DistinctContents();
      UpdateMembers(ready.contents, k, it);
      Reindex(prior, it, inReady + delayed.owned);
      inReady := inReady - {prior} + {it};
      ready.Put(prior, it, k);
      assert inReady + delayed.owned == old(inReady + delayed.owned) - {prior} + {it};
    }

    method TakeOverDelayed(prior: HintItem, it: HintItem)
      requires Linked() && prior in delayed.owned
      requires it !in inReady && it !in delayed.owned && it.hint.key == prior.hint.key
      modifies `index, delayed, it`elem, it`heapIndex
      ensures Linked() && InIndex(it) && delayed.owned == old(delayed.owned) - {prior} + {it}
      ensures 0 <= prior.heapIndex < |old(delayed.hints)|
      ensures delayed.hints == old(delayed.hints)[prior.heapIndex := it.hint]
    {
      hide Fifo.Indexed, Indexes;
      Reindex(prior, it, inReady + delayed.owned);
      delayed.Put(prior.heapIndex, it);
      assert inReady + delayed.owned == old(inReady + delayed.owned) - {prior} + {it};
    }

    /** Puts `it` where `prior` is: same element or same heap slot. */
    method TakeOver(prior: HintItem, it: HintItem)
      requires Linked() && Counted() && InIndex(prior)
      requires it !in inReady && it !in delayed.owned && it.hint.key == prior.hint.key
      modifies this, ready, ready.links`item, delayed, it`elem, it`heapIndex
      ensures Linked() && Counted() && InIndex(it) && View() == Replace(old(View()), it.hint)
      ensures items == old(items) && bytes == old(bytes) + it.hint.size - prior.hint.size
      ensures inReady <= old(inReady) + {it} && delayed.owned <= old(delayed.owned) + {it}
      ensures prior !in inReady && prior !in delayed.owned && ready.links == old(ready.links)
    {
      hide Contained, Indexes, Sum, ReplaceIn;
      ghost var k := Where(prior);
      bytes := bytes + (it.hint.size - prior.hint.size);
      if prior.elem != null {
        ReplaceReady(k, it.hint);
        SumOfUpdate(ready.hints, k, it.hint);
        TakeOverReady(prior, it, k);
      } else {
        ReplaceDelayed(prior, it.hint);
        SumOfUpdate(delayed.hints, prior.heapIndex, it.hint);
        TakeOverDelayed(prior, it);
      }
    }

    /** What the index says about a key is what the queue's value says. */
    lemma Lookup(hi: HintItem)
      requires Linked() && InIndex(hi)
      ensures Holds(View(), hi.hint.key) && HintFor(View(), hi.hint.key) == hi.hint
      ensures KeyIn(View().ready, hi.hint.key) <==> hi.heapIndex < 0
      ensures hi in inReady || hi in delayed.owned
    {
      hide KeyIn, Fifo.Ring;
      var k := Where(hi);
      if hi.elem != null {
        ReadyPosition(k);
      } else {
        DelayedPosition(hi);
      }
    }

    lemma LookupNone(key: Bytes)
      requires Linked() && key !in index
      ensures !Holds(View(), key)
    {
      forall i
        ensures !At(View().ready, i, key)
      {
        if 0 <= i < |ready.hints| {
          assert ready.contents[i] in inReady && InIndex(ready.contents[i]);
        }
      }
      forall i
        ensures !At(View().delayed, i, key)
      {
        if 0 <= i < |delayed.hints| {
          assert delayed.items[i] in delayed.owned && InIndex(delayed.items[i]);
        }
      }
    }

    /** Adds an item to the index. */
    method Record(it: HintItem, ghost m: set<HintItem>)
      requires Indexes(m) && it !in m && it.hint.key !in index
      modifies `index
      ensures Indexes(m + {it}) && InIndex(it)
    {
      index := index[it.hint.key := it];
    }

    method PlaceReady(it: HintItem)
      requires Linked() && it !in inReady && it !in delayed.owned && it.hint.key !in index && it.heapIndex == -1
      modifies `index, `inReady, ready, ready.root`next, ready.root`prev, ready.links`next, ready.links`prev, it`elem
      ensures Linked() && InIndex(it) && fresh(ready.links - old(ready.links))
      ensures inReady == old(inReady) + {it} && ready.hints == old(ready.hints) + [it.hint]
    {
      hide Fifo.Indexed, DelayHeap.Indexed, Indexes;
      Record(it, inReady + delayed.owned);
      ready.PushItem(it);
      inReady := inReady + {it};
      assert inReady + delayed.owned == old(inReady + delayed.owned) + {it};
    }

    method PlaceDelayed(it: HintItem)
      requires Linked() && it !in inReady && it !in delayed.owned && it.hint.key !in index && it.elem == null
      modifies `index, delayed, delayed.owned`heapIndex, it`heapIndex
      ensures Linked() && InIndex(it)
      ensures delayed.owned == old(delayed.owned) + {it} && delayed.hints == Push(old(delayed.hints), it.hint, NextAt)
    {
      hide Fifo.Indexed, DelayHeap.Indexed, Indexes, Push;
      Record(it, inReady + delayed.owned);
      delayed.PushItem(it);
      assert inReady + delayed.owned == old(inReady + delayed.owned) + {it};
    }

    lemma PlaceCounts(q: Queue, it: Hint, now: int)
      ensures Size(Place(q, it, now)) == Size(q) + it.size && Count(Place(q, it, now)) == Count(q) + 1
    {
      if it.nextAt > now {
        PushKeeps(q.delayed, it, NextAt);
        SumWith(Push(q.delayed, it, NextAt), q.delayed, it);
      } else {
        SumWith(q.ready + [it], q.ready, it);
      }
    }

    /** A hint whose backoff is not over waits in the heap; others join the FIFO. */
    method PlaceItem(it: HintItem, now: int)
      requires Linked() && Counted() && it !in inReady && it !in delayed.owned && it.hint.key !in index
      requires it.elem == null && it.heapIndex == -1
      modifies this, ready, ready.root`next, ready.root`prev, ready.links`next, ready.links`prev
      modifies delayed, delayed.owned`heapIndex, it`elem, it`heapIndex
      ensures Linked() && Counted() && InIndex(it) && View() == Place(old(View()), it.hint, now)
      ensures inReady <= old(inReady) + {it} && delayed.owned <= old(delayed.owned) + {it}
      ensures fresh(ready.links - old(ready.links))
    {
      hide Linked, Push, Sum;
      PlaceCounts(View(), it.hint, now);
      items := items + 1;
      bytes := bytes + it.hint.size;
      if it.hint.nextAt > now {
        PlaceDelayed(it);
      } else {
        PlaceReady(it);
      }
    }

    /** Replacing a queued hint and putting it back changes nothing. */
    lemma ReplaceBack(prior: HintItem, h: Hint)
      requires Linked() && InIndex(prior) && h.key == prior.hint.key
      ensures Replace(Replace(View(), h), prior.hint) == View()
    {
      forall i | 0 <= i < |ready.hints|
        ensures ready.hints[i].key == h.key ==> ready.hints[i] == prior.hint
      {
        assert ready.contents[i] in inReady && InIndex(ready.contents[i]);
      }
      forall i | 0 <= i < |delayed.hints|
        ensures delayed.hints[i].key == h.key ==> delayed.hints[i] == prior.hint
      {
        assert delayed.items[i] in delayed.owned && InIndex(delayed.items[i]);
      }
    }

    method EnqueueNew(it: HintItem, now: int) returns (ok: bool, bytesDelta: int, itemsDelta: int)
      requires Linked() && Counted() && it !in inReady && it !in delayed.owned && it.hint.key !in index
      requires it.elem == null && it.heapIndex == -1
      modifies this, ready, ready.root`next, ready.root`prev, ready.links`next, ready.links`prev, inReady`elem
      modifies delayed, delayed.owned`heapIndex, it`elem, it`heapIndex
      ensures Linked() && Counted() && Outcome(View(), ok, bytesDelta, itemsDelta) == Insert(c, old(View()), it.hint, now)
      ensures fresh(ready.links - old(ready.links))
      ensures inReady + delayed.owned <= old(inReady + delayed.owned) + {it}
    {
      hide Linked, Sum, Without, Place, MakeRoom, KeyIn;
      PlaceCounts(View(), it.hint, now);
      PlaceItem(it, now);
      if !IsOverCap() {
        return true, it.hint.size, 1;
      }
      if !c.drop.DropOldest? {
        RemoveItem(it);
        return false, 0, 0;
      }
      var fits, count, size := DropUntilFits(it);
      if !fits {
        RemoveItem(it);
        return false, -size, -count;
      }
      return true, it.hint.size - size, 1 - count;
    }

    method CoalesceWith(prior: HintItem, it: HintItem) returns (ok: bool, bytesDelta: int, itemsDelta: int)
      requires Linked() && Counted() && InIndex(prior) && it !in inReady && it !in delayed.owned
      requires it.hint.key == prior.hint.key && it.elem == null && it.heapIndex == -1
      modifies this, ready, ready.root`next, ready.root`prev, ready.links, inReady`elem, inReady`heapIndex
      modifies delayed, delayed.owned`elem, delayed.owned`heapIndex, it
      ensures Linked() && Counted() && ready.links == old(ready.links)
      ensures Holds(old(View()), old(it.hint.key))
      ensures Outcome(View(), ok, bytesDelta, itemsDelta) == Coalesce(c, old(View()), old(it.hint))
      ensures inReady + delayed.owned <= old(inReady + delayed.owned) + {it}
    {
      hide Linked, Sum, KeyIn, Replace, Settled;
      Lookup(prior);
      if prior.heapIndex >= 0 {
        it.hint := it.hint.(nextAt := prior.hint.nextAt, tries := prior.hint.tries);
      }
      var delta := it.hint.size - prior.hint.size;
      ReplaceBack(prior, it.hint);
      TakeOver(prior, it);
      CoalesceSettles(c, old(View()), old(it.hint));
      ok, bytesDelta, itemsDelta := Settle(prior, it, delta);
    }

    /** The rest of a coalesce, once `it` has taken the place of `prior`. */
    method Settle(prior: HintItem, it: HintItem, delta: int) returns (ok: bool, bytesDelta: int, itemsDelta: int)
      requires Linked() && Counted() && InIndex(it) && prior !in inReady && prior !in delayed.owned
      requires it.hint.key == prior.hint.key
      modifies this, ready, ready.root`next, ready.root`prev, ready.links, inReady`elem, it`heapIndex, it`elem
      modifies delayed, delayed.owned`heapIndex, prior`elem, prior`heapIndex
      ensures Linked() && Counted() && ready.links == old(ready.links)
      ensures Outcome(View(), ok, bytesDelta, itemsDelta) == Settled(c, old(View()), prior.hint, delta)
      ensures inReady + delayed.owned <= old(inReady + delayed.owned) + {prior}
    {
      hide Linked, Sum, MakeRoom, Replace;
      if !IsOverCap() {
        return true, delta, 0;
      }
      if !c.drop.DropOldest? {
        TakeOver(it, prior);
        return false, 0, 0;
      }
      ok, bytesDelta, itemsDelta := FitOrRevert(prior, it);
      if ok {
        bytesDelta := delta - bytesDelta;
      }
    }

    /** Makes room for `it`; if that fails, gives its place back to `prior` and
        returns the bytes dropped, unsigned. */
    method FitOrRevert(prior: HintItem, it: HintItem) returns (ok: bool, size: int, itemsDelta: int)
      requires Linked() && Counted() && InIndex(it) && prior !in inReady && prior !in delayed.owned
      requires it.hint.key == prior.hint.key
      modifies this, ready, ready.root`next, ready.root`prev, ready.links, inReady`elem, it`heapIndex, it`elem
      modifies delayed, delayed.owned`heapIndex, prior`elem, prior`heapIndex
      ensures Linked() && Counted() && ready.links == old(ready.links)
      ensures var q := MakeRoom(c, old(View()), it.hint.key);
        && (ok <==> Fits(c, q)) && View() == (if ok then q else Replace(q, prior.hint))
        && size == Size(old(View())) - Size(q) && itemsDelta == Count(q) - Count(old(View()))
      ensures inReady + delayed.owned <= old(inReady + delayed.owned) + {prior}
    {
      hide Linked, Sum, MakeRoom, Replace;
      var count;
      ok, count, size := DropUntilFits(it);
      itemsDelta := -count;
      if !ok {
        TakeOver(it, prior);
        Release(it);
      }
    }

    /** Clears the handles of an item that is no longer queued. */
    method Release(it: HintItem)
      requires Linked() && it !in inReady && it !in delayed.owned
      modifies it`elem, it`heapIndex
      ensures Linked()
    {
      it.elem, it.heapIndex := null, -1;
    }

    /** Adds a hint or coalesces it with the one queued for its key. The result is the
        specification's, delta for delta; the queue stays valid, caps included. */
    method Enqueue(it: HintItem, now: int) returns (ok: bool, bytesDelta: int, itemsDelta: int)
      requires Valid() && it !in inReady && it !in delayed.owned && it.hint.size > 0
      requires it.elem == null && it.heapIndex == -1
      modifies this, ready, ready.root`next, ready.root`prev, ready.links, inReady`elem, inReady`heapIndex
      modifies delayed, delayed.owned`elem, delayed.owned`heapIndex, it
      ensures Valid() && fresh(ready.links - old(ready.links))
      ensures inReady + delayed.owned <= old(inReady + delayed.owned) + {it}
      ensures Outcome(View(), ok, bytesDelta, itemsDelta) == HandoffSpec.Enqueue(c, old(View()), old(it.hint), now)
    {
      hide Linked, Insert, Coalesce, KeyIn, WellFormed;
      EnqueueKeepsWellFormed(c, View(), it.hint, now);
      if Expired(it.hint, c.ttl, now) {
        return false, 0, 0;
      }
      var key := it.hint.key;
      if key in index {
        var prior := index[key];
        IndexedKey(key);
        Lookup(prior);
        if it.hint.ver <= prior.hint.ver {
          return false, 0, 0;
        }
        ok, bytesDelta, itemsDelta := CoalesceWith(prior, it);
      } else {
        LookupNone(key);
        ok, bytesDelta, itemsDelta := EnqueueNew(it, now);
      }
    }

    lemma IndexedKey(key: Bytes)
      requires Linked() && key in index
      ensures InIndex(index[key]) && index[key].hint.key == key
    {
    }

    /** Skips expired heads and returns the first live hint, if any. */
    method TakeFirstLive(now: int) returns (it: HintItem?)
      requires Linked() && Counted()
      modifies this, ready, ready.root`next, ready.root`prev, ready.links`next, ready.links`prev, inReady`elem
      ensures Linked() && Counted() && ready.links == old(ready.links) && inReady <= old(inReady)
      ensures Popped(View(), if it == null then None else Some(it.hint)) == TakeLive(c, old(View()), now)
      ensures it != null ==> it.elem == null && it.heapIndex == -1 && it !in inReady && it !in delayed.owned
      ensures it != null ==> it in old(inReady)
    {
      hide Linked, Counted, Fifo.Indexed, Expired;
      while true
        invariant Linked() && Counted() && ready.links == old(ready.links) && inReady <= old(inReady)
        invariant TakeLive(c, View(), now) == TakeLive(c, old(View()), now)
        decreases |ready.hints|
      {
        Fronts();
        it := ready.Front();
        if it == null {
          return null;
        }
        DropReady(it);
        if !Expired(it.hint, c.ttl, now) {
          return it;
        }
      }
    }

    /** Promotes due hints, then returns the first that has not expired. */
    method PopReady(now: int) returns (it: HintItem?)
      requires Valid()
      modifies this, ready, ready.root`next, ready.root`prev, ready.links`next, ready.links`prev
      modifies inReady`elem, delayed, delayed.owned`heapIndex, delayed.owned`elem
      ensures Valid() && fresh(ready.links - old(ready.links))
      ensures Popped(View(), if it == null then None else Some(it.hint)) == HandoffSpec.PopReady(c, old(View()), now)
      ensures it != null ==> it.elem == null && it.heapIndex == -1 && it !in inReady && it !in delayed.owned
      ensures it != null ==> it in old(inReady + delayed.owned)
      ensures inReady + delayed.owned <= old(inReady + delayed.owned)
    {
      hide Linked, HandoffSpec.MoveDue, TakeLive, WellFormed, Sum;
      PopReadyKeepsWellFormed(c, View(), now);
      MoveDueSize(View(), now);
      MoveDue(now);
      it := TakeFirstLive(now);
    }

    lemma MoveDueSize(q: Queue, now: int)
      requires WellFormed(c, q)
      ensures Size(HandoffSpec.MoveDue(q, now)) == Size(q)
    {
      MoveDueFacts(q, now);
    }

    /** A failed send goes back with its next attempt time; a newer hint for the key,
        queued meanwhile, wins. */
    method ScheduleRetry(hi: HintItem, retryAt: int, now: int)
      requires Valid() && hi !in inReady && hi !in delayed.owned && hi.hint.size > 0
      requires hi.elem == null && hi.heapIndex == -1
      modifies this, ready, ready.root`next, ready.root`prev, ready.links, inReady`elem, inReady`heapIndex
      modifies delayed, delayed.owned`elem, delayed.owned`heapIndex, hi
      ensures Valid() && fresh(ready.links - old(ready.links))
      ensures inReady + delayed.owned <= old(inReady + delayed.owned) + {hi}
      ensures var h := old(hi.hint).(nextAt := retryAt, tries := old(hi.hint.tries) + 1);
        View() == HandoffSpec.Enqueue(c, old(View()), h, now).queue
    {
      hi.hint := hi.hint.(nextAt := retryAt, tries := hi.hint.tries + 1);
      var _, _, _ := Enqueue(hi, now);
    }
  }

  // ---------------------------------------------------------------- a queue in use

  /** Items that are in no container, each once. */
  ghost predicate Detached(q: HintQueue, sending: seq<HintItem>)
    reads q`inReady, q.delayed`owned, sending
  {
    && Distinct(sending)
    && forall i :: 0 <= i < |sending| ==> && sending[i] !in q.inReady && sending[i] !in q.delayed.owned
                                          && sending[i].elem == null && sending[i].heapIndex == -1
  }

  ghost function Hints(items: seq<HintItem>): (r: seq<Hint>)
    reads items
    ensures |r| == |items| && forall i :: 0 <= i < |items| ==> r[i] == items[i].hint
  {
    seq(|items|, i requires 0 <= i < |items| reads items => items[i].hint)
  }

  /** Everything a client may change when it uses the queue. */
  ghost function Reach(q: HintQueue, sending: seq<HintItem>): (r: set<object>)
    reads q`inReady, q.ready`links, q.delayed`owned
  {
    {q, q.ready, q.ready.root, q.delayed} + q.ready.links + q.inReady + q.delayed.owned + SetOf(sending)
  }

  lemma ReachHas(q: HintQueue, sending: seq<HintItem>)
    ensures var r := Reach(q, sending);
      && q in r && q.ready in r && q.ready.root in r && q.delayed in r
      && q.ready.links <= r && q.inReady <= r && q.delayed.owned <= r && forall x :: x in sending ==> x in r
  {
  }

  /** The client still reaches only what it did, or what is in `more`. */
  lemma ReachWithin(q: HintQueue, sending: seq<HintItem>, before: set<object>, more: set<object>)
    requires q in before && q.ready in before && q.ready.root in before && q.delayed in before
    requires q.ready.links <= before + more && q.inReady + q.delayed.owned <= before + more
    requires forall x :: x in sending ==> x in before
    ensures Reach(q, sending) <= before + more
  {
    assert forall x :: x in q.inReady || x in q.delayed.owned ==> x in q.inReady + q.delayed.owned;
  }

  /** The client's state: a valid queue and detached items being sent. */
  ghost predicate InUse(q: HintQueue, sending: seq<HintItem>, p: Peer)
    reads q, q.ready, q.ready.root, q.ready.links, q.inReady, q.delayed, q.delayed.owned, sending
  {
    q.Valid() && Detached(q, sending) && p == Peer(q.View(), Hints(sending))
  }

  method SubmitOne(q: HintQueue, sending: seq<HintItem>, it: Hint, at: int, ghost p: Peer)
    requires InUse(q, sending, p) && it.size > 0
    modifies Reach(q, sending)
    ensures InUse(q, sending, Perform(q.c, p, Submit(it, at)))
    ensures fresh(Reach(q, sending) - old(Reach(q, sending)))
  {
    hide HintQueue.Valid, HandoffSpec.Enqueue, WellFormed, Distinct, Reach;
    ReachHas(q, sending);
    ghost var before := Reach(q, sending);
    var x := new HintItem(it);
    var _, _, _ := q.Enqueue(x, at);
    ReachWithin(q, sending, before, q.ready.links - old(q.ready.links) + {x});
  }

  method SendOne(q: HintQueue, sending: seq<HintItem>, at: int, ghost p: Peer) returns (sending': seq<HintItem>)
    requires InUse(q, sending, p)
    modifies Reach(q, sending)
    ensures InUse(q, sending', Perform(q.c, p, Send(at)))
    ensures fresh(Reach(q, sending') - old(Reach(q, sending)))
  {
    hide HintQueue.Valid, HandoffSpec.PopReady, WellFormed, Distinct, Reach;
    ReachHas(q, sending);
    ghost var before := Reach(q, sending);
    sending' := sending;
    var x := q.PopReady(at);
    if x != null {
      AlsoSent(q, sending, x);
      sending' := sending + [x];
    }
    ReachWithin(q, sending', before, q.ready.links - old(q.ready.links));
  }

  lemma AlsoSent(q: HintQueue, sending: seq<HintItem>, x: HintItem)
    requires Detached(q, sending) && x !in sending && x !in q.inReady && x !in q.delayed.owned
    requires x.elem == null && x.heapIndex == -1
    ensures Detached(q, sending + [x])
    ensures Hints(sending + [x]) == Hints(sending) + [x.hint]
  {
  }

  method RetryOne(q: HintQueue, sending: seq<HintItem>, n: nat, retryAt: int, at: int, ghost p: Peer)
    returns (sending': seq<HintItem>)
    requires InUse(q, sending, p) && HandoffSpec.Sized(q.c, p)
    modifies Reach(q, sending)
    ensures InUse(q, sending', Perform(q.c, p, Retry(n, retryAt, at)))
    ensures fresh(Reach(q, sending') - old(Reach(q, sending)))
  {
    hide HintQueue.Valid, HandoffSpec.Enqueue, WellFormed, Distinct, Cut, Reach;
    ReachHas(q, sending);
    ghost var before := Reach(q, sending);
    sending' := sending;
    if n < |sending| {
      sending' := Cut(sending, n);
      TakenOut(q, sending, n);
      q.ScheduleRetry(sending[n], retryAt, at);
    }
    ReachWithin(q, sending', before, q.ready.links - old(q.ready.links));
  }

  lemma TakenOut(q: HintQueue, sending: seq<HintItem>, n: nat)
    requires Detached(q, sending) && n < |sending|
    ensures Detached(q, Cut(sending, n)) && sending[n] !in Cut(sending, n)
    ensures Hints(Cut(sending, n)) == Cut(Hints(sending), n)
    ensures forall x :: x in Cut(sending, n) ==> x in sending
  {
    hide Cut;
    CutMembers(sending, n);
  }

  method DoOne(q: HintQueue, sending: seq<HintItem>, a: Act, ghost p: Peer) returns (sending': seq<HintItem>)
    requires InUse(q, sending, p) && HandoffSpec.Sized(q.c, p) && (a.Submit? ==> a.it.size > 0)
    modifies Reach(q, sending)
    ensures InUse(q, sending', Perform(q.c, p, a)) && fresh(Reach(q, sending') - old(Reach(q, sending)))
  {
    hide InUse, Perform, Reach, HandoffSpec.Sized;
    match a
    case Submit(it, at) =>
      SubmitOne(q, sending, it, at, p);
      sending' := sending;
    case Send(at) => sending' := SendOne(q, sending, at, p);
    case Retry(n, retryAt, at) => sending' := RetryOne(q, sending, n, retryAt, at, p);
  }

  /** Runs a client of a new queue: hints are submitted, taken for sending, and retried
      when the send fails. The queue's value is that of the specification's run. */
  method Serve(c: Config, acts: seq<Act>) returns (q: HintQueue, sending: seq<HintItem>)
    requires forall a :: a in acts && a.Submit? ==> a.it.size > 0
    ensures fresh(q) && q.Valid() && q.c == c
    ensures q.View() == Run(c, Queue([], []), OpsOf(c, Peer(Queue([], []), []), acts))
  {
    hide InUse, Perform, OpsOf, Run, Reach, HandoffSpec.Sized;
    q, sending := Begin(c);
    ghost var p, repr := Peer(Queue([], []), []), Reach(q, sending);
    for i := 0 to |acts|
      invariant InUse(q, sending, p) && q.c == c && HandoffSpec.Sized(c, p) && fresh(q)
      invariant Reach(q, sending) <= repr && fresh(repr)
      invariant Run(c, p.queue, OpsOf(c, p, acts[i..])) == Run(c, Queue([], []), OpsOf(c, Peer(Queue([], []), []), acts))
    {
      assert acts[i..][0] == acts[i] && acts[i..][1..] == acts[i + 1..];
      RunsOn(c, p, acts[i..]);
      PerformSized(c, p, acts[i]);
      ghost var before := Reach(q, sending);
      label Before:
      sending := DoOne(q, sending, acts[i], p);
      ghost var more := Reach(q, sending) - before;
      assert forall o :: o in more ==> fresh@Before(o);
      p, repr := Perform(c, p, acts[i]), repr + more;
    }
    Ends(q, sending, p);
    NothingToRun(c, p, acts[|acts|..]);
  }

  method Begin(c: Config) returns (q: HintQueue, sending: seq<HintItem>)
    ensures InUse(q, sending, Peer(Queue([], []), [])) && q.c == c && fresh(q) && fresh(Reach(q, sending))
    ensures HandoffSpec.Sized(c, Peer(Queue([], []), []))
  {
    hide HintQueue.Valid, WellFormed;
    EmptyWellFormed(c);
    q := new HintQueue(c);
    sending := [];
  }

  lemma Ends(q: HintQueue, sending: seq<HintItem>, p: Peer)
    requires InUse(q, sending, p)
    ensures q.Valid() && q.View() == p.queue
  {
  }

  lemma NothingToRun(c: Config, p: Peer, acts: seq<Act>)
    requires acts == []
    ensures Run(c, p.queue, OpsOf(c, p, acts)) == p.queue
  {
  }
}
