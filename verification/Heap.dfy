/** The binary min-heap used by two parts of the cluster: Go's `container/heap`
    driving the backoff queue of hinted handoff, and the hand-written sift loops
    of the Space-Saving counter. Both compare an element with its parent and with
    its smaller child in the same way, so the array transformations are defined
    once, on values, and the imperative loops are proved equal to them. */
module BinaryHeap {

  function Exchange<T>(h: seq<T>, i: nat, j: nat): (r: seq<T>)
    requires i < |h| && j < |h|
    ensures |r| == |h| && r[i] == h[j] && r[j] == h[i]
    ensures multiset(r) == multiset(h)
  {
    h[i := h[j]][j := h[i]]
  }

  predicate ChildOf(c: int, p: int) {
    c == 2 * p + 1 || c == 2 * p + 2
  }

  /** Heap order on the first `n` slots: no element is below its parent. */
  ghost predicate Ordered<T>(h: seq<T>, n: nat, prio: T -> int)
    requires n <= |h|
  {
    forall p, c :: 0 <= p < c < n && ChildOf(c, p) ==> prio(h[p]) <= prio(h[c])
  }

  /** Moves the element at `j` towards the root. */
  function Up<T>(h: seq<T>, j: nat, prio: T -> int): (r: seq<T>)
    requires j < |h|
    ensures |r| == |h|
    decreases j
  {
    if j == 0 || prio(h[(j - 1) / 2]) <= prio(h[j]) then h
    else Up(Exchange(h, (j - 1) / 2, j), (j - 1) / 2, prio)
  }

  function SmallerChild<T>(h: seq<T>, i: nat, n: nat, prio: T -> int): (c: nat)
    requires 2 * i + 1 < n <= |h|
    ensures i < c < n
  {
    if 2 * i + 2 < n && prio(h[2 * i + 2]) < prio(h[2 * i + 1]) then 2 * i + 2 else 2 * i + 1
  }

  predicate Sinks<T>(h: seq<T>, i: nat, n: nat, prio: T -> int)
    requires i <= n <= |h|
  {
    2 * i + 1 < n && prio(h[SmallerChild(h, i, n, prio)]) < prio(h[i])
  }

  /** Moves the element at `i` towards the leaves of the first `n` slots. */
  function Down<T>(h: seq<T>, i: nat, n: nat, prio: T -> int): (r: seq<T>)
    requires i <= n <= |h|
    ensures |r| == |h|
    decreases n - i
  {
    if !Sinks(h, i, n, prio) then h
    else Down(Exchange(h, i, SmallerChild(h, i, n, prio)), SmallerChild(h, i, n, prio), n, prio)
  }

  function Push<T>(h: seq<T>, x: T, prio: T -> int): (r: seq<T>)
    ensures |r| == |h| + 1
  {
    Up(h + [x], |h|, prio)
  }

  /** What is left after the root has been popped. */
  function Pop<T>(h: seq<T>, prio: T -> int): (r: seq<T>)
    requires h != []
    ensures |r| == |h| - 1
  {
    Down(Exchange(h, 0, |h| - 1), 0, |h| - 1, prio)[..|h| - 1]
  }

  /** Repairs slot `i`: down if it sinks, otherwise up. */
  function Sift<T>(h: seq<T>, i: nat, n: nat, prio: T -> int): (r: seq<T>)
    requires i < n <= |h|
    ensures |r| == |h|
  {
    if Sinks(h, i, n, prio) then Down(h, i, n, prio) else Up(h, i, prio)
  }

  /** What is left after slot `i` has been removed. */
  function Delete<T>(h: seq<T>, i: nat, prio: T -> int): (r: seq<T>)
    requires i < |h|
    ensures |r| == |h| - 1
  {
    if i == |h| - 1 then h[..i] else Sift(Exchange(h, i, |h| - 1), i, |h| - 1, prio)[..|h| - 1]
  }

  // ---------------------------------------------------------------- order

  lemma {:induction false} RootIsMinimal<T>(h: seq<T>, n: nat, prio: T -> int, i: nat)
    requires i < n <= |h| && Ordered(h, n, prio)
    ensures prio(h[0]) <= prio(h[i])
  {
    if i > 0 {
      assert ChildOf(i, (i - 1) / 2);
      RootIsMinimal(h, n, prio, (i - 1) / 2);
    }
  }

  /** Order everywhere except possibly between `j` and its parent, where `j`'s
      children still respect the grandparent. */
  ghost predicate OrderedBut<T>(h: seq<T>, n: nat, j: nat, prio: T -> int)
    requires n <= |h|
  {
    && (forall p, c :: 0 <= p < c < n && c != j && ChildOf(c, p) ==> prio(h[p]) <= prio(h[c]))
    && (forall c :: 0 < j < c < n && ChildOf(c, j) ==> prio(h[(j - 1) / 2]) <= prio(h[c]))
  }

  lemma RiseStep<T>(h: seq<T>, n: nat, j: nat, prio: T -> int)
    requires 0 < j < n <= |h| && OrderedBut(h, n, j, prio) && prio(h[j]) < prio(h[(j - 1) / 2])
    ensures OrderedBut(Exchange(h, (j - 1) / 2, j), n, (j - 1) / 2, prio)
  {
    var i := (j - 1) / 2;
    assert i > 0 ==> ChildOf(i, (i - 1) / 2);
  }

  lemma {:induction false} UpOrders<T>(h: seq<T>, n: nat, j: nat, prio: T -> int)
    requires j < n <= |h| && OrderedBut(h, n, j, prio)
    ensures Ordered(Up(h, j, prio), n, prio)
    decreases j
  {
    if j > 0 && prio(h[j]) < prio(h[(j - 1) / 2]) {
      RiseStep(h, n, j, prio);
      UpOrders(Exchange(h, (j - 1) / 2, j), n, (j - 1) / 2, prio);
    }
  }

  /** Order everywhere except possibly between `i` and its children, which still
      respect `i`'s parent. */
  ghost predicate OrderedBelow<T>(h: seq<T>, n: nat, i: nat, prio: T -> int)
    requires n <= |h|
  {
    && (forall p, c :: 0 <= p < c < n && p != i && ChildOf(c, p) ==> prio(h[p]) <= prio(h[c]))
    && (forall c :: 0 < i < c < n && ChildOf(c, i) ==> prio(h[(i - 1) / 2]) <= prio(h[c]))
  }

  lemma SinkStep<T>(h: seq<T>, n: nat, i: nat, prio: T -> int)
    requires i <= n <= |h| && OrderedBelow(h, n, i, prio) && Sinks(h, i, n, prio)
    ensures OrderedBelow(Exchange(h, i, SmallerChild(h, i, n, prio)), n, SmallerChild(h, i, n, prio), prio)
  {
    var c := SmallerChild(h, i, n, prio);
    var e := Exchange(h, i, c);
    forall p, k | 0 <= p < k < n && p != c && ChildOf(k, p)
      ensures prio(e[p]) <= prio(e[k])
    {
      if p == i {
        assert k == c || e[k] == h[k];
      } else if k == i {
        assert prio(h[(i - 1) / 2]) <= prio(h[c]);
      }
    }
    forall k | 0 < c < k < n && ChildOf(k, c)
      ensures prio(e[(c - 1) / 2]) <= prio(e[k])
    {
      assert prio(h[c]) <= prio(h[k]);
    }
  }

  lemma {:induction false} DownOrders<T>(h: seq<T>, n: nat, i: nat, prio: T -> int)
    requires i <= n <= |h| && OrderedBelow(h, n, i, prio)
    ensures Ordered(Down(h, i, n, prio), n, prio)
    decreases n - i
  {
    if Sinks(h, i, n, prio) {
      var c := SmallerChild(h, i, n, prio);
      SinkStep(h, n, i, prio);
      DownOrders(Exchange(h, i, c), n, c, prio);
    }
  }

  lemma PushOrders<T>(h: seq<T>, x: T, prio: T -> int)
    requires Ordered(h, |h|, prio)
    ensures Ordered(Push(h, x, prio), |h| + 1, prio)
  {
    UpOrders(h + [x], |h| + 1, |h|, prio);
  }

  lemma PopOrders<T>(h: seq<T>, prio: T -> int)
    requires h != [] && Ordered(h, |h|, prio)
    ensures Ordered(Pop(h, prio), |h| - 1, prio)
  {
    DownOrders(Exchange(h, 0, |h| - 1), |h| - 1, 0, prio);
  }

  lemma SiftOrders<T>(h: seq<T>, i: nat, x: T, n: nat, prio: T -> int)
    requires i < n <= |h| && Ordered(h, n, prio)
    ensures Ordered(Sift(h[i := x], i, n, prio), n, prio)
  {
    var e := h[i := x];
    if Sinks(e, i, n, prio) {
      var c := SmallerChild(e, i, n, prio);
      assert ChildOf(c, i) && prio(h[i]) <= prio(h[c]) == prio(e[c]);
      assert i > 0 ==> ChildOf(i, (i - 1) / 2);
      DownOrders(e, n, i, prio);
    } else {
      assert i > 0 ==> ChildOf(i, (i - 1) / 2);
      UpOrders(e, n, i, prio);
    }
  }

  lemma DeleteOrders<T>(h: seq<T>, i: nat, prio: T -> int)
    requires i < |h| && Ordered(h, |h|, prio)
    ensures Ordered(Delete(h, i, prio), |h| - 1, prio)
  {
    hide Sift;
    var n := |h| - 1;
    if i < n {
      SiftOrders(h[n := h[i]], i, h[n], n, prio);
      assert Exchange(h, i, n) == h[n := h[i]][i := h[n]];
    }
  }

  // ---------------------------------------------------------------- contents

  lemma {:induction false} UpKeeps<T>(h: seq<T>, j: nat, prio: T -> int)
    requires j < |h|
    ensures multiset(Up(h, j, prio)) == multiset(h)
    ensures forall k :: j < k < |h| ==> Up(h, j, prio)[k] == h[k]
    decreases j
  {
    if j > 0 && prio(h[j]) < prio(h[(j - 1) / 2]) {
      UpKeeps(Exchange(h, (j - 1) / 2, j), (j - 1) / 2, prio);
    }
  }

  lemma {:induction false} DownKeeps<T>(h: seq<T>, i: nat, n: nat, prio: T -> int)
    requires i <= n <= |h|
    ensures multiset(Down(h, i, n, prio)) == multiset(h)
    ensures forall k :: n <= k < |h| ==> Down(h, i, n, prio)[k] == h[k]
    decreases n - i
  {
    if Sinks(h, i, n, prio) {
      var c := SmallerChild(h, i, n, prio);
      DownKeeps(Exchange(h, i, c), c, n, prio);
    }
  }

  lemma PushKeeps<T>(h: seq<T>, x: T, prio: T -> int)
    ensures multiset(Push(h, x, prio)) == multiset(h) + multiset{x}
  {
    UpKeeps(h + [x], |h|, prio);
  }

  lemma PopKeeps<T>(h: seq<T>, prio: T -> int)
    requires h != []
    ensures multiset(Pop(h, prio)) == multiset(h) - multiset{h[0]}
  {
    hide Exchange, Down;
    var n := |h| - 1;
    var e := Exchange(h, 0, n);
    var d := Down(e, 0, n, prio);
    DownKeeps(e, 0, n, prio);
    DropLast(e, d, n);
  }

  lemma DeleteKeeps<T>(h: seq<T>, i: nat, prio: T -> int)
    requires i < |h|
    ensures multiset(Delete(h, i, prio)) == multiset(h) - multiset{h[i]}
  {
    hide Exchange, Sift;
    var n := |h| - 1;
    if i == n {
      DropLast(h, h, n);
    } else {
      var e := Exchange(h, i, n);
      SiftKeeps(e, i, n, prio);
      DropLast(e, Sift(e, i, n, prio), n);
    }
  }

  lemma SiftKeeps<T>(h: seq<T>, i: nat, n: nat, prio: T -> int)
    requires i < n <= |h|
    ensures multiset(Sift(h, i, n, prio)) == multiset(h)
    ensures forall k :: n <= k < |h| ==> Sift(h, i, n, prio)[k] == h[k]
  {
    UpKeeps(h, i, prio);
    DownKeeps(h, i, n, prio);
  }

  lemma DropLast<T>(e: seq<T>, d: seq<T>, n: nat)
    requires |d| == |e| == n + 1 && d[n] == e[n] && multiset(d) == multiset(e)
    ensures multiset(d[..n]) == multiset(e) - multiset{e[n]}
  {
    assert d == d[..n] + [d[n]];
  }
}
