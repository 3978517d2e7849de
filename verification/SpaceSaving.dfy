/** The Space-Saving top-k counter behind hot-key detection: an indexed min-heap of
    at most `cap` counters, and the error bounds the algorithm is used for. */
module SpaceSaving {
  import opened BinaryHeap

  const MAX64 := 0xffff_ffff_ffff_ffff

  type Key = string

  datatype Entry = Entry(k: Key, c: nat)

  function Cnt(e: Entry): int { e.c }

  function AddSat64(a: nat, b: nat): (r: nat)
    requires a <= MAX64 && b <= MAX64
    ensures r <= MAX64 && (a + b <= MAX64 ==> r == a + b) && (a + b > MAX64 ==> r == MAX64)
  {
    var c := (a + b) % (MAX64 + 1);
    if c < a then MAX64 else c
  }

  // ---------------------------------------------------------------- the algorithm on counters

  /** One update of the tracked counters: a tracked key grows, a new key takes a free
      counter, or it takes over a minimal one together with its count. */
  ghost predicate Step(cap: nat, m: map<Key, nat>, k: Key, inc: nat, m': map<Key, nat>)
    requires inc <= MAX64
  {
    && (forall j :: j in m ==> m[j] <= MAX64)
    && if k in m then m' == m[k := AddSat64(m[k], inc)]
       else if |m| < cap then m' == m[k := inc]
       else exists v :: Minimal(m, v) && m' == (m - {v})[k := AddSat64(m[v], inc)]
  }

  ghost predicate Minimal(m: map<Key, nat>, v: Key) {
    v in m && forall j :: j in m ==> m[v] <= m[j]
  }

  class Counter {
    const cap: nat
    var h: seq<Entry>
    var idx: map<Key, nat>

    constructor (k: int)
      ensures Valid() && Counts() == map[] && cap == if k < 1 then 1 else k
    {
      cap := if k < 1 then 1 else k;
      h, idx := [], map[];
    }

    ghost predicate Indexed()
      reads this
    {
      && (forall i :: 0 <= i < |h| ==> h[i].k in idx && idx[h[i].k] == i)
      && (forall k :: k in idx ==> idx[k] < |h| && h[idx[k]].k == k)
    }

    ghost predicate Valid()
      reads this
    {
      && Indexed() && 1 <= cap && |h| <= cap
      && Ordered(h, |h|, Cnt)
      && (forall i :: 0 <= i < |h| ==> h[i].c <= MAX64)
    }

    ghost function Counts(): (m: map<Key, nat>)
      requires Indexed()
      reads this
    {
      map k | k in idx :: h[idx[k]].c
    }

    method Swap(i: nat, j: nat)
      requires Indexed() && i < |h| && j < |h|
      modifies this
      ensures Indexed() && h == Exchange(old(h), i, j) && Counts() == old(Counts())
    {
      h := h[i := h[j]][j := h[i]];
      idx := idx[h[i].k := i][h[j].k := j];
    }

    method SiftUp(start: nat)
      requires Indexed() && start < |h|
      modifies this
      ensures Indexed() && h == Up(old(h), start, Cnt) && Counts() == old(Counts())
    {
      hide Exchange;
      var i: nat := start;
      while i > 0
        invariant i < |h| == |old(h)| && Indexed() && Counts() == old(Counts())
        invariant Up(h, i, Cnt) == Up(old(h), start, Cnt)
      {
        var p := (i - 1) / 2;
        if h[p].c <= h[i].c {
          break;
        }
        Swap(p, i);
        i := p;
      }
    }

    /** One turn of the sift-down loop: the slot the counter moves to, or `i`. */
    method SinkOnce(i: nat) returns (j: nat)
      requires Indexed() && i < |h|
      modifies this
      ensures Indexed() && Counts() == old(Counts()) && i <= j < |h| == |old(h)|
      ensures Down(h, j, |h|, Cnt) == Down(old(h), i, |h|, Cnt)
      ensures i == j ==> h == old(h) && !Sinks(h, i, |h|, Cnt)
    {
      hide Exchange, Counts;
      j := 2 * i + 1;
      if j >= |h| {
        return i;
      }
      if j + 1 < |h| && h[j + 1].c < h[j].c {
        j := j + 1;
      }
      if h[i].c <= h[j].c {
        return i;
      }
      Swap(i, j);
    }

    method SiftDown(start: nat)
      requires Indexed() && start < |h|
      modifies this
      ensures Indexed() && h == Down(old(h), start, |old(h)|, Cnt) && Counts() == old(Counts())
    {
      hide Sinks, Counts;
      var i: nat := start;
      var j := SinkOnce(i);
      while i != j
        invariant i <= j < |h| == |old(h)| && Indexed() && Counts() == old(Counts())
        invariant Down(h, j, |h|, Cnt) == Down(old(h), start, |h|, Cnt)
        invariant i == j ==> !Sinks(h, j, |h|, Cnt)
        decreases |h| - j, j - i
      {
        i := j;
        j := SinkOnce(i);
      }
    }

    /** A counter whose count grew goes down the heap. */
    method Grow(i: nat, e: Entry)
      requires Valid() && i < |h| && e.k == h[i].k && h[i].c <= e.c <= MAX64
      modifies this
      ensures Valid() && Counts() == old(Counts())[e.k := e.c]
    {
      hide Down, Ordered;
      GrownBelow(h, i, e);
      h := h[i := e];
      DownOrders(h, |h|, i, Cnt);
      DownKeeps(h, i, |h|, Cnt);
      ghost var before := h;
      SiftDown(i);
      KeepsBound(before, h);
    }

    method Insert(key: Key, inc: nat)
      requires Valid() && key !in idx && |h| < cap && inc <= MAX64
      modifies this
      ensures Valid() && Counts() == old(Counts())[key := inc]
    {
      hide Up, Ordered;
      var e := Entry(key, inc);
      PushOrders(h, e, Cnt);
      PushKeeps(h, e, Cnt);
      h := h + [e];
      idx := idx[key := |h| - 1];
      assert Counts() == old(Counts())[key := inc];
      ghost var before := h;
      SiftUp(|h| - 1);
      KeepsBound(before, h);
    }

    /** The root is relabelled and keeps its count as the newcomer's head start. */
    method TakeOverMin(key: Key, inc: nat)
      requires Valid() && key !in idx && h != [] && inc <= MAX64
      modifies this
      ensures Valid() && old(h) != []
      ensures Minimal(old(Counts()), old(h)[0].k)
      ensures Counts() == (old(Counts()) - {old(h)[0].k})[key := AddSat64(old(h)[0].c, inc)]
    {
      hide Down, Ordered, AddSat64, Minimal;
      RootMinimal();
      var e := Entry(key, AddSat64(h[0].c, inc));
      idx := (idx - {h[0].k})[key := 0];
      RootBelow(h, e);
      h := h[0 := e];
      DownOrders(h, |h|, 0, Cnt);
      DownKeeps(h, 0, |h|, Cnt);
      ghost var before := h;
      SiftDown(0);
      KeepsBound(before, h);
    }

    lemma RootMinimal()
      requires Valid() && h != []
      ensures Minimal(Counts(), h[0].k) && Counts()[h[0].k] == h[0].c
    {
      forall j | j in Counts()
        ensures h[0].c <= Counts()[j]
      {
        RootIsMinimal(h, |h|, Cnt, idx[j]);
      }
    }

    lemma OneCounterPerSlot()
      requires Indexed()
      ensures |Counts()| == |h|
    {
      assert Counts().Keys == idx.Keys;
      KeyCount(h, |h|);
      assert idx.Keys == set i | 0 <= i < |h| :: h[i].k;
    }

    /** Records `inc` accesses of `key`. */
    method Add(key: Key, inc: nat)
      requires Valid() && inc <= MAX64
      modifies this
      ensures Valid() && Step(cap, old(Counts()), key, inc, Counts())
    {
      hide Ordered, AddSat64;
      OneCounterPerSlot();
      if key in idx {
        var i := idx[key];
        Grow(i, Entry(key, AddSat64(h[i].c, inc)));
        return;
      }
      if |h| < cap {
        Insert(key, inc);
        return;
      }
      TakeOverMin(key, inc);
    }
  }

  lemma {:induction false} KeyCount(h: seq<Entry>, n: nat)
    requires n <= |h| && forall i, j :: 0 <= i < j < |h| ==> h[i].k != h[j].k
    ensures |set i | 0 <= i < n :: h[i].k| == n
  {
    if n > 0 {
      KeyCount(h, n - 1);
      assert (set i | 0 <= i < n :: h[i].k) == (set i | 0 <= i < n - 1 :: h[i].k) + {h[n - 1].k};
    }
  }

  lemma RootBelow(h: seq<Entry>, e: Entry)
    requires h != [] && Ordered(h, |h|, Cnt)
    ensures OrderedBelow(h[0 := e], |h|, 0, Cnt)
  {
  }

  lemma GrownBelow(h: seq<Entry>, i: nat, e: Entry)
    requires i < |h| && Ordered(h, |h|, Cnt) && h[i].c <= e.c
    ensures OrderedBelow(h[i := e], |h|, i, Cnt)
  {
    assert i > 0 ==> ChildOf(i, (i - 1) / 2);
  }

  lemma KeepsBound(a: seq<Entry>, b: seq<Entry>)
    requires multiset(a) == multiset(b) && forall i :: 0 <= i < |a| ==> a[i].c <= MAX64
    ensures forall i :: 0 <= i < |b| ==> b[i].c <= MAX64
  {
    forall i | 0 <= i < |b|
      ensures b[i].c <= MAX64
    {
      assert b[i] in multiset(a);
    }
  }

  // ---------------------------------------------------------------- error bounds over a stream

  datatype Access = Access(key: Key, weight: nat)

  function Total(s: seq<Access>): (n: nat) {
    if s == [] then 0 else Total(s[..|s| - 1]) + s[|s| - 1].weight
  }

  /** The true count of `k`: the weight of its accesses. */
  function TrueCount(s: seq<Access>, k: Key): (n: nat) {
    if s == [] then 0
    else TrueCount(s[..|s| - 1], k) + if s[|s| - 1].key == k then s[|s| - 1].weight else 0
  }

  ghost function Sum(m: map<Key, nat>): (n: nat)
    decreases |m|
  {
    if m == map[] then 0
    else var k :| k in m; assert |m - {k}| < |m| by { Shrinks(m, k); } m[k] + Sum(m - {k})
  }

  lemma Shrinks(m: map<Key, nat>, k: Key)
    requires k in m
    ensures |m - {k}| == |m| - 1
  {
    assert (m - {k}).Keys == m.Keys - {k};
  }

  lemma {:induction false} SumWithout(m: map<Key, nat>, k: Key)
    requires k in m
    ensures Sum(m) == m[k] + Sum(m - {k})
    decreases |m|
  {
    var j :| j in m && Sum(m) == m[j] + Sum(m - {j});
    if j != k {
      Shrinks(m, j);
      Shrinks(m, k);
      SumWithout(m - {j}, k);
      SumWithout(m - {k}, j);
      assert m - {j} - {k} == m - {k} - {j};
    }
  }

  lemma SumUpdate(m: map<Key, nat>, k: Key, v: nat)
    ensures Sum(m[k := v]) == Sum(m - {k}) + v
  {
    SumWithout(m[k := v], k);
    assert m[k := v] - {k} == m - {k};
  }

  lemma {:induction false} SumAtLeast(m: map<Key, nat>, b: nat)
    requires forall j :: j in m ==> b <= m[j]
    ensures |m| * b <= Sum(m)
    decreases |m|
  {
    hide Sum;
    if |m| > 0 {
      var k :| k in m;
      Shrinks(m, k);
      SumWithout(m, k);
      SumAtLeast(m - {k}, b);
      assert |m| * b == |m - {k}| * b + b;
    }
  }

  lemma PartOfSum(m: map<Key, nat>, k: Key)
    requires k in m
    ensures m[k] <= Sum(m)
  {
    SumWithout(m, k);
  }

  /** The counters that a stream can lead to, whatever minima were replaced. */
  ghost predicate Reaches(cap: nat, s: seq<Access>, m: map<Key, nat>)
    requires forall a :: a in s ==> a.weight <= MAX64
    decreases |s|
  {
    if s == [] then m == map[]
    else
      var a := s[|s| - 1];
      exists m0 :: Reaches(cap, s[..|s| - 1], m0) && Step(cap, m0, a.key, a.weight, m)
  }

  /** The Space-Saving guarantees: counts add up to the stream, no tracked key is
      under-counted or over-counted by more than any tracked count, and an untracked
      key is no heavier than any tracked count. */
  ghost predicate Accurate(cap: nat, s: seq<Access>, m: map<Key, nat>) {
    && |m| <= cap && Sum(m) == Total(s)
    && (forall k :: k in m ==> TrueCount(s, k) <= m[k])
    && (forall k, j :: k in m && j in m ==> m[k] <= TrueCount(s, k) + m[j])
    && (forall k, j :: k !in m && j in m ==> TrueCount(s, k) <= m[j])
    && (|m| < cap ==> forall k :: TrueCount(s, k) == if k in m then m[k] else 0)
  }

  /** `t` is `s` followed by one access. */
  ghost predicate Extends(t: seq<Access>, s: seq<Access>, a: Access) {
    && Total(t) == Total(s) + a.weight
    && forall k :: TrueCount(t, k) == TrueCount(s, k) + if k == a.key then a.weight else 0
  }

  lemma Extend(s: seq<Access>, a: Access)
    ensures Extends(s + [a], s, a)
  {
    assert (s + [a])[..|s|] == s;
  }

  lemma GrowStaysAccurate(cap: nat, s: seq<Access>, t: seq<Access>, a: Access, m: map<Key, nat>, m': map<Key, nat>)
    requires Extends(t, s, a) && Accurate(cap, s, m) && a.key in m && m' == m[a.key := m[a.key] + a.weight]
    ensures Accurate(cap, t, m')
  {
    hide Sum, Total, TrueCount;
    SumWithout(m, a.key);
    SumUpdate(m, a.key, m[a.key] + a.weight);
    assert m'.Keys == m.Keys;
  }

  lemma InsertStaysAccurate(cap: nat, s: seq<Access>, t: seq<Access>, a: Access, m: map<Key, nat>, m': map<Key, nat>)
    requires Extends(t, s, a) && Accurate(cap, s, m) && a.key !in m && |m| < cap && m' == m[a.key := a.weight]
    ensures Accurate(cap, t, m')
  {
    hide Sum, Total, TrueCount;
    SumUpdate(m, a.key, a.weight);
    assert m - {a.key} == m && m'.Keys == m.Keys + {a.key};
  }

  lemma ReplaceSum(m: map<Key, nat>, k: Key, v: Key, w: nat)
    requires v in m && k !in m
    ensures var m' := (m - {v})[k := m[v] + w]; |m'| == |m| && Sum(m') == Sum(m) + w
  {
    hide Sum;
    var m' := (m - {v})[k := m[v] + w];
    SumWithout(m, v);
    SumUpdate(m - {v}, k, m[v] + w);
    assert m - {v} - {k} == m - {v} && m'.Keys == m.Keys - {v} + {k};
    assert |m'.Keys| == |m.Keys|;
  }

  lemma ReplaceStaysAccurate(
    cap: nat, s: seq<Access>, t: seq<Access>, a: Access, m: map<Key, nat>, m': map<Key, nat>, v: Key)
    requires Extends(t, s, a) && Accurate(cap, s, m) && a.key !in m && |m| == cap
    requires Minimal(m, v) && m' == (m - {v})[a.key := m[v] + a.weight]
    ensures Accurate(cap, t, m')
  {
    hide Sum, Total, TrueCount;
    ReplaceSum(m, a.key, v, a.weight);
    assert forall j :: j in m' ==> m[v] <= m'[j];
  }

  lemma AccurateTotals(cap: nat, s: seq<Access>, m: map<Key, nat>)
    requires Accurate(cap, s, m)
    ensures |m| <= cap && Sum(m) == Total(s)
  {
  }

  lemma StepStaysAccurate(cap: nat, s: seq<Access>, a: Access, m: map<Key, nat>, m': map<Key, nat>)
    requires a.weight <= MAX64 && Total(s + [a]) <= MAX64
    requires Accurate(cap, s, m) && Step(cap, m, a.key, a.weight, m')
    ensures Accurate(cap, s + [a], m')
  {
    hide Sum, Total, TrueCount, Accurate, AddSat64, Extends;
    var t := s + [a];
    Extend(s, a);
    AccurateTotals(cap, s, m);
    if a.key in m {
      PartOfSum(m, a.key);
      GrowStaysAccurate(cap, s, t, a, m, m');
    } else if |m| < cap {
      InsertStaysAccurate(cap, s, t, a, m, m');
    } else {
      var v :| Minimal(m, v) && m' == (m - {v})[a.key := AddSat64(m[v], a.weight)];
      TakeOverStaysAccurate(cap, s, t, a, m, m', v);
    }
  }

  lemma TakeOverStaysAccurate(
    cap: nat, s: seq<Access>, t: seq<Access>, a: Access, m: map<Key, nat>, m': map<Key, nat>, v: Key)
    requires a.weight <= MAX64 && Extends(t, s, a) && Accurate(cap, s, m) && a.key !in m && |m| == cap
    requires Total(t) <= MAX64 && Minimal(m, v) && m[v] <= MAX64
    requires m' == (m - {v})[a.key := AddSat64(m[v], a.weight)]
    ensures Accurate(cap, t, m')
  {
    hide Sum, Total, TrueCount, AddSat64;
    AccurateTotals(cap, s, m);
    PartOfSum(m, v);
    ReplaceStaysAccurate(cap, s, t, a, m, m', v);
  }

  lemma EmptyIsAccurate(cap: nat)
    ensures Accurate(cap, [], map[])
  {
  }

  lemma {:induction false} SpaceSavingTheorem(cap: nat, s: seq<Access>, m: map<Key, nat>)
    requires 1 <= cap && Total(s) <= MAX64 && (forall a :: a in s ==> a.weight <= MAX64) && Reaches(cap, s, m)
    ensures Accurate(cap, s, m)
    decreases |s|
  {
    hide Accurate, Step, TrueCount;
    if s == [] {
      EmptyIsAccurate(cap);
    } else {
      var a := s[|s| - 1];
      assert forall x :: x in s[..|s| - 1] ==> x in s;
      var m0 :| Reaches(cap, s[..|s| - 1], m0) && Step(cap, m0, a.key, a.weight, m);
      SpaceSavingTheorem(cap, s[..|s| - 1], m0);
      assert s == s[..|s| - 1] + [a];
      StepStaysAccurate(cap, s[..|s| - 1], a, m0, m);
    }
  }

  lemma UntrackedBound(cap: nat, s: seq<Access>, m: map<Key, nat>, k: Key)
    requires Accurate(cap, s, m) && k !in m
    ensures forall j :: j in m ==> TrueCount(s, k) <= m[j]
    ensures TrueCount(s, k) * cap == |m| * TrueCount(s, k)
  {
    hide TrueCount, Sum, Total;
    if |m| < cap {
      assert TrueCount(s, k) == 0;
    }
  }

  /** Any key heavier than a 1/cap share of the stream is tracked. */
  lemma HeavyHittersAreTracked(cap: nat, s: seq<Access>, m: map<Key, nat>, k: Key)
    requires 1 <= cap && Total(s) <= MAX64 && (forall a :: a in s ==> a.weight <= MAX64) && Reaches(cap, s, m)
    requires TrueCount(s, k) * cap > Total(s)
    ensures k in m
  {
    hide Sum, Total, TrueCount, Reaches, Accurate;
    SpaceSavingTheorem(cap, s, m);
    AccurateTotals(cap, s, m);
    if k !in m {
      UntrackedBound(cap, s, m, k);
      SumAtLeast(m, TrueCount(s, k));
    }
  }

  lemma ReachesNothing(cap: nat, s: seq<Access>)
    ensures Reaches(cap, s[..0], map[])
  {
  }

  lemma ReachesMore(cap: nat, s: seq<Access>, i: nat, m: map<Key, nat>, m': map<Key, nat>)
    requires i < |s| && forall a :: a in s ==> a.weight <= MAX64
    requires Reaches(cap, s[..i], m) && Step(cap, m, s[i].key, s[i].weight, m')
    ensures Reaches(cap, s[..i + 1], m')
  {
    hide Step;
    assert s[..i + 1][..i] == s[..i] && s[..i + 1][i] == s[i];
  }

  /** Counts a stream on a new counter: the guarantees hold of what it tracks. */
  method CountAll(k: int, s: seq<Access>) returns (c: Counter)
    requires Total(s) <= MAX64 && forall a :: a in s ==> a.weight <= MAX64
    ensures fresh(c) && c.Valid() && Accurate(c.cap, s, c.Counts())
  {
    hide Accurate, Step, Reaches;
    c := new Counter(k);
    ReachesNothing(c.cap, s);
    for i := 0 to |s|
      invariant c.Valid() && fresh(c) && c.cap >= 1 && Reaches(c.cap, s[..i], c.Counts())
    {
      assert s[i] in s;
      ghost var m := c.Counts();
      c.Add(s[i].key, s[i].weight);
      ReachesMore(c.cap, s, i, m, c.Counts());
    }
    assert s[..|s|] == s;
    SpaceSavingTheorem(c.cap, s, c.Counts());
  }
}
