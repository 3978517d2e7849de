/** The admission filter's frequency sketch: 4-bit counters packed sixteen to a word,
    four of them per key, halved together from time to time. The four hash functions
    are a parameter that yields indices below the sketch's size. */
module FrequencySketch {
  import opened Wrappers

  const MAX := 15

  // ---------------------------------------------------------------- words of counters

  /** The bit offset of counter `c` of a word: 4 * c as a word. */
  function Shift(c: nat): (sh: bv64)
    requires c < 16
    ensures sh <= 60 && sh & 3 == 0
  {
    if c == 0 then 0
    else if c == 1 then 4
    else if c == 2 then 8
    else if c == 3 then 12
    else if c == 4 then 16
    else if c == 5 then 20
    else if c == 6 then 24
    else if c == 7 then 28
    else if c == 8 then 32
    else if c == 9 then 36
    else if c == 10 then 40
    else if c == 11 then 44
    else if c == 12 then 48
    else if c == 13 then 52
    else if c == 14 then 56
    else 60
  }

  lemma ShiftsDiffer(c: nat, d: nat)
    requires c < d < 16
    ensures Shift(c) != Shift(d)
  {
  }

  function Nibble(w: bv64, sh: bv64): (v: bv64)
    requires sh <= 60
    ensures v <= 15
  {
    (w >> sh) & 15
  }

  function Plus(w: bv64, sh: bv64): (r: bv64)
    requires sh <= 60
  {
    w + (1 << sh)
  }

  /** Adding one to a counter below 15 carries into no neighbour. */
  lemma IncrementStaysInside(w: bv64, sh: bv64, other: bv64)
    requires sh <= 60 && other <= 60 && sh & 3 == 0 && other & 3 == 0 && Nibble(w, sh) < 15
    ensures Nibble(Plus(w, sh), sh) == Nibble(w, sh) + 1
    ensures sh != other ==> Nibble(Plus(w, sh), other) == Nibble(w, other)
  {
  }

  function Aged(w: bv64): (r: bv64) { (w >> 1) & 0x7777_7777_7777_7777 }

  /** Shifting the word and masking halves each counter on its own. */
  lemma AgingStaysInside(w: bv64, sh: bv64)
    requires sh <= 60 && sh & 3 == 0
    ensures Nibble(Aged(w), sh) == Nibble(w, sh) >> 1
  {
  }

  /** The number a 4-bit value stands for. */
  function Digit(x: bv64): (d: nat)
    ensures d <= MAX
  {
    if x == 0 then 0
    else if x == 1 then 1
    else if x == 2 then 2
    else if x == 3 then 3
    else if x == 4 then 4
    else if x == 5 then 5
    else if x == 6 then 6
    else if x == 7 then 7
    else if x == 8 then 8
    else if x == 9 then 9
    else if x == 10 then 10
    else if x == 11 then 11
    else if x == 12 then 12
    else if x == 13 then 13
    else if x == 14 then 14
    else MAX
  }

  lemma DigitFacts(x: bv64, y: bv64)
    requires x <= 15 && y <= 15
    ensures (x < 15 ==> Digit(x + 1) == Digit(x) + 1) && Digit(x >> 1) == Digit(x) / 2
    ensures (x < y <==> Digit(x) < Digit(y)) && (x < 15 <==> Digit(x) < MAX)
  {
  }

  function Counter(words: seq<bv64>, i: nat): (n: nat)
    requires i < 16 * |words|
    ensures n <= MAX
  {
    Digit(Nibble(words[i / 16], Shift(i % 16)))
  }

  /** All counters of the packed words, one by one. */
  function Cells(words: seq<bv64>): (cells: seq<nat>)
    ensures |cells| == 16 * |words| && forall i :: 0 <= i < |cells| ==> cells[i] == Counter(words, i)
  {
    seq(16 * |words|, i requires 0 <= i < 16 * |words| => Counter(words, i))
  }

  // ---------------------------------------------------------------- what the sketch means

  /** The four counters of a key; they may coincide. */
  datatype Probe = Probe(a: nat, b: nat, c: nat, d: nat)

  predicate In(p: Probe, size: nat) { p.a < size && p.b < size && p.c < size && p.d < size }

  function Estimate(cells: seq<nat>, p: Probe): (n: nat)
    requires In(p, |cells|)
  {
    Min(Min(Min(cells[p.a], cells[p.b]), cells[p.c]), cells[p.d])
  }

  function Bump(cells: seq<nat>, i: nat): (r: seq<nat>)
    requires i < |cells|
    ensures |r| == |cells|
  {
    if cells[i] < MAX then cells[i := cells[i] + 1] else cells
  }

  function BumpAll(cells: seq<nat>, p: Probe): (r: seq<nat>)
    requires In(p, |cells|)
    ensures |r| == |cells|
  {
    Bump(Bump(Bump(Bump(cells, p.a), p.b), p.c), p.d)
  }

  function Halved(cells: seq<nat>): (r: seq<nat>)
    ensures |r| == |cells| && forall i :: 0 <= i < |r| ==> r[i] == cells[i] / 2
  {
    seq(|cells|, i requires 0 <= i < |cells| => cells[i] / 2)
  }

  datatype State = State(cells: seq<nat>, total: nat)

  /** Whether the next increment is followed by aging. */
  predicate Ages(s: State, threshold: nat) { s.total + 1 >= threshold }

  function Increment(s: State, p: Probe, threshold: nat): (r: State)
    requires In(p, |s.cells|)
    ensures |r.cells| == |s.cells|
  {
    var cells := if Estimate(s.cells, p) < MAX then BumpAll(s.cells, p) else s.cells;
    if Ages(s, threshold) then State(Halved(cells), 0) else State(cells, s.total + 1)
  }

  // ---------------------------------------------------------------- the packed sketch

  lemma WordBumped(words: seq<bv64>, i: nat)
    requires i < 16 * |words| && Nibble(words[i / 16], Shift(i % 16)) < 15
    ensures Cells(words[i / 16 := Plus(words[i / 16], Shift(i % 16))]) == Bump(Cells(words), i)
  {
    hide Digit, Nibble, Shift, Plus, Counter;
    var words' := words[i / 16 := Plus(words[i / 16], Shift(i % 16))];
    forall j | 0 <= j < 16 * |words|
      ensures Counter(words', j) == Bump(Cells(words), i)[j]
    {
      OneBumped(words, i, j);
    }
  }

  lemma OneBumped(words: seq<bv64>, i: nat, j: nat)
    requires i < 16 * |words| && j < 16 * |words| && Nibble(words[i / 16], Shift(i % 16)) < 15
    ensures var words' := words[i / 16 := Plus(words[i / 16], Shift(i % 16))];
      Counter(words', j) == Counter(words, j) + if j == i then 1 else 0
    ensures Counter(words, i) < MAX
  {
    hide Digit, Nibble, Shift, Plus;
    var w := words[i / 16];
    DigitFacts(Nibble(w, Shift(i % 16)), 0);
    if j / 16 == i / 16 {
      IncrementStaysInside(w, Shift(i % 16), Shift(j % 16));
      if j != i {
        SameWord(i, j);
      }
    }
  }

  lemma SameWord(i: nat, j: nat)
    requires i / 16 == j / 16 && i != j
    ensures Shift(i % 16) != Shift(j % 16)
  {
    hide Shift;
    assert i == 16 * (i / 16) + i % 16 && j == 16 * (j / 16) + j % 16;
    if i % 16 < j % 16 {
      ShiftsDiffer(i % 16, j % 16);
    } else {
      ShiftsDiffer(j % 16, i % 16);
    }
  }

  lemma WordsAged(words: seq<bv64>, aged: seq<bv64>)
    requires |aged| == |words| && forall i :: 0 <= i < |words| ==> aged[i] == Aged(words[i])
    ensures Cells(aged) == Halved(Cells(words))
  {
    hide Digit, Nibble, Shift, Aged;
    forall j | 0 <= j < 16 * |words|
      ensures Counter(aged, j) == Counter(words, j) / 2
    {
      AgingStaysInside(words[j / 16], Shift(j % 16));
      DigitFacts(Nibble(words[j / 16], Shift(j % 16)), 0);
    }
  }

  class Sketch {
    const counters: array<bv64>
    const size: nat
    var total: nat
    const threshold: nat

    function View(): (s: State)
      reads this, counters
    {
      State(Cells(counters[..]), total)
    }

    predicate Valid() { size <= 16 * counters.Length }

    /** `size` is a power of two, so it is at most 16 or a multiple of 16. */
    constructor (size: nat)
      requires size <= 16 || size % 16 == 0
      ensures Valid() && this.size == size && threshold == size * 10 && fresh(counters)
      ensures View() == State(seq(|View().cells|, i => 0), 0)
    {
      var n := size / 16;
      if n == 0 {
        n := 1;
      }
      var a := new bv64[n](_ => 0);
      counters, this.size, total, threshold := a, size, 0, size * 10;
      new;
      forall i | 0 <= i < 16 * n
        ensures View().cells[i] == 0
      {
        ZeroWord(Shift(i % 16));
      }
    }

    method GetCounter(i: nat) returns (v: bv64)
      requires i < 16 * counters.Length
      ensures v <= 15 && Digit(v) == View().cells[i]
    {
      hide Digit;
      var sh := Shift(i % 16);
      v := (counters[i / 16] >> sh) & 15;
    }

    method IncrementCounter(i: nat)
      requires i < 16 * counters.Length
      modifies counters
      ensures View().cells == Bump(old(View().cells), i)
    {
      hide Digit, Nibble, Cells, Bump, Shift, Plus;
      var cur := counters[i / 16];
      var sh := Shift(i % 16);
      var v := Nibble(cur, sh);
      AtMax(counters[..], i);
      if v < 15 {
        WordBumped(counters[..], i);
        counters[i / 16] := Plus(cur, sh);
        assert counters[..] == old(counters[..])[i / 16 := Plus(cur, sh)];
      }
    }

    /** The lower of `f` and counter `i`. */
    method Lower(f: bv64, i: nat) returns (r: bv64)
      requires f <= 15 && i < 16 * counters.Length
      ensures r <= 15 && Digit(r) == Min(Digit(f), View().cells[i])
    {
      hide Digit, Cells;
      r := f;
      var v := GetCounter(i);
      DigitFacts(v, f);
      if v < f {
        r := v;
      }
    }

    method EstimateFrequency(p: Probe) returns (f: bv64)
      requires In(p, 16 * counters.Length)
      ensures f <= 15 && Digit(f) == Estimate(View().cells, p)
    {
      hide Digit, Cells;
      f := GetCounter(p.a);
      f := Lower(f, p.b);
      f := Lower(f, p.c);
      f := Lower(f, p.d);
    }

    method Age()
      modifies this, counters
      ensures total == 0 && View().cells == Halved(old(View().cells))
    {
      hide Digit, Nibble, Aged;
      for i := 0 to counters.Length
        invariant forall j :: 0 <= j < i ==> counters[j] == Aged(old(counters[j]))
        invariant forall j :: i <= j < counters.Length ==> counters[j] == old(counters[j])
      {
        counters[i] := Aged(counters[i]);
      }
      WordsAged(old(counters[..]), counters[..]);
      total := 0;
    }

    method IncrementAll(p: Probe)
      requires In(p, 16 * counters.Length)
      modifies counters
      ensures View().cells == BumpAll(old(View().cells), p)
    {
      hide Digit, Cells, Bump;
      IncrementCounter(p.a);
      IncrementCounter(p.b);
      IncrementCounter(p.c);
      IncrementCounter(p.d);
    }

    /** Counts one use of a key; the answer is its estimate before any aging, at least. */
    method Record(p: Probe) returns (f: bv64)
      requires Valid() && In(p, size)
      modifies this, counters
      ensures View() == Increment(old(View()), p, threshold)
      ensures f <= 15 && Digit(f) == Min(Estimate(old(View().cells), p) + 1, MAX)
    {
      hide Digit, Cells, Bump, Estimate, BumpAll;
      f := EstimateFrequency(p);
      DigitFacts(f, 0);
      if f < 15 {
        IncrementAll(p);
        f := f + 1;
      }
      total := total + 1;
      if total >= threshold {
        Age();
      }
    }
  }

  lemma ZeroWord(sh: bv64)
    requires sh <= 60
    ensures Digit(Nibble(0, sh)) == 0
  {
  }

  lemma AtMax(words: seq<bv64>, i: nat)
    requires i < 16 * |words|
    ensures Nibble(words[i / 16], Shift(i % 16)) < 15 <==> Cells(words)[i] < MAX
    ensures Cells(words)[i] >= MAX ==> Bump(Cells(words), i) == Cells(words)
  {
    hide Digit, Nibble, Shift;
    DigitFacts(Nibble(words[i / 16], Shift(i % 16)), 0);
  }

  // ---------------------------------------------------------------- no use is forgotten

  /** A use of a key, or a reset of the filter, which ages the sketch off schedule. */
  datatype Event = Use(k: nat) | Reset

  function Apply(probe: nat -> Probe, s: State, e: Event, threshold: nat): (r: State)
    requires forall k :: In(probe(k), |s.cells|)
    ensures |r.cells| == |s.cells|
  {
    if e.Use? then Increment(s, probe(e.k), threshold) else State(Halved(s.cells), 0)
  }

  /** The sketch after these events. */
  function After(probe: nat -> Probe, size: nat, threshold: nat, events: seq<Event>): (s: State)
    requires forall k :: In(probe(k), size)
    ensures |s.cells| == size
  {
    if events == [] then State(seq(size, i => 0), 0)
    else
      var n := |events| - 1;
      Apply(probe, After(probe, size, threshold, events[..n]), events[n], threshold)
  }

  /** How many uses there were since the sketch last aged, by a reset or because this
      number had reached the threshold. */
  function SinceAging(threshold: nat, events: seq<Event>): (n: nat) {
    if events == [] || events[|events| - 1].Reset? then 0
    else
      var n := SinceAging(threshold, events[..|events| - 1]) + 1;
      if n >= threshold then 0 else n
  }

  /** How often `k` was used, stopping at 15, and halved at every reset and at every
      `threshold`-th use of any key since the last halving. */
  function Uses(threshold: nat, events: seq<Event>, k: nat): (n: nat)
    ensures n <= 15
  {
    if events == [] then 0
    else
      var n := |events| - 1;
      var before := Uses(threshold, events[..n], k);
      var counted := if events[n] == Use(k) && before < 15 then before + 1 else before;
      if events[n].Reset? || SinceAging(threshold, events[..n]) + 1 >= threshold then counted / 2 else counted
  }

  /** The sketch's own count is the number of uses since it last aged, and stays below the
      threshold: the use that reaches it ages the sketch. */
  lemma {:induction false} TotalIsSinceAging(probe: nat -> Probe, size: nat, threshold: nat, events: seq<Event>)
    requires forall k :: In(probe(k), size)
    ensures After(probe, size, threshold, events).total == SinceAging(threshold, events)
    ensures threshold > 0 ==> SinceAging(threshold, events) < threshold
    decreases |events|
  {
    hide Estimate, BumpAll, Halved;
    if events != [] {
      TotalIsSinceAging(probe, size, threshold, events[..|events| - 1]);
    }
  }

  /** Counters only grow, and each counter of the key by one at least unless full. */
  lemma BumpAllGrows(cells: seq<nat>, p: Probe)
    requires In(p, |cells|)
    ensures forall i :: 0 <= i < |cells| ==> BumpAll(cells, p)[i] >= cells[i]
    ensures Estimate(BumpAll(cells, p), p) >= Min(Estimate(cells, p) + 1, MAX)
  {
    BumpGrows(cells, p.a);
    var c1 := Bump(cells, p.a);
    BumpGrows(c1, p.b);
    var c2 := Bump(c1, p.b);
    BumpGrows(c2, p.c);
    var c3 := Bump(c2, p.c);
    BumpGrows(c3, p.d);
    var c4 := Bump(c3, p.d);
    assert c4[p.a] >= Min(cells[p.a] + 1, MAX) && c4[p.b] >= Min(cells[p.b] + 1, MAX);
    assert c4[p.c] >= Min(cells[p.c] + 1, MAX) && c4[p.d] >= Min(cells[p.d] + 1, MAX);
  }

  lemma BumpGrows(cells: seq<nat>, i: nat)
    requires i < |cells|
    ensures forall j :: 0 <= j < |cells| ==> cells[j] <= Bump(cells, i)[j]
    ensures Bump(cells, i)[i] >= Min(cells[i] + 1, MAX)
  {
  }

  lemma EstimateMonotone(cells: seq<nat>, more: seq<nat>, p: Probe)
    requires In(p, |cells|) && |more| == |cells| && forall i :: 0 <= i < |cells| ==> cells[i] <= more[i]
    ensures Estimate(cells, p) <= Estimate(more, p)
  {
  }

  lemma EstimateHalved(cells: seq<nat>, p: Probe)
    requires In(p, |cells|)
    ensures Estimate(Halved(cells), p) == Estimate(cells, p) / 2
  {
  }

  lemma IncrementKeeps(s: State, threshold: nat, p: Probe, q: Probe, n: nat)
    requires In(p, |s.cells|) && In(q, |s.cells|) && n <= Estimate(s.cells, q) && n <= MAX
    ensures var counted := if p == q && n < MAX then n + 1 else n;
      Estimate(Increment(s, p, threshold).cells, q) >= if Ages(s, threshold) then counted / 2 else counted
  {
    hide BumpAll, Estimate;
    BumpAllGrows(s.cells, p);
    EstimateMonotone(s.cells, BumpAll(s.cells, p), q);
    EstimateHalved(s.cells, q);
    EstimateHalved(BumpAll(s.cells, p), q);
  }

  /** After any sequence of uses and resets, a key's estimate is at least its own count,
      whatever keys and hashes collide. */
  lemma {:induction false} EstimateCoversUses(
    probe: nat -> Probe, size: nat, threshold: nat, events: seq<Event>, k: nat)
    requires forall k :: In(probe(k), size)
    ensures Estimate(After(probe, size, threshold, events).cells, probe(k)) >= Uses(threshold, events, k)
    decreases |events|
  {
    hide Estimate, Increment;
    if events == [] {
      ZeroEstimate(size, probe(k));
    } else {
      var n := |events| - 1;
      var s, uses := After(probe, size, threshold, events[..n]), Uses(threshold, events[..n], k);
      EstimateCoversUses(probe, size, threshold, events[..n], k);
      TotalIsSinceAging(probe, size, threshold, events[..n]);
      match events[n]
      case Use(j) => IncrementKeeps(s, threshold, probe(j), probe(k), uses);
      case Reset => EstimateHalved(s.cells, probe(k));
    }
  }

  function Times(p: Probe, i: nat): (n: nat) {
    (if p.a == i then 1 else 0) + (if p.b == i then 1 else 0)
    + (if p.c == i then 1 else 0) + if p.d == i then 1 else 0
  }

  /** Counter `i` is one of the key's, once, and of no other key counted. */
  ghost predicate Private(probe: nat -> Probe, events: seq<Event>, k: nat, i: nat) {
    && Times(probe(k), i) == 1
    && forall j :: 0 <= j < |events| && events[j].Use? && events[j].k != k ==> Times(probe(events[j].k), i) == 0
  }

  /** Counting changes the key's counters alone, a counter hit once by at most one. */
  lemma BumpAllAt(cells: seq<nat>, p: Probe, i: nat)
    requires In(p, |cells|) && i < |cells| && cells[i] <= MAX
    ensures Times(p, i) == 0 ==> BumpAll(cells, p)[i] == cells[i]
    ensures Times(p, i) == 1 ==> BumpAll(cells, p)[i] == Min(cells[i] + 1, MAX)
  {
  }

  lemma IncrementAt(s: State, p: Probe, threshold: nat, i: nat, n: nat)
    requires In(p, |s.cells|) && i < |s.cells| && s.cells[i] <= n <= MAX && Times(p, i) <= 1
    ensures var counted := if Times(p, i) == 1 && n < MAX then n + 1 else n;
      Increment(s, p, threshold).cells[i] <= if Ages(s, threshold) then counted / 2 else counted
  {
    hide BumpAll, Estimate, Times;
    BumpAllAt(s.cells, p, i);
  }

  lemma {:induction false} PrivateCovered(
    probe: nat -> Probe, size: nat, threshold: nat, events: seq<Event>, k: nat, i: nat)
    requires (forall k :: In(probe(k), size)) && i < size && Private(probe, events, k, i)
    ensures After(probe, size, threshold, events).cells[i] <= Uses(threshold, events, k)
    decreases |events|
  {
    hide Increment, Times;
    if events != [] {
      var n := |events| - 1;
      assert forall j :: 0 <= j < n ==> events[..n][j] == events[j];
      PrivateCovered(probe, size, threshold, events[..n], k, i);
      TotalIsSinceAging(probe, size, threshold, events[..n]);
      if events[n].Use? {
        IncrementAt(After(probe, size, threshold, events[..n]), probe(events[n].k), threshold, i,
          Uses(threshold, events[..n], k));
      }
    }
  }

  /** If one counter of a key is its own, the key's estimate is its exact count. */
  lemma EstimateExactIfPrivate(
    probe: nat -> Probe, size: nat, threshold: nat, events: seq<Event>, k: nat, i: nat)
    requires (forall k :: In(probe(k), size)) && i < size && Private(probe, events, k, i)
    ensures Estimate(After(probe, size, threshold, events).cells, probe(k)) == Uses(threshold, events, k)
  {
    EstimateCoversUses(probe, size, threshold, events, k);
    PrivateCovered(probe, size, threshold, events, k, i);
    OneOfFour(After(probe, size, threshold, events).cells, probe(k), i);
  }

  lemma OneOfFour(cells: seq<nat>, p: Probe, i: nat)
    requires In(p, |cells|) && i < |cells| && Times(p, i) >= 1
    ensures Estimate(cells, p) <= cells[i]
  {
  }

  lemma ZeroEstimate(size: nat, p: Probe)
    requires In(p, size)
    ensures Estimate(seq(size, i => 0), p) >= 0
  {
  }

  /** Runs events on a new packed sketch: what it holds is what the run describes. */
  method Track(size: nat, probe: nat -> Probe, events: seq<Event>) returns (s: Sketch)
    requires (size <= 16 || size % 16 == 0) && forall k :: In(probe(k), size)
    ensures fresh(s) && s.Valid() && s.threshold == size * 10 && size <= |s.View().cells|
    ensures forall k :: In(probe(k), |s.View().cells|)
    ensures s.View() == After(probe, |s.View().cells|, s.threshold, events)
  {
    hide Cells, Increment, Halved;
    s := new Sketch(size);
    ghost var n := |s.View().cells|;
    forall k
      ensures In(probe(k), n)
    {
      assert In(probe(k), size);
    }
    for i := 0 to |events|
      invariant fresh(s) && fresh(s.counters) && s.Valid() && s.size == size && s.threshold == size * 10
      invariant size <= n == |s.View().cells| && s.View() == After(probe, n, s.threshold, events[..i])
    {
      assert events[..i + 1][..i] == events[..i];
      if events[i].Use? {
        var _ := s.Record(probe(events[i].k));
      } else {
        s.Age();
      }
    }
    assert events[..|events|] == events;
  }
}
