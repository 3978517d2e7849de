/** Weighted rendezvous hashing: a key's owners are the `rf` nodes with the largest
    product of score and weight, ties broken by ID. The score of a node, a hash of the
    key and the node's salt, is a parameter. */
module Rendezvous {
  import opened Wrappers

  const WORD := 0x1_0000_0000_0000_0000

  datatype Meta = Meta(id: string, weight: nat)

  type Score = Meta -> nat

  // ---------------------------------------------------------------- the ranking

  /** Byte-wise string order. */
  predicate IdLess(a: string, b: string) {
    if b == "" then false
    else if a == "" then true
    else a[0] < b[0] || (a[0] == b[0] && IdLess(a[1..], b[1..]))
  }

  function Product(score: Score, n: Meta): (p: nat) { score(n) * n.weight }

  /** The intended order: larger product first, then smaller ID. */
  predicate Before(score: Score, a: Meta, b: Meta) {
    || Product(score, a) > Product(score, b)
    || (Product(score, a) == Product(score, b) && IdLess(a.id, b.id))
  }

  /** A product as its high and low 64-bit words. */
  function Mul64(a: nat, b: nat): (w: (nat, nat)) { (a * b / WORD, a * b % WORD) }

  datatype Slot = Slot(hi: nat, lo: nat, n: Meta)

  function SlotOf(score: Score, n: Meta): (s: Slot) {
    var (hi, lo) := Mul64(score(n), n.weight);
    Slot(hi, lo, n)
  }

  predicate Worse(a: Slot, b: Slot) {
    if a.hi != b.hi then a.hi < b.hi
    else if a.lo != b.lo then a.lo < b.lo
    else IdLess(b.n.id, a.n.id)
  }

  /** Comparing the two words in turn is comparing the full products. */
  lemma WorseIsAfter(score: Score, a: Meta, b: Meta)
    ensures Worse(SlotOf(score, a), SlotOf(score, b)) <==> Before(score, b, a)
  {
    var p, q := Product(score, a), Product(score, b);
    assert p == WORD * (p / WORD) + p % WORD && q == WORD * (q / WORD) + q % WORD;
  }

  lemma {:induction false} IdLessTotal(a: string, b: string)
    ensures a == b || IdLess(a, b) || IdLess(b, a)
    ensures !(IdLess(a, b) && IdLess(b, a)) && (a == b ==> !IdLess(a, b))
  {
    if a != "" && b != "" && a[0] == b[0] {
      IdLessTotal(a[1..], b[1..]);
      assert a == [a[0]] + a[1..] && b == [b[0]] + b[1..];
    }
  }

  lemma {:induction false} IdLessTransitive(a: string, b: string, c: string)
    requires IdLess(a, b) && IdLess(b, c)
    ensures IdLess(a, c)
  {
    if a != "" && a[0] == b[0] == c[0] {
      IdLessTransitive(a[1..], b[1..], c[1..]);
    }
  }

  /** One ID is smaller than another if it is a proper prefix of it, or has the smaller
      byte where they first differ. */
  lemma {:induction false} IdLessIff(a: string, b: string)
    ensures IdLess(a, b) <==>
      exists i :: 0 <= i <= |a| && i < |b| && a[..i] == b[..i] && (i == |a| || a[i] < b[i])
  {
    if b == "" {
    } else if a == "" || a[0] < b[0] {
      assert a[..0] == b[..0];
    } else if a[0] == b[0] {
      IdLessIff(a[1..], b[1..]);
      var a1, b1 := a[1..], b[1..];
      if IdLess(a1, b1) {
        var i :| 0 <= i <= |a1| && i < |b1| && a1[..i] == b1[..i] && (i == |a1| || a1[i] < b1[i]);
        assert a[..i + 1] == [a[0]] + a1[..i] && b[..i + 1] == [b[0]] + b1[..i];
      }
      if i :| 0 <= i <= |a| && i < |b| && a[..i] == b[..i] && (i == |a| || a[i] < b[i]) {
        assert i > 0;
        assert a1[..i - 1] == a[..i][1..] && b1[..i - 1] == b[..i][1..];
      }
    } else {
      assert forall i :: 0 < i <= |a| && i < |b| ==> a[..i][0] != b[..i][0];
    }
  }

  lemma BeforeTotal(score: Score, a: Meta, b: Meta)
    ensures a.id != b.id ==> Before(score, a, b) || Before(score, b, a)
    ensures !(Before(score, a, b) && Before(score, b, a))
  {
    hide IdLess;
    IdLessTotal(a.id, b.id);
  }

  lemma BeforeTransitive(score: Score, a: Meta, b: Meta, c: Meta)
    requires Before(score, a, b) && Before(score, b, c)
    ensures Before(score, a, c)
  {
    hide IdLess;
    if IdLess(a.id, b.id) && IdLess(b.id, c.id) {
      IdLessTransitive(a.id, b.id, c.id);
    }
  }

  ghost predicate Sorted(score: Score, s: seq<Meta>) {
    forall i, j :: 0 <= i < j < |s| ==> Before(score, s[i], s[j])
  }

  ghost predicate DistinctIds(s: seq<Meta>) {
    forall i, j :: 0 <= i < j < |s| ==> s[i].id != s[j].id
  }

  ghost predicate SameNodes(s: seq<Meta>, t: seq<Meta>) { forall n :: n in s <==> n in t }

  function Insert(score: Score, s: seq<Meta>, n: Meta): (r: seq<Meta>) {
    if s == [] || Before(score, n, s[0]) then [n] + s else [s[0]] + Insert(score, s[1..], n)
  }

  /** All nodes, best first. */
  function Ranked(score: Score, nodes: seq<Meta>): (r: seq<Meta>) {
    if nodes == [] then [] else Insert(score, Ranked(score, nodes[1..]), nodes[0])
  }

  function Owners(score: Score, nodes: seq<Meta>, rf: nat): (r: seq<Meta>)
  {
    var r := Ranked(score, nodes);
    r[..Min(rf, |r|)]
  }

  lemma {:induction false} InsertSorts(score: Score, s: seq<Meta>, n: Meta)
    requires Sorted(score, s) && forall i :: 0 <= i < |s| ==> s[i].id != n.id
    ensures Sorted(score, Insert(score, s, n)) && |Insert(score, s, n)| == |s| + 1
    ensures forall x :: x in Insert(score, s, n) <==> x == n || x in s
  {
    hide Before;
    if s != [] {
      BeforeTotal(score, n, s[0]);
      if Before(score, n, s[0]) {
        forall j | 0 < j < |s|
          ensures Before(score, n, s[j])
        {
          BeforeTransitive(score, n, s[0], s[j]);
        }
      } else {
        InsertSorts(score, s[1..], n);
        var t := Insert(score, s[1..], n);
        forall j | 0 <= j < |t|
          ensures Before(score, s[0], t[j])
        {
          assert t[j] in t;
          if t[j] != n {
            var i :| 0 <= i < |s[1..]| && s[1..][i] == t[j];
          }
        }
      }
    }
  }

  lemma EmptySorted(score: Score)
    ensures Sorted(score, [])
  {
  }

  /** Ranking sorts and neither loses nor invents a node. */
  lemma {:induction false} RankedSorts(score: Score, nodes: seq<Meta>)
    requires DistinctIds(nodes)
    ensures Sorted(score, Ranked(score, nodes)) && |Ranked(score, nodes)| == |nodes|
    ensures SameNodes(Ranked(score, nodes), nodes)
  {
    hide Sorted, Insert;
    EmptySorted(score);
    if nodes != [] {
      RankedSorts(score, nodes[1..]);
      var r := Ranked(score, nodes[1..]);
      forall i | 0 <= i < |r|
        ensures r[i].id != nodes[0].id
      {
        assert r[i] in r;
        var j :| 0 <= j < |nodes[1..]| && nodes[1..][j] == r[i];
        assert nodes[j + 1].id != nodes[0].id;
      }
      InsertSorts(score, r, nodes[0]);
      forall x
        ensures x in nodes <==> x == nodes[0] || x in nodes[1..]
      {
        assert nodes == [nodes[0]] + nodes[1..];
      }
    }
  }

  lemma SortedDistinct(score: Score, s: seq<Meta>, i: nat, j: nat)
    requires Sorted(score, s) && i < j < |s|
    ensures s[i] != s[j]
  {
    BeforeTotal(score, s[i], s[j]);
    IdLessTotal(s[i].id, s[j].id);
  }

  lemma HeadFirst(score: Score, s: seq<Meta>, n: Meta)
    requires Sorted(score, s) && n in s
    ensures n == s[0] || Before(score, s[0], n)
  {
    var i :| 0 <= i < |s| && s[i] == n;
  }

  /** Two sorted lists of the same nodes are equal. */
  lemma {:induction false} SortedUnique(score: Score, s: seq<Meta>, t: seq<Meta>)
    requires Sorted(score, s) && Sorted(score, t) && SameNodes(s, t)
    ensures s == t
  {
    hide Before;
    assert t != [] ==> t[0] in t;
    if s != [] {
      assert s[0] in s && s[0] in t;
      HeadFirst(score, s, t[0]);
      HeadFirst(score, t, s[0]);
      BeforeTotal(score, s[0], t[0]);
      assert s[0] == t[0];
      TailsSame(score, s, t);
      SortedUnique(score, s[1..], t[1..]);
    }
  }

  lemma TailsSame(score: Score, s: seq<Meta>, t: seq<Meta>)
    requires Sorted(score, s) && Sorted(score, t) && SameNodes(s, t) && s != [] && t != [] && s[0] == t[0]
    ensures SameNodes(s[1..], t[1..])
  {
    hide Before;
    TailMembers(score, s);
    TailMembers(score, t);
  }

  lemma TailMembers(score: Score, s: seq<Meta>)
    requires Sorted(score, s) && s != []
    ensures forall n :: n in s[1..] <==> n in s && n != s[0]
  {
    hide Before;
    forall n | n in s[1..]
      ensures n != s[0]
    {
      var i :| 0 <= i < |s[1..]| && s[1..][i] == n;
      SortedDistinct(score, s, 0, i + 1);
    }
    forall n | n in s && n != s[0]
      ensures n in s[1..]
    {
      var i :| 0 <= i < |s| && s[i] == n;
      assert s[1..][i - 1] == n;
    }
  }

  // ---------------------------------------------------------------- who owns a key

  /** The owners are `rf` of the nodes, or all if there are fewer. They come by falling
      product of score and weight, at equal products by rising ID, and no other node
      comes before one of them. */
  lemma OwnersAreTheBest(score: Score, nodes: seq<Meta>, rf: nat)
    requires DistinctIds(nodes)
    ensures var owners := Owners(score, nodes, rf);
      && |owners| == (if rf < |nodes| then rf else |nodes|) && Distinct(owners)
      && (forall x :: x in owners ==> x in nodes)
      && (forall i, j :: 0 <= i < j < |owners| ==>
            var a, b := score(owners[i]) * owners[i].weight, score(owners[j]) * owners[j].weight;
            a > b || (a == b && IdLess(owners[i].id, owners[j].id)))
      && (forall x, y :: x in owners && y in nodes && y !in owners ==>
            var a, b := score(x) * x.weight, score(y) * y.weight;
            a > b || (a == b && IdLess(x.id, y.id)))
  {
    hide Ranked, IdLess;
    RankedSorts(score, nodes);
    var r, owners := Ranked(score, nodes), Owners(score, nodes, rf);
    OwnersDistinct(score, nodes, Min(rf, |r|));
    forall x, y | x in owners && y in nodes && y !in owners
      ensures Before(score, x, y)
    {
      OwnerOutranks(score, nodes, rf, x, y);
    }
    forall x | x in owners
      ensures x in nodes
    {
      assert x in r;
    }
  }

  /** The nodes with a larger product, or an equal one and a smaller ID. */
  ghost function Ahead(score: Score, nodes: seq<Meta>, n: Meta): (r: set<Meta>) {
    set m | m in nodes && var a, b := score(m) * m.weight, score(n) * n.weight;
      a > b || (a == b && IdLess(m.id, n.id))
  }

  lemma AheadIsBefore(score: Score, nodes: seq<Meta>, n: Meta, m: Meta)
    ensures m in Ahead(score, nodes, n) <==> m in nodes && Before(score, m, n)
  {
    hide IdLess;
  }

  lemma AheadOf(score: Score, nodes: seq<Meta>, p: nat)
    requires DistinctIds(nodes) && p < |Ranked(score, nodes)|
    ensures Ahead(score, nodes, Ranked(score, nodes)[p]) == SetOf(Ranked(score, nodes)[..p])
    ensures |Ahead(score, nodes, Ranked(score, nodes)[p])| == p
  {
    hide Before, Ranked, Ahead;
    RankedSorts(score, nodes);
    var r := Ranked(score, nodes);
    forall m
      ensures m in Ahead(score, nodes, r[p]) <==> m in nodes && Before(score, m, r[p])
    {
      AheadIsBefore(score, nodes, r[p], m);
    }
    forall m | m in nodes && Before(score, m, r[p])
      ensures m in r[..p]
    {
      assert m in r;
      var i :| 0 <= i < |r| && r[i] == m;
      BeforeTotal(score, r[i], r[p]);
      assert r[..p][i] == m;
    }
    forall m | m in r[..p]
      ensures m in nodes && Before(score, m, r[p])
    {
      var i :| 0 <= i < p && r[..p][i] == m;
      assert m == r[i] && m in r;
    }
    forall i, j | 0 <= i < j < p
      ensures r[..p][i] != r[..p][j]
    {
      SortedDistinct(score, r, i, j);
    }
    SetOfSize(r[..p]);
  }

  /** A node owns the key if and only if fewer than `rf` nodes are ahead of it. */
  lemma OwnsIffFewAhead(score: Score, nodes: seq<Meta>, rf: nat, n: Meta)
    requires DistinctIds(nodes)
    ensures n in Owners(score, nodes, rf) <==> n in nodes && |Ahead(score, nodes, n)| < rf
  {
    hide Before, Ranked, Ahead;
    RankedSorts(score, nodes);
    var r := Ranked(score, nodes);
    if n in nodes {
      assert n in r;
      var p :| 0 <= p < |r| && r[p] == n;
      AheadOf(score, nodes, p);
      if n in Owners(score, nodes, rf) {
        var i :| 0 <= i < |Owners(score, nodes, rf)| && Owners(score, nodes, rf)[i] == n;
        AheadOf(score, nodes, i);
      }
      assert p < rf ==> Owners(score, nodes, rf)[p] == n;
    }
    assert n in Owners(score, nodes, rf) ==> n in r;
  }

  // ---------------------------------------------------------------- stability of the owners

  /** The owners do not depend on the order in which the ring lists its nodes. */
  lemma OrderDoesNotMatter(score: Score, nodes: seq<Meta>, nodes': seq<Meta>)
    requires DistinctIds(nodes) && DistinctIds(nodes') && SameNodes(nodes, nodes')
    ensures Ranked(score, nodes) == Ranked(score, nodes')
  {
    hide Sorted, Ranked;
    RankedSorts(score, nodes);
    RankedSorts(score, nodes');
    SortedUnique(score, Ranked(score, nodes), Ranked(score, nodes'));
  }

  lemma CutSorted(score: Score, s: seq<Meta>, p: nat)
    requires Sorted(score, s) && p < |s|
    ensures Sorted(score, s[..p] + s[p + 1..])
    ensures forall n :: n in s[..p] + s[p + 1..] <==> n in s && n != s[p]
  {
    hide Before;
    var t := s[..p] + s[p + 1..];
    forall i, j | 0 <= i < j < |t|
      ensures Before(score, t[i], t[j])
    {
      assert t[i] == s[if i < p then i else i + 1] && t[j] == s[if j < p then j else j + 1];
    }
    forall n | n in s && n != s[p]
      ensures n in t
    {
      var i :| 0 <= i < |s| && s[i] == n;
      assert t[if i < p then i else i - 1] == n;
    }
    forall n | n in t
      ensures n in s && n != s[p]
    {
      var i :| 0 <= i < |t| && t[i] == n;
      var q := if i < p then i else i + 1;
      assert t[i] == s[q];
      SortedDistinct(score, s, if q < p then q else p, if q < p then p else q);
    }
  }

  /** Removing the node ranked `p` closes the gap and changes nothing else. */
  lemma RemoveClosesGap(score: Score, nodes: seq<Meta>, rest: seq<Meta>, p: nat)
    requires DistinctIds(nodes) && DistinctIds(rest) && p < |Ranked(score, nodes)|
    requires forall n :: n in rest <==> n in nodes && n != Ranked(score, nodes)[p]
    ensures Ranked(score, rest) == Ranked(score, nodes)[..p] + Ranked(score, nodes)[p + 1..]
  {
    hide Sorted, Ranked;
    var r := Ranked(score, nodes);
    RankedSorts(score, nodes);
    RankedSorts(score, rest);
    CutSorted(score, r, p);
    SortedUnique(score, Ranked(score, rest), r[..p] + r[p + 1..]);
  }

  lemma CutThenTake(r: seq<Meta>, p: nat, k: nat)
    requires p < |r|
    ensures var cut, head := r[..p] + r[p + 1..], r[..Min(k, |r|)];
      cut[..Min(k, |r| - 1)] == if p >= k then head else head[..p] + head[p + 1..] + if k < |r| then [r[k]] else []
  {
  }

  /** Removing a node that is no owner changes no owner; removing an owner keeps the
      others in order and lets the next ranked node in at the end. Read backwards: a
      new node displaces at most the last owner. */
  lemma OwnersAfterRemoval(score: Score, nodes: seq<Meta>, rest: seq<Meta>, rf: nat, p: nat)
    requires DistinctIds(nodes) && DistinctIds(rest) && p < |Ranked(score, nodes)|
    requires forall n :: n in rest <==> n in nodes && n != Ranked(score, nodes)[p]
    ensures p >= rf ==> Owners(score, rest, rf) == Owners(score, nodes, rf)
    ensures var owners, r := Owners(score, nodes, rf), Ranked(score, nodes);
      p < rf ==> Owners(score, rest, rf) == owners[..p] + owners[p + 1..] + if rf < |r| then [r[rf]] else []
  {
    hide Ranked;
    RemoveClosesGap(score, nodes, rest, p);
    CutThenTake(Ranked(score, nodes), p, rf);
  }

  /** The owners head every longer list of candidates. */
  lemma OwnersArePrefix(score: Score, nodes: seq<Meta>, rf: nat, n: nat)
    requires rf <= n
    ensures Owners(score, nodes, rf) <= Owners(score, nodes, n)
  {
    hide Ranked;
  }

  // ---------------------------------------------------------------- the one-pass scan

  /** `best` are some of the first `n` nodes, and each outranks every other one. */
  ghost predicate Top(score: Score, nodes: seq<Meta>, n: nat, best: seq<Meta>)
    requires n <= |nodes|
  {
    && Distinct(best)
    && (forall i :: 0 <= i < |best| ==> best[i] in nodes[..n])
    && (forall i, j :: 0 <= i < n && nodes[i] !in best && 0 <= j < |best| ==> Before(score, best[j], nodes[i]))
  }

  /** `best[worst]` ranks last of `best`. */
  ghost predicate Last(score: Score, best: seq<Meta>, worst: nat) {
    worst < |best| && forall j :: 0 <= j < |best| && j != worst ==> Before(score, best[j], best[worst])
  }

  lemma NewNode(nodes: seq<Meta>, n: nat, best: seq<Meta>)
    requires DistinctIds(nodes) && n < |nodes| && forall i :: 0 <= i < |best| ==> best[i] in nodes[..n]
    ensures nodes[n] !in best && forall i :: 0 <= i < |best| ==> best[i].id != nodes[n].id
  {
    forall i | 0 <= i < |best|
      ensures best[i].id != nodes[n].id
    {
      var j :| 0 <= j < |nodes[..n]| && nodes[..n][j] == best[i];
    }
  }

  lemma TopAppends(score: Score, nodes: seq<Meta>, n: nat, best: seq<Meta>)
    requires DistinctIds(nodes) && n < |nodes| && Top(score, nodes, n, best) && |best| == n
    ensures Top(score, nodes, n + 1, best + [nodes[n]])
  {
    hide Before;
    NewNode(nodes, n, best);
    AllKept(nodes, n, best);
    var best' := best + [nodes[n]];
    forall i | 0 <= i < |best'|
      ensures best'[i] in nodes[..n + 1]
    {
      assert nodes[..n + 1] == nodes[..n] + [nodes[n]];
    }
    forall i | 0 <= i < n + 1
      ensures nodes[i] in best'
    {
      assert best'[n] == nodes[n];
      if i < n {
        var k :| 0 <= k < |best| && best[k] == nodes[i];
        assert best'[k] == nodes[i];
      }
    }
  }

  /** Of two sets of one size, neither is a proper part of the other. */
  lemma Swapped(a: set<Meta>, b: set<Meta>, x: Meta) returns (y: Meta)
    requires |a| == |b| && x in a && x !in b
    ensures y in b && y !in a
  {
    if b <= a {
      SubsetSize(b, a - {x});
      assert false;
    }
    y :| y in b && y !in a;
  }

  lemma AllKept(nodes: seq<Meta>, n: nat, best: seq<Meta>)
    requires DistinctIds(nodes) && n <= |nodes| && |best| == n
    requires Distinct(best)
    requires forall i :: 0 <= i < |best| ==> best[i] in nodes[..n]
    ensures forall i :: 0 <= i < n ==> nodes[i] in best
  {
    SetOfSize(best);
    SetOfSize(nodes[..n]);
    forall i | 0 <= i < n
      ensures nodes[i] in best
    {
      if nodes[i] !in best {
        assert nodes[..n][i] == nodes[i];
        var y := Swapped(SetOf(nodes[..n]), SetOf(best), nodes[i]);
        assert false;
      }
    }
  }

  lemma TopReplaces(score: Score, nodes: seq<Meta>, n: nat, best: seq<Meta>, worst: nat)
    requires DistinctIds(nodes) && n < |nodes| && Top(score, nodes, n, best) && Last(score, best, worst)
    requires Before(score, nodes[n], best[worst])
    ensures Top(score, nodes, n + 1, best[worst := nodes[n]])
  {
    hide Before;
    NewNode(nodes, n, best);
    var best' := best[worst := nodes[n]];
    assert nodes[..n + 1] == nodes[..n] + [nodes[n]];
    forall i, j | 0 <= i < n + 1 && nodes[i] !in best' && 0 <= j < |best'|
      ensures Before(score, best'[j], nodes[i])
    {
      assert best'[worst] == nodes[n];
      if nodes[i] in best {
        var k :| 0 <= k < |best| && best[k] == nodes[i];
        assert best'[k] != nodes[i];
      } else if j == worst {
        BeforeTransitive(score, nodes[n], best[worst], nodes[i]);
      }
    }
  }

  lemma TopSkips(score: Score, nodes: seq<Meta>, n: nat, best: seq<Meta>, worst: nat)
    requires DistinctIds(nodes) && n < |nodes| && Top(score, nodes, n, best) && Last(score, best, worst)
    requires Before(score, best[worst], nodes[n])
    ensures Top(score, nodes, n + 1, best)
  {
    hide Before;
    assert nodes[..n + 1] == nodes[..n] + [nodes[n]];
    forall j | 0 <= j < |best|
      ensures Before(score, best[j], nodes[n])
    {
      if j != worst {
        BeforeTransitive(score, best[j], best[worst], nodes[n]);
      }
    }
  }

  /** The leading `k` of a ranking and any other top `k` are the same nodes. */
  lemma TopIsOwners(score: Score, nodes: seq<Meta>, best: seq<Meta>, k: nat, x: Meta)
    requires DistinctIds(nodes) && Top(score, nodes, |nodes|, best) && |best| == k <= |nodes|
    ensures x in best <==> x in Owners(score, nodes, k)
  {
    hide Before, Ranked;
    RankedSorts(score, nodes);
    var owners := Owners(score, nodes, k);
    OwnersDistinct(score, nodes, k);
    SetOfSize(best);
    SetOfSize(owners);
    if (x in best) != (x in owners) {
      var y;
      if x in best {
        y := Swapped(SetOf(best), SetOf(owners), x);
        KeptOutranks(score, nodes, best, x, y);
        OwnerOutranks(score, nodes, k, y, x);
      } else {
        y := Swapped(SetOf(owners), SetOf(best), x);
        KeptOutranks(score, nodes, best, y, x);
        OwnerOutranks(score, nodes, k, x, y);
      }
      BeforeTotal(score, x, y);
    }
  }

  lemma OwnersDistinct(score: Score, nodes: seq<Meta>, k: nat)
    requires Sorted(score, Ranked(score, nodes)) && k <= |Ranked(score, nodes)|
    ensures Distinct(Owners(score, nodes, k))
  {
    hide Before;
    forall i, j | 0 <= i < j < k
      ensures Owners(score, nodes, k)[i] != Owners(score, nodes, k)[j]
    {
      SortedDistinct(score, Ranked(score, nodes), i, j);
    }
  }

  lemma KeptOutranks(score: Score, nodes: seq<Meta>, best: seq<Meta>, x: Meta, y: Meta)
    requires Top(score, nodes, |nodes|, best) && x in best && y in nodes && y !in best
    ensures Before(score, x, y)
  {
    hide Before;
    var i :| 0 <= i < |best| && best[i] == x;
    var j :| 0 <= j < |nodes| && nodes[j] == y;
  }

  lemma OwnerOutranks(score: Score, nodes: seq<Meta>, k: nat, x: Meta, y: Meta)
    requires DistinctIds(nodes) && x in Owners(score, nodes, k) && y in nodes && y !in Owners(score, nodes, k)
    ensures Before(score, x, y)
  {
    hide Before, Ranked;
    RankedSorts(score, nodes);
    var r, owners := Ranked(score, nodes), Owners(score, nodes, k);
    var i :| 0 <= i < |owners| && owners[i] == x;
    assert y in r && forall q :: 0 <= q < |owners| ==> owners[q] == r[q];
    var j :| 0 <= j < |r| && r[j] == y;
  }

  /** The index of the worst slot. */
  method FindWorst(score: Score, best: seq<Slot>) returns (worst: nat)
    requires best != [] && (forall i :: 0 <= i < |best| ==> best[i] == SlotOf(score, best[i].n))
    requires forall i, j :: 0 <= i < j < |best| ==> best[i].n.id != best[j].n.id
    ensures Last(score, Nodes(best), worst)
  {
    hide Before, SlotOf, Worse;
    worst := 0;
    for i := 1 to |best|
      invariant worst < i
      invariant forall j :: 0 <= j < i && j != worst ==> Before(score, best[j].n, best[worst].n)
    {
      WorseIsAfter(score, best[i].n, best[worst].n);
      BeforeTotal(score, best[i].n, best[worst].n);
      if Worse(best[i], best[worst]) {
        forall j | 0 <= j < i
          ensures Before(score, best[j].n, best[i].n)
        {
          if j != worst {
            BeforeTransitive(score, best[j].n, best[worst].n, best[i].n);
          }
        }
        worst := i;
      }
    }
  }

  ghost function Nodes(best: seq<Slot>): (r: seq<Meta>)
    ensures |r| == |best| && forall i :: 0 <= i < |best| ==> r[i] == best[i].n
  {
    seq(|best|, i requires 0 <= i < |best| => best[i].n)
  }

  ghost predicate Slotted(score: Score, nodes: seq<Meta>, n: nat, best: seq<Slot>)
    requires n <= |nodes|
  {
    && (forall i :: 0 <= i < |best| ==> best[i] == SlotOf(score, best[i].n))
    && Top(score, nodes, n, Nodes(best))
  }

  lemma SlotIds(score: Score, nodes: seq<Meta>, n: nat, best: seq<Slot>)
    requires DistinctIds(nodes) && n <= |nodes| && Slotted(score, nodes, n, best)
    ensures forall i, j :: 0 <= i < j < |best| ==> best[i].n.id != best[j].n.id
  {
    hide Before;
    var ns := Nodes(best);
    forall i, j | 0 <= i < j < |best|
      ensures best[i].n.id != best[j].n.id
    {
      assert ns[i] in nodes[..n] && ns[j] in nodes[..n] && ns[i] != ns[j];
      var p :| 0 <= p < n && nodes[p] == ns[i];
      var q :| 0 <= q < n && nodes[q] == ns[j];
    }
  }

  /** One node of the scan once the slots are full. */
  method Offer(score: Score, nodes: seq<Meta>, n: nat, best: seq<Slot>, worst: nat)
    returns (best': seq<Slot>, worst': nat)
    requires DistinctIds(nodes) && n < |nodes| && Slotted(score, nodes, n, best) && Last(score, Nodes(best), worst)
    ensures |best'| == |best| && Slotted(score, nodes, n + 1, best') && Last(score, Nodes(best'), worst')
  {
    hide Before, SlotOf, Worse, Top;
    best', worst' := best, worst;
    NewSlot(score, nodes, n, best);
    WorseIsAfter(score, nodes[n], best[worst].n);
    BeforeTotal(score, nodes[n], best[worst].n);
    if !Worse(SlotOf(score, nodes[n]), best[worst]) {
      TopReplaces(score, nodes, n, Nodes(best), worst);
      best' := best[worst := SlotOf(score, nodes[n])];
      SlotNode(score, nodes[n]);
      assert Nodes(best') == Nodes(best)[worst := nodes[n]];
      SlotIds(score, nodes, n + 1, best');
      worst' := FindWorst(score, best');
    } else {
      TopSkips(score, nodes, n, Nodes(best), worst);
    }
  }

  lemma SlotNode(score: Score, n: Meta)
    ensures SlotOf(score, n).n == n
  {
  }

  lemma NewSlot(score: Score, nodes: seq<Meta>, n: nat, best: seq<Slot>)
    requires DistinctIds(nodes) && n < |nodes| && Slotted(score, nodes, n, best)
    ensures forall i :: 0 <= i < |best| ==> best[i].n.id != nodes[n].id
  {
    hide Before;
    NewNode(nodes, n, Nodes(best));
    assert forall i :: 0 <= i < |best| ==> Nodes(best)[i].id != nodes[n].id;
  }

  /** One node of the scan while slots are free. */
  method Fill(score: Score, nodes: seq<Meta>, n: nat, best: seq<Slot>, worst: nat)
    returns (best': seq<Slot>, worst': nat)
    requires DistinctIds(nodes) && n < |nodes| && Slotted(score, nodes, n, best) && |best| == n
    requires n > 0 ==> Last(score, Nodes(best), worst)
    ensures |best'| == n + 1 && Slotted(score, nodes, n + 1, best') && Last(score, Nodes(best'), worst')
  {
    hide Before, SlotOf, Worse, Top;
    SlotNode(score, nodes[n]);
    TopAppends(score, nodes, n, Nodes(best));
    NewSlot(score, nodes, n, best);
    best' := best + [SlotOf(score, nodes[n])];
    worst' := worst;
    assert Nodes(best') == Nodes(best) + [nodes[n]];
    if n > 0 {
      WorseIsAfter(score, nodes[n], best[worst].n);
      BeforeTotal(score, nodes[n], best[worst].n);
    }
    if |best'| == 1 || Worse(best'[|best'| - 1], best'[worst]) {
      worst' := |best'| - 1;
      forall j | 0 <= j < n
        ensures Before(score, best[j].n, nodes[n])
      {
        if j != worst {
          BeforeTransitive(score, best[j].n, best[worst].n, nodes[n]);
        }
      }
    }
  }

  /** The one-pass scan says whether the node is in the sorted owner list. */
  method OwnsHash(score: Score, nodes: seq<Meta>, rf: int, selfId: string) returns (owns: bool)
    requires DistinctIds(nodes)
    ensures owns <==> exists n :: n in Owners(score, nodes, if rf > 0 then rf else 0) && n.id == selfId
    ensures owns <==> exists n :: n in nodes && n.id == selfId && |Ahead(score, nodes, n)| < rf
  {
    hide Ranked, Ahead, Owners;
    owns := Scan(score, nodes, rf, selfId);
    forall n
      ensures n in Owners(score, nodes, if rf > 0 then rf else 0) <==> n in nodes && |Ahead(score, nodes, n)| < rf
    {
      OwnsIffFewAhead(score, nodes, if rf > 0 then rf else 0, n);
    }
  }

  method Scan(score: Score, nodes: seq<Meta>, rf: int, selfId: string) returns (owns: bool)
    requires DistinctIds(nodes)
    ensures owns <==> exists n :: n in Owners(score, nodes, if rf > 0 then rf else 0) && n.id == selfId
  {
    hide Before, SlotOf, Worse, Top, Last, Ranked;
    RankedSorts(score, nodes);
    if |nodes| == 0 || rf <= 0 {
      return false;
    }
    var top := Min(rf, |nodes|);
    var best: seq<Slot> := [];
    var worst := 0;
    NothingYet(score, nodes);
    for i := 0 to |nodes|
      invariant |best| == Min(i, top) && Slotted(score, nodes, i, best) && (i > 0 ==> Last(score, Nodes(best), worst))
    {
      if |best| < top {
        best, worst := Fill(score, nodes, i, best, worst);
      } else {
        best, worst := Offer(score, nodes, i, best, worst);
      }
    }
    owns := false;
    for i := 0 to |best|
      invariant forall j :: 0 <= j < i ==> best[j].n.id != selfId
    {
      if best[i].n.id == selfId {
        assert Nodes(best)[i] == best[i].n;
        TopIsOwners(score, nodes, Nodes(best), top, best[i].n);
        return true;
      }
    }
    forall n | n in Owners(score, nodes, rf)
      ensures n.id != selfId
    {
      TopIsOwners(score, nodes, Nodes(best), top, n);
      var j :| 0 <= j < |Nodes(best)| && Nodes(best)[j] == n;
    }
  }

  lemma NothingYet(score: Score, nodes: seq<Meta>)
    ensures Slotted(score, nodes, 0, [])
  {
  }
}
