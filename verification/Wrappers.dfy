/** Types, sequence functions and set facts shared by several modules. */
module Wrappers {
  datatype Option<T> = None | Some(value: T)

  /** What a cache maps, and to what. */
  type Key(==, !new)
  type Value(0, !new)

  newtype byte = x: int | 0 <= x < 256
  type Bytes = seq<byte>

  function Min(a: int, b: int): (m: int) { if a <= b then a else b }

  ghost predicate Distinct<T>(s: seq<T>) {
    forall i, j :: 0 <= i < j < |s| ==> s[i] != s[j]
  }

  /** The sequence without its element at `k`. */
  function Cut<T>(s: seq<T>, k: nat): (r: seq<T>)
    requires k < |s|
    ensures |r| == |s| - 1 && forall i :: 0 <= i < |r| ==> r[i] == s[if i < k then i else i + 1]
  {
    s[..k] + s[k + 1..]
  }

  /** Cutting an element out of distinct ones leaves exactly the others, once each. */
  lemma CutMembers<T>(s: seq<T>, k: nat)
    requires k < |s| && Distinct(s)
    ensures Distinct(Cut(s, k)) && forall x :: x in Cut(s, k) <==> x in s && x != s[k]
  {
    hide Cut;
    forall x | x in s && x != s[k]
      ensures x in Cut(s, k)
    {
      var i :| 0 <= i < |s| && s[i] == x;
      assert Cut(s, k)[if i < k then i else i - 1] == x;
    }
  }

  /** Putting a new element in the place of one keeps exactly the others. */
  lemma UpdateMembers<T>(s: seq<T>, k: nat, y: T)
    requires k < |s| && Distinct(s) && y !in s
    ensures forall x :: x in s[k := y] <==> x == y || (x in s && x != s[k])
  {
    forall x | x == y || (x in s && x != s[k])
      ensures x in s[k := y]
    {
      assert s[k := y][k] == y;
      if x != y {
        var i :| 0 <= i < |s| && s[i] == x;
        assert s[k := y][i] == x;
      }
    }
  }

  ghost function SetOf<T>(s: seq<T>): (r: set<T>) { set x | x in s }

  lemma {:induction false} SetOfSize<T>(s: seq<T>)
    requires Distinct(s)
    ensures |SetOf(s)| == |s|
  {
    if s != [] {
      var n := |s| - 1;
      SetOfSize(s[..n]);
      assert SetOf(s) == SetOf(s[..n]) + {s[n]};
    }
  }

  lemma {:induction false} SubsetSize<T>(a: set<T>, b: set<T>)
    requires a <= b
    ensures |a| <= |b|
  {
    if a != {} {
      var x :| x in a;
      SubsetSize(a - {x}, b - {x});
    }
  }
}
