/** Paging through one backfill bucket by hash cursor. The donor does not change
    meanwhile; `all` are its keys in the bucket that the joiner owns. */
module Paging {
  import opened Wrappers

  /** A key with its 64-bit hash. */
  datatype Row = Row(h: nat, key: Bytes)

  /** The donor's keys in the bucket that the joiner owns. */
  function Wanted(keys: seq<Row>, wanted: Row -> bool): (all: set<Row>) { set r | r in keys && wanted(r) }

  function Above(all: set<Row>, after: nat): (r: set<Row>) { set x | x in all && x.h > after }

  ghost predicate Ascending(s: seq<Row>) { forall i, j :: 0 <= i < j < |s| ==> s[i].h <= s[j].h }

  /** A page: up to `limit` candidates with the lowest hashes, in hash order. Which of
      several rows with one hash come first is left open. */
  ghost predicate IsPage(candidates: set<Row>, limit: nat, page: seq<Row>) {
    && Distinct(page) && Ascending(page) && |page| == Min(limit, |candidates|)
    && (forall r :: r in page ==> r in candidates)
    && (forall r, i :: r in candidates && r !in page && 0 <= i < |page| ==> page[i].h <= r.h)
  }

  /** `out` is what paging from cursor `after` collects until a page comes back empty. */
  ghost predicate Fetched(all: set<Row>, limit: nat, after: nat, out: seq<Row>)
    decreases |out|
  {
    exists page ::
      && IsPage(Above(all, after), limit, page) && page <= out
      && if page == [] then out == [] else Fetched(all, limit, page[|page| - 1].h, out[|page|..])
  }

  // ---------------------------------------------------------------- the donor's page

  function InsertRow(s: seq<Row>, x: Row): (r: seq<Row>) {
    if s == [] || x.h <= s[0].h then [x] + s else [s[0]] + InsertRow(s[1..], x)
  }

  lemma {:induction false} InsertFacts(s: seq<Row>, x: Row)
    requires Ascending(s) && Distinct(s) && x !in s
    ensures Ascending(InsertRow(s, x)) && Distinct(InsertRow(s, x)) && |InsertRow(s, x)| == |s| + 1
    ensures forall y :: y in InsertRow(s, x) <==> y == x || y in s
  {
    if s != [] && x.h > s[0].h {
      InsertFacts(s[1..], x);
      var t := InsertRow(s[1..], x);
      forall j | 0 <= j < |t|
        ensures s[0].h <= t[j].h && s[0] != t[j]
      {
        assert t[j] in t;
        if t[j] != x {
          var i :| 0 <= i < |s[1..]| && s[1..][i] == t[j];
        }
      }
    }
  }

  /** Collects the candidates, sorts them by hash and cuts the page. */
  method BackfillKeys(keys: seq<Row>, wanted: Row -> bool, after: nat, limit: int) returns (page: seq<Row>)
    requires Distinct(keys)
    ensures IsPage(Above(Wanted(keys, wanted), after), if 1 <= limit <= 4096 then limit else 1024, page)
    ensures page == [] <==> forall r :: r in keys && wanted(r) ==> r.h <= after
  {
    var rows: seq<Row> := [];
    for i := 0 to |keys|
      invariant Distinct(rows) && Ascending(rows)
      invariant forall r :: r in rows <==> r in keys[..i] && wanted(r) && r.h > after
    {
      assert keys[..i + 1] == keys[..i] + [keys[i]];
      if wanted(keys[i]) && keys[i].h > after {
        InsertFacts(rows, keys[i]);
        rows := InsertRow(rows, keys[i]);
      }
    }
    assert keys[..|keys|] == keys;
    page := rows;
    if |rows| > Limit(limit) {
      page := rows[..Limit(limit)];
    }
    CutIsPage(Above(Wanted(keys, wanted), after), rows, Limit(limit));
    assert rows != [] ==> rows[0] in rows;
  }

  /** A page holds as many rows as asked for, up to 4096, and 1024 if that makes no sense. */
  function Limit(requested: int): (n: nat)
    ensures if 1 <= requested <= 4096 then n == requested else n == 1024
  {
    if requested <= 0 || requested > 4096 then 1024 else requested
  }

  lemma CutIsPage(candidates: set<Row>, rows: seq<Row>, limit: nat)
    requires Distinct(rows) && Ascending(rows) && forall r :: r in rows <==> r in candidates
    ensures IsPage(candidates, limit, rows[..Min(limit, |rows|)])
  {
    SetOfSize(rows);
    assert candidates == SetOf(rows);
    var page := rows[..Min(limit, |rows|)];
    forall r, i | r in candidates && r !in page && 0 <= i < |page|
      ensures page[i].h <= r.h
    {
      var j :| 0 <= j < |rows| && rows[j] == r;
      assert forall q :: 0 <= q < |page| ==> page[q] == rows[q];
    }
  }

  // ---------------------------------------------------------------- the joiner's loop

  /** Pages until a page is empty. */
  method FetchBucket(keys: seq<Row>, wanted: Row -> bool, limit: int) returns (out: seq<Row>)
    requires Distinct(keys)
    ensures Fetched(Wanted(keys, wanted), Limit(limit), 0, out)
  {
    ghost var all := Wanted(keys, wanted);
    out := [];
    ghost var pages: seq<seq<Row>> := [];
    var cursor := 0;
    while true
      invariant Paged(all, Limit(limit), pages, cursor) && out == Joined(pages)
      decreases |Above(all, cursor)|
    {
      var page := BackfillKeys(keys, wanted, cursor, limit);
      if |page| == 0 {
        Prepend(all, Limit(limit), cursor, page, []);
        PagedFetched(all, Limit(limit), pages, cursor, page + []);
        assert out + (page + []) == out;
        return;
      }
      LastHash(all, cursor, Limit(limit), page);
      out := out + page;
      pages := pages + [page];
      assert pages[..|pages| - 1] + [page] == pages;
      cursor := page[|page| - 1].h;
    }
  }

  function Joined(pages: seq<seq<Row>>): (out: seq<Row>) {
    if pages == [] then [] else Joined(pages[..|pages| - 1]) + pages[|pages| - 1]
  }

  /** These pages lead from cursor 0 to `cursor`. */
  ghost predicate Paged(all: set<Row>, limit: nat, pages: seq<seq<Row>>, cursor: nat) {
    if pages == [] then cursor == 0
    else
      var page := pages[|pages| - 1];
      && page != [] && cursor == page[|page| - 1].h
      && exists before :: Paged(all, limit, pages[..|pages| - 1], before) && IsPage(Above(all, before), limit, page)
  }

  /** Pages so far, and what is fetched from the cursor on, make up a whole fetch. */
  lemma {:induction false} PagedFetched(all: set<Row>, limit: nat, pages: seq<seq<Row>>, cursor: nat, rest: seq<Row>)
    requires Paged(all, limit, pages, cursor) && Fetched(all, limit, cursor, rest)
    ensures Fetched(all, limit, 0, Joined(pages) + rest)
    decreases |pages|
  {
    hide IsPage, Fetched;
    if pages == [] {
      assert Joined(pages) + rest == rest;
    } else {
      var n := |pages| - 1;
      var last := pages[n];
      var before :| Paged(all, limit, pages[..n], before) && IsPage(Above(all, before), limit, last);
      Prepend(all, limit, before, last, rest);
      PagedFetched(all, limit, pages[..n], before, last + rest);
      assert Joined(pages[..n]) + (last + rest) == Joined(pages) + rest;
    }
  }

  /** A page that is not empty moves the cursor past a candidate. */
  lemma LastHash(all: set<Row>, after: nat, limit: nat, page: seq<Row>)
    requires IsPage(Above(all, after), limit, page) && page != []
    ensures page[|page| - 1].h > after && |Above(all, page[|page| - 1].h)| < |Above(all, after)|
  {
    var last := page[|page| - 1];
    assert last in page;
    SubsetSize(Above(all, last.h), Above(all, after) - {last});
  }

  // ---------------------------------------------------------------- what paging collects

  ghost predicate DistinctHashes(all: set<Row>) { forall a, b :: a in all && b in all && a.h == b.h ==> a == b }

  lemma FirstPage(all: set<Row>, limit: nat, after: nat, out: seq<Row>) returns (page: seq<Row>)
    requires Fetched(all, limit, after, out)
    ensures IsPage(Above(all, after), limit, page) && page <= out && page + out[|page|..] == out
    ensures if page == [] then out == [] else Fetched(all, limit, page[|page| - 1].h, out[|page|..])
  {
    hide IsPage;
    page :| IsPage(Above(all, after), limit, page) && page <= out
      && if page == [] then out == [] else Fetched(all, limit, page[|page| - 1].h, out[|page|..]);
  }

  lemma Prepend(all: set<Row>, limit: nat, after: nat, page: seq<Row>, rest: seq<Row>)
    requires IsPage(Above(all, after), limit, page)
    requires if page == [] then rest == [] else Fetched(all, limit, page[|page| - 1].h, rest)
    ensures Fetched(all, limit, after, page + rest)
  {
    hide IsPage;
    assert (page + rest)[|page|..] == rest && page <= page + rest;
  }

  /** For any donor and limit: ascending, each row once, and only rows past the cursor. */
  lemma {:induction false} FetchedInOrder(all: set<Row>, limit: nat, after: nat, out: seq<Row>)
    requires Fetched(all, limit, after, out)
    ensures Ascending(out) && Distinct(out) && forall r :: r in out ==> r in all && r.h > after
    decreases |out|
  {
    hide IsPage, Fetched;
    var page := FirstPage(all, limit, after, out);
    if page != [] {
      FetchedInOrder(all, limit, page[|page| - 1].h, out[|page|..]);
      PageThenRest(all, after, limit, page, out[|page|..]);
    }
  }

  lemma PageThenRest(all: set<Row>, after: nat, limit: nat, page: seq<Row>, rest: seq<Row>)
    requires IsPage(Above(all, after), limit, page) && page != [] && Ascending(rest) && Distinct(rest)
    requires forall r :: r in rest ==> r in all && r.h > page[|page| - 1].h
    ensures Ascending(page + rest) && Distinct(page + rest)
    ensures forall r :: r in page + rest ==> r in all && r.h > after
  {
    var out := page + rest;
    forall i, j | 0 <= i < j < |out|
      ensures out[i].h <= out[j].h && out[i] != out[j]
    {
      if i < |page| <= j {
        assert out[j] == rest[j - |page|] && rest[j - |page|] in rest;
      }
    }
    assert page[|page| - 1] in page;
    forall r | r in out
      ensures r in all && r.h > after
    {
      assert r in page || r in rest;
    }
  }

  /** A key whose hash is zero is never sent. */
  lemma ZeroHashIsSkipped(all: set<Row>, limit: nat, out: seq<Row>, r: Row)
    requires Fetched(all, limit, 0, out) && r.h == 0
    ensures r !in out
  {
    FetchedInOrder(all, limit, 0, out);
  }

  ghost predicate Complete(all: set<Row>, out: seq<Row>) { forall r :: r in all ==> r in out }

  ghost predicate NonZero(all: set<Row>) { forall r :: r in all ==> r.h != 0 }

  function Lower(all: set<Row>, h: nat): (r: set<Row>) { set x | x in all && x.h < h }

  function NotAbove(all: set<Row>, h: nat): (r: set<Row>) { set x | x in all && x.h <= h }

  /** How many rows have a smaller hash, and how many a hash that is not larger. */
  function Below(all: set<Row>, h: nat): (n: nat) { |Lower(all, h)| }

  function UpTo(all: set<Row>, h: nat): (n: nat) { |NotAbove(all, h)| }

  /** In hash order no page boundary falls between rows with one hash: the first and the
      last of them are on the same page. */
  ghost predicate Unsplit(all: set<Row>, limit: nat)
    requires limit >= 1
  {
    forall r :: r in all ==> Below(all, r.h) / limit == (UpTo(all, r.h) - 1) / limit
  }

  lemma Quotient(a: int, limit: nat, q: int)
    requires limit >= 1 && limit * q <= a < limit * q + limit
    ensures a / limit == q
  {
    var d := a / limit;
    assert a == limit * d + a % limit;
    assert d < q ==> limit * (d + 1) <= limit * q;
    assert d > q ==> limit * (q + 1) <= limit * d;
  }

  lemma NextPage(a: int, limit: nat)
    requires limit >= 1
    ensures (a + limit) / limit == a / limit + 1
  {
    assert a == limit * (a / limit) + a % limit;
    assert limit * (a / limit + 1) == limit * (a / limit) + limit;
    Quotient(a + limit, limit, a / limit + 1);
  }

  lemma SumSize(a: set<Row>, b: set<Row>)
    requires forall x :: x in a ==> x !in b
    ensures |a + b| == |a| + |b|
  {
    assert a !! b;
  }

  lemma Counts(all: set<Row>, r: Row)
    requires r in all
    ensures Below(all, r.h) < UpTo(all, r.h) <= |all|
  {
    SubsetSize(Lower(all, r.h), NotAbove(all, r.h) - {r});
    SubsetSize(NotAbove(all, r.h), all);
  }

  /** Past hash `h`, counts are those among the later rows plus the rows up to `h`. */
  lemma CountsPast(all: set<Row>, h: nat, r: Row)
    requires r in Above(all, h)
    ensures Below(all, r.h) == UpTo(all, h) + Below(Above(all, h), r.h)
    ensures UpTo(all, r.h) == UpTo(all, h) + UpTo(Above(all, h), r.h)
  {
    SumSize(NotAbove(all, h), Lower(Above(all, h), r.h));
    assert Lower(all, r.h) == NotAbove(all, h) + Lower(Above(all, h), r.h);
    SumSize(NotAbove(all, h), NotAbove(Above(all, h), r.h));
    assert NotAbove(all, r.h) == NotAbove(all, h) + NotAbove(Above(all, h), r.h);
  }

  /** A page is part of the rows up to its last hash, and holds all rows before that hash. */
  lemma PageCounts(rows: set<Row>, limit: nat, page: seq<Row>)
    requires IsPage(rows, limit, page) && page != []
    ensures var h := page[|page| - 1].h;
      && SetOf(page) <= NotAbove(rows, h) && |page| <= UpTo(rows, h) <= |rows| && Below(rows, h) < |page|
      && (UpTo(rows, h) == |page| ==> SetOf(page) == NotAbove(rows, h))
  {
    var last := page[|page| - 1];
    SetOfSize(page);
    assert last in page;
    forall r | r in page
      ensures r in NotAbove(rows, last.h)
    {
      var i :| 0 <= i < |page| && page[i] == r;
    }
    SubsetSize(SetOf(page), NotAbove(rows, last.h));
    SubsetSize(NotAbove(rows, last.h), rows);
    assert Lower(rows, last.h) <= SetOf(page) - {last};
    SubsetSize(Lower(rows, last.h), SetOf(page) - {last});
    if UpTo(rows, last.h) == |page| {
      SameSize(SetOf(page), NotAbove(rows, last.h));
    }
  }

  lemma SameSize(a: set<Row>, b: set<Row>)
    requires a <= b && |a| == |b|
    ensures a == b
  {
    if x :| x in b && x !in a {
      SubsetSize(a, b - {x});
    }
  }

  /** Nothing is lost at the end of a page exactly when it ends with its last hash. */
  lemma CompleteSplits(rows: set<Row>, limit: nat, page: seq<Row>, rest: seq<Row>)
    requires IsPage(rows, limit, page) && page != [] && forall r :: r in rest ==> r.h > page[|page| - 1].h
    ensures var h := page[|page| - 1].h;
      Complete(rows, page + rest) <==> UpTo(rows, h) == |page| && Complete(Above(rows, h), rest)
  {
    var h := page[|page| - 1].h;
    PageCounts(rows, limit, page);
    SetOfSize(page);
    assert forall r :: r in page + rest <==> r in page || r in rest;
    if Complete(rows, page + rest) {
      assert NotAbove(rows, h) <= SetOf(page);
      SubsetSize(NotAbove(rows, h), SetOf(page));
      assert forall r :: r in page ==> r in NotAbove(rows, h);
    }
    if UpTo(rows, h) == |page| && Complete(Above(rows, h), rest) {
      forall r | r in rows
        ensures r in page + rest
      {
        assert r in NotAbove(rows, h) || r in Above(rows, h);
      }
    }
  }

  lemma PastIsNextPage(rows: set<Row>, limit: nat, h: nat, r: Row)
    requires limit >= 1 && UpTo(rows, h) == limit && r in Above(rows, h)
    ensures Below(rows, r.h) / limit == Below(Above(rows, h), r.h) / limit + 1
    ensures (UpTo(rows, r.h) - 1) / limit == (UpTo(Above(rows, h), r.h) - 1) / limit + 1
  {
    hide Below, UpTo;
    CountsPast(rows, h, r);
    NextPage(Below(Above(rows, h), r.h), limit);
    NextPage(UpTo(Above(rows, h), r.h) - 1, limit);
  }

  lemma UnsplitPast(rows: set<Row>, limit: nat, h: nat)
    requires limit >= 1 && UpTo(rows, h) == limit
    ensures Unsplit(rows, limit) <==> Unsplit(Above(rows, h), limit)
  {
    hide Below, UpTo;
    forall r | r in Above(rows, h)
      ensures Below(rows, r.h) / limit == (UpTo(rows, r.h) - 1) / limit
         <==> Below(Above(rows, h), r.h) / limit == (UpTo(Above(rows, h), r.h) - 1) / limit
    {
      PastIsNextPage(rows, limit, h, r);
    }
    forall r | r in rows && r !in Above(rows, h)
      ensures Below(rows, r.h) / limit == (UpTo(rows, r.h) - 1) / limit
    {
      OnFirstPage(rows, limit, h, r);
    }
  }

  lemma OnFirstPage(rows: set<Row>, limit: nat, h: nat, r: Row)
    requires limit >= 1 && UpTo(rows, h) <= limit && r in rows && r.h <= h
    ensures Below(rows, r.h) / limit == 0 == (UpTo(rows, r.h) - 1) / limit
  {
    Counts(rows, r);
    SubsetSize(NotAbove(rows, r.h), NotAbove(rows, h));
    Quotient(Below(rows, r.h), limit, 0);
    Quotient(UpTo(rows, r.h) - 1, limit, 0);
  }

  lemma UnsplitSplits(rows: set<Row>, limit: nat, page: seq<Row>)
    requires IsPage(rows, limit, page) && page != [] && limit >= 1
    ensures var h := page[|page| - 1].h;
      Unsplit(rows, limit) <==> UpTo(rows, h) == |page| && Unsplit(Above(rows, h), limit)
  {
    hide IsPage, Unsplit;
    var last := page[|page| - 1];
    PageCounts(rows, limit, page);
    PageSize(rows, limit, page);
    if UpTo(rows, last.h) > |page| {
      SplitAt(rows, limit, last);
    } else if |page| == limit {
      UnsplitPast(rows, limit, last.h);
    } else {
      LastPage(rows, limit, last.h);
    }
  }

  lemma PageSize(rows: set<Row>, limit: nat, page: seq<Row>)
    requires IsPage(rows, limit, page) && page != []
    ensures |page| == Min(limit, |rows|) && page[|page| - 1] in rows
  {
    assert page[|page| - 1] in page;
  }

  lemma SplitAt(rows: set<Row>, limit: nat, r: Row)
    requires limit >= 1 && r in rows && Below(rows, r.h) < limit < UpTo(rows, r.h)
    ensures !Unsplit(rows, limit)
  {
    hide Below, UpTo;
    Quotient(Below(rows, r.h), limit, 0);
    PastFirstPage(UpTo(rows, r.h) - 1, limit);
  }

  lemma PastFirstPage(n: nat, limit: nat)
    requires 1 <= limit <= n
    ensures n / limit >= 1
  {
    NextPage(n - limit, limit);
    assert (n - limit) / limit >= 0;
  }

  lemma LastPage(rows: set<Row>, limit: nat, h: nat)
    requires limit >= 1 && UpTo(rows, h) == |rows| <= limit
    ensures Unsplit(rows, limit) && Unsplit(Above(rows, h), limit)
  {
    SameSize(NotAbove(rows, h), rows);
    forall r | r in rows
      ensures Below(rows, r.h) / limit == (UpTo(rows, r.h) - 1) / limit
    {
      OnFirstPage(rows, limit, h, r);
    }
  }

  /** From any cursor, the rows past it are all collected exactly when none of their hash
      groups is split between pages. */
  lemma {:induction false} FetchedCompleteIff(all: set<Row>, limit: nat, after: nat, out: seq<Row>)
    requires Fetched(all, limit, after, out) && limit >= 1
    ensures Complete(Above(all, after), out) <==> Unsplit(Above(all, after), limit)
    decreases |out|
  {
    hide IsPage, Fetched, Complete, Unsplit;
    var rows := Above(all, after);
    var page := FirstPage(all, limit, after, out);
    if page == [] {
      NothingLeft(rows, limit, page, out);
    } else {
      var h, rest := page[|page| - 1].h, out[|page|..];
      FetchedCompleteIff(all, limit, h, rest);
      FetchedInOrder(all, limit, h, rest);
      LastHash(all, after, limit, page);
      assert Above(rows, h) == Above(all, h);
      CompleteSplits(rows, limit, page, rest);
      UnsplitSplits(rows, limit, page);
    }
  }

  lemma NothingLeft(rows: set<Row>, limit: nat, page: seq<Row>, out: seq<Row>)
    requires IsPage(rows, limit, page) && page == [] && limit >= 1
    ensures Complete(rows, out) && Unsplit(rows, limit)
  {
    assert rows == {};
  }

  /** For every page limit, paging a bucket sends all its keys if and only if no hash is
      zero and no group of keys with one hash is split between two pages. */
  lemma PagingCompleteIff(all: set<Row>, limit: nat, out: seq<Row>)
    requires Fetched(all, limit, 0, out) && limit >= 1
    ensures Complete(all, out) <==> NonZero(all) && Unsplit(all, limit)
  {
    hide IsPage, Fetched, Unsplit;
    FetchedInOrder(all, limit, 0, out);
    FetchedCompleteIff(all, limit, 0, out);
    if NonZero(all) {
      assert Above(all, 0) == all;
    }
  }

  /** No group is split if every key has a hash of its own. */
  lemma DistinctUnsplit(all: set<Row>, limit: nat)
    requires limit >= 1 && DistinctHashes(all)
    ensures Unsplit(all, limit)
  {
    forall r | r in all
      ensures Below(all, r.h) == UpTo(all, r.h) - 1
    {
      assert NotAbove(all, r.h) == Lower(all, r.h) + {r};
    }
  }

  lemma OneEach(all: set<Row>, r: Row)
    requires Unsplit(all, 1) && r in all
    ensures Below(all, r.h) == UpTo(all, r.h) - 1
  {
    hide Below, UpTo;
    assert Below(all, r.h) / 1 == (UpTo(all, r.h) - 1) / 1;
  }

  /** Paging one key at a time splits every other group. */
  lemma SinglesUnsplit(all: set<Row>, a: Row, b: Row)
    requires Unsplit(all, 1) && a in all && b in all && a.h == b.h
    ensures a == b
  {
    hide Unsplit;
    OneEach(all, a);
    if a != b {
      SumSize(Lower(all, a.h), {a, b});
      SubsetSize(Lower(all, a.h) + {a, b}, NotAbove(all, a.h));
    }
  }

  /** With distinct hashes, nothing past the cursor is left out, whatever the limit. */
  lemma FetchedIsComplete(all: set<Row>, limit: nat, after: nat, out: seq<Row>, r: Row)
    requires Fetched(all, limit, after, out) && limit >= 1 && DistinctHashes(all) && r in all && r.h > after
    ensures r in out
  {
    hide Fetched, Unsplit;
    FetchedCompleteIff(all, limit, after, out);
    DistinctUnsplit(Above(all, after), limit);
    assert r in Above(all, after);
  }

  /** So paging one key at a time is complete exactly when hashes are distinct and
      non-zero, which is also enough for every other limit. */
  lemma SinglesCompleteIff(all: set<Row>, out: seq<Row>)
    requires Fetched(all, 1, 0, out)
    ensures Complete(all, out) <==> DistinctHashes(all) && NonZero(all)
  {
    hide Fetched, Unsplit;
    PagingCompleteIff(all, 1, out);
    if DistinctHashes(all) {
      DistinctUnsplit(all, 1);
    } else if Unsplit(all, 1) {
      forall a, b | a in all && b in all && a.h == b.h
        ensures a == b
      {
        SinglesUnsplit(all, a, b);
      }
    }
  }

  /** Two keys with one hash on one page are both sent, so distinct hashes are not
      needed in general. */
  lemma TieOnOnePage(a: Row, b: Row, out: seq<Row>)
    requires a != b && a.h == b.h != 0 && Fetched({a, b}, 2, 0, out)
    ensures Complete({a, b}, out) && !DistinctHashes({a, b})
  {
    hide Fetched;
    var all := {a, b};
    PagingCompleteIff(all, 2, out);
    assert NotAbove(all, a.h) == all && Lower(all, a.h) == {};
  }

  /** Split between two pages, one of them is lost. */
  lemma TieSplitLosesKey(a: Row, b: Row, out: seq<Row>)
    requires a != b && a.h == b.h && Fetched({a, b}, 1, 0, out)
    ensures !Complete({a, b}, out)
  {
    hide Fetched;
    SinglesCompleteIff({a, b}, out);
  }
}
