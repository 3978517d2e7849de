/** URL paths as lists of segments: trimming slashes, splitting and dropping empty
    segments yields the maximal runs of characters other than the slash. */
module Paths {
  const SLASH := '/'

  /** The characters before the first slash. */
  function Head(s: string): (h: string)
    ensures |h| <= |s| && h == s[..|h|] && SLASH !in h && (|h| < |s| ==> s[|h|] == SLASH)
  {
    if s == "" || s[0] == SLASH then "" else [s[0]] + Head(s[1..])
  }

  /** The segments of a path: its maximal runs without a slash. */
  function Segments(s: string): (r: seq<string>)
    decreases |s|
  {
    if s == "" then []
    else if s[0] == SLASH then Segments(s[1..])
    else
      assert Head(s) != "";
      [Head(s)] + Segments(s[|Head(s)|..])
  }

  function TrimLeft(s: string): (r: string) {
    if s != "" && s[0] == SLASH then TrimLeft(s[1..]) else s
  }

  function TrimRight(s: string): (r: string) {
    if s != "" && s[|s| - 1] == SLASH then TrimRight(s[..|s| - 1]) else s
  }

  function Split(s: string): (r: seq<string>)
    decreases |s|
  {
    if |Head(s)| == |s| then [s] else [Head(s)] + Split(s[|Head(s)| + 1..])
  }

  function NonEmpty(parts: seq<string>): (r: seq<string>) {
    if parts == [] then []
    else NonEmpty(parts[..|parts| - 1]) + if parts[|parts| - 1] == "" then [] else [parts[|parts| - 1]]
  }

  method NormalizePath(path: string) returns (r: seq<string>)
    ensures r == Segments(path)
  {
    var p := if path == "" then "/" else path;
    var trimmed := TrimRight(TrimLeft(p));
    TrimKeeps(p);
    EmptyPath();
    if trimmed == "" {
      return [];
    }
    var segments := Split(trimmed);
    r := [];
    for i := 0 to |segments|
      invariant r == NonEmpty(segments[..i])
    {
      assert segments[..i + 1][..i] == segments[..i];
      if segments[i] != "" {
        r := r + [segments[i]];
      }
    }
    assert segments[..|segments|] == segments;
    SplitRuns(trimmed);
  }

  lemma EmptyPath()
    ensures Segments("/") == Segments("") == []
  {
    assert "/"[1..] == "";
  }

  lemma {:induction false} NonEmptyFirst(h: string, parts: seq<string>)
    ensures NonEmpty([h] + parts) == (if h == "" then [] else [h]) + NonEmpty(parts)
    decreases |parts|
  {
    var all := [h] + parts;
    if parts == [] {
      assert all[..0] == [] && all == [h];
    } else {
      var n := |parts| - 1;
      NonEmptyFirst(h, parts[..n]);
      assert all[..|all| - 1] == [h] + parts[..n];
    }
  }

  lemma NoParts()
    ensures NonEmpty([]) == []
  {
  }

  /** Splitting at slashes and dropping empty parts leaves the runs. */
  lemma {:induction false} SplitRuns(s: string)
    ensures NonEmpty(Split(s)) == Segments(s)
    decreases |s|
  {
    hide NonEmpty;
    var h := Head(s);
    if |h| == |s| {
      NonEmptyFirst(s, []);
      NoParts();
      assert [s] + [] == [s];
      if s != "" {
        assert h == s && s[|h|..] == "";
      }
    } else {
      var rest := s[|h| + 1..];
      SplitRuns(rest);
      NonEmptyFirst(h, Split(rest));
      SlashSkipped(s[|h|..]);
      assert s[|h|..][1..] == rest;
      if h == "" {
        assert s[|h|..] == s;
      }
    }
  }

  lemma SlashSkipped(s: string)
    requires s != "" && s[0] == SLASH
    ensures Segments(s) == Segments(s[1..])
  {
  }

  lemma {:induction false} TrailingSlash(s: string)
    ensures Segments(s + "/") == Segments(s)
    decreases |s|
  {
    var t := s + "/";
    if s == "" {
      assert t == "/";
      EmptyPath();
    } else if s[0] == SLASH {
      assert t[1..] == s[1..] + "/";
      TrailingSlash(s[1..]);
    } else {
      HeadStops(s);
      assert t[|Head(s)|..] == s[|Head(s)|..] + "/";
      TrailingSlash(s[|Head(s)|..]);
    }
  }

  lemma {:induction false} HeadStops(s: string)
    ensures Head(s + "/") == Head(s) && (s != "" && s[0] != SLASH ==> Head(s) != "")
  {
    if s != "" && s[0] != SLASH {
      HeadStops(s[1..]);
      assert (s + "/")[1..] == s[1..] + "/";
    }
  }

  /** Slashes at either end do not matter. */
  lemma TrimKeeps(s: string)
    ensures Segments(TrimRight(TrimLeft(s))) == Segments(s)
  {
    TrimLeftKeeps(s);
    TrimRightKeeps(TrimLeft(s));
  }

  lemma {:induction false} TrimLeftKeeps(s: string)
    ensures Segments(TrimLeft(s)) == Segments(s)
  {
    if s != "" && s[0] == SLASH {
      TrimLeftKeeps(s[1..]);
    }
  }

  lemma {:induction false} TrimRightKeeps(s: string)
    ensures Segments(TrimRight(s)) == Segments(s)
  {
    if s != "" && s[|s| - 1] == SLASH {
      TrimRightKeeps(s[..|s| - 1]);
      TrailingSlash(s[..|s| - 1]);
      assert s == s[..|s| - 1] + "/";
    }
  }

  /** A part without a slash is one segment, and a slash separates what is before it from
      what is after it, however many slashes there are: this is all there is to it. */
  lemma {:induction false} SlashSeparates(a: string, b: string)
    ensures Segments(a + "/" + b) == Segments(a) + Segments(b)
    ensures a != "" && '/' !in a ==> Segments(a) == [a]
    decreases |a|
  {
    var s := a + "/" + b;
    if a == "" {
      assert s[1..] == b;
    } else if a[0] == SLASH {
      assert s[1..] == a[1..] + "/" + b;
      SlashSeparates(a[1..], b);
    } else {
      HeadUpTo(a, b);
      HeadStops(a);
      var n := |Head(a)|;
      assert s[n..] == a[n..] + "/" + b;
      SlashSeparates(a[n..], b);
      if '/' !in a {
        assert n == |a| && a[n..] == "";
      }
    }
  }

  lemma {:induction false} HeadUpTo(a: string, b: string)
    ensures Head(a + "/" + b) == Head(a)
  {
    if a == "" || a[0] == SLASH {
      assert (a + "/" + b)[0] == SLASH;
    } else {
      assert (a + "/" + b)[1..] == a[1..] + "/" + b;
      HeadUpTo(a[1..], b);
    }
  }

  /** Segments as one path again. */
  function Join(parts: seq<string>): (s: string) {
    if parts == [] then "" else "/" + parts[0] + Join(parts[1..])
  }

  ghost predicate Proper(parts: seq<string>) { forall i :: 0 <= i < |parts| ==> parts[i] != "" && SLASH !in parts[i] }

  lemma {:induction false} HeadIs(h: string, s: string)
    requires SLASH !in h && (s == "" || s[0] == SLASH)
    ensures Head(h + s) == h
  {
    if h == "" {
      assert h + s == s;
    } else {
      assert (h + s)[1..] == h[1..] + s && h == [h[0]] + h[1..];
      HeadIs(h[1..], s);
    }
  }

  /** Proper segments survive being joined and normalized. */
  lemma {:induction false} JoinRoundTrip(parts: seq<string>)
    requires Proper(parts)
    ensures Segments(Join(parts)) == parts
  {
    if parts != [] {
      var h, rest := parts[0], Join(parts[1..]);
      JoinRoundTrip(parts[1..]);
      assert Join(parts) == "/" + (h + rest);
      SlashSkipped(Join(parts));
      assert Join(parts)[1..] == h + rest;
      HeadIs(h, rest);
      assert (h + rest)[|h|..] == rest;
      assert parts == [h] + parts[1..];
    }
  }

  /** And whatever is normalized is proper, so normalizing twice changes nothing. */
  lemma {:induction false} SegmentsProper(s: string)
    ensures Proper(Segments(s))
    decreases |s|
  {
    if s != "" {
      if s[0] == SLASH {
        SegmentsProper(s[1..]);
      } else {
        HeadStops(s);
        SegmentsProper(s[|Head(s)|..]);
      }
    }
  }
}
