/** The trie that maps URL paths to cache keys, and the invalidation built on it. */
module PatternIndexes {
  import opened Paths

  type Path = seq<string>

  function Front(p: Path): (r: Path) { if p == [] then [] else p[..|p| - 1] }

  function Last(p: Path): (s: string) { if p == [] then "" else p[|p| - 1] }

  function Child(p: Path, s: string): (r: Path)
    ensures r != [] && Front(r) == p && Last(r) == s
  {
    p + [s]
  }

  /** What a pattern matches: below its segments if it ends in a star, else exactly. */
  predicate Matches(pattern: string, p: Path) {
    if Wild(pattern) then Segments(pattern[..|pattern| - 1]) <= p else Segments(pattern) == p
  }

  predicate Wild(pattern: string) { pattern != "" && pattern[|pattern| - 1] == '*' }

  /** A pattern with a star at its end matches the paths that begin with what is before the
      star; any other pattern matches its own path only. */
  lemma StarMatches(pattern: string, p: Path)
    ensures Matches(pattern + "*", p) <==> |Segments(pattern)| <= |p| && p[..|Segments(pattern)|] == Segments(pattern)
    ensures pattern == "" || pattern[|pattern| - 1] != '*' ==> (Matches(pattern, p) <==> p == Segments(pattern))
  {
    assert (pattern + "*")[..|pattern|] == pattern;
  }

  class PatternNode {
    var children: map<string, PatternNode>
    var keys: set<string>

    constructor ()
      ensures children == map[] && keys == {}
    {
      children, keys := map[], {};
    }
  }

  /** Every path has a node of its own, and so has every path it extends. */
  ghost predicate Branching(tree: map<Path, PatternNode>) {
    && (forall p, q :: p in tree && q in tree && p != q ==> tree[p] != tree[q])
    && (forall p, s :: Child(p, s) in tree ==> p in tree)
  }

  lemma BranchingGrows(tree: map<Path, PatternNode>, nodes: set<PatternNode>, p: Path, s: string, n: PatternNode)
    requires Branching(tree) && p in tree && n !in nodes && forall q :: q in tree ==> tree[q] in nodes
    ensures Branching(tree[Child(p, s) := n])
  {
    hide Child, Front, Last;
  }

  lemma NoGrandchild(tree: map<Path, PatternNode>, p: Path, s: string)
    requires Branching(tree) && Child(p, s) !in tree
    ensures forall t :: Child(Child(p, s), t) !in tree
  {
    hide Child, Front, Last;
  }

  class PatternIndex {
    var root: PatternNode
    ghost var tree: map<Path, PatternNode>
    ghost var nodes: set<PatternNode>
    ghost var pairs: set<(Path, string)>     // what the index means

    constructor ()
      ensures Valid() && pairs == {} && fresh(nodes)
    {
      var n := new PatternNode();
      root, tree, nodes, pairs := n, map[[] := n], {n}, {};
    }

    /** `tree` gives the node of each path; a node's children are the paths one longer. */
    ghost predicate Shape()
      reads this, nodes`children
    {
      && [] in tree && tree[[]] == root && (forall p :: p in tree ==> tree[p] in nodes)
      && Branching(tree)
      && (forall p, s :: p in tree ==> (s in tree[p].children <==> Child(p, s) in tree))
      && (forall p, s :: p in tree && s in tree[p].children ==> tree[p].children[s] == tree[Child(p, s)])
    }

    ghost predicate Content()
      reads `tree, `nodes, `pairs, nodes`keys
    {
      && (forall p :: p in tree ==> tree[p] in nodes)
      && (forall p, k :: (p, k) in pairs <==> p in tree && k in tree[p].keys)
    }

    ghost predicate Valid()
      reads this, nodes
    {
      Shape() && Content()
    }

    /** The node of a path, if there is one. */
    method FindNode(segments: Path) returns (node: PatternNode?)
      requires Shape()
      ensures node != null <==> segments in tree
      ensures node != null ==> node == tree[segments]
    {
      hide Front, Last;
      node := root;
      for i := 0 to |segments|
        invariant segments[..i] in tree && node == tree[segments[..i]]
      {
        assert Child(segments[..i], segments[i]) == segments[..i + 1];
        if segments[i] !in node.children {
          Unreached(segments, i + 1);
          return null;
        }
        node := node.children[segments[i]];
      }
      assert segments[..|segments|] == segments;
    }

    /** Below a missing path there is nothing. */
    lemma {:induction false} Unreached(p: Path, n: nat)
      requires Shape() && n <= |p| && p[..n] !in tree
      ensures p !in tree
      decreases |p| - n
    {
      hide Front, Last;
      if n == |p| {
        assert p[..n] == p;
      } else {
        assert Child(p[..n], p[n]) == p[..n + 1];
        Unreached(p, n + 1);
      }
    }

    /** Adds the missing child `s` of path `p`. */
    method Grow(ghost p: Path, node: PatternNode, s: string)
      requires Valid() && p in tree && node == tree[p] && s !in node.children
      modifies `tree, `nodes, node`children
      ensures Valid() && tree.Keys == old(tree.Keys) + {Child(p, s)} && fresh(nodes - old(nodes)) && nodes >= old(nodes)
      ensures tree[p] == node && node.children == old(node.children)[s := tree[Child(p, s)]]
    {
      hide Shape, Child, Front, Last;
      NodeOf(p, s);
      var n := new PatternNode();
      Attach(p, node, s, n);
    }

    method Attach(ghost p: Path, node: PatternNode, s: string, n: PatternNode)
      requires Shape() && p in tree && node == tree[p] && s !in node.children && n !in nodes && n.children == map[]
      modifies `tree, `nodes, node`children
      ensures Shape() && tree == old(tree)[Child(p, s) := n] && nodes == old(nodes) + {n}
      ensures node.children == old(node.children)[s := n]
    {
      hide Child, Front, Last, Branching;
      BranchingGrows(tree, nodes, p, s, n);
      NoGrandchild(tree, p, s);
      OwnNode(p);
      node.children := node.children[s := n];
      tree, nodes := tree[Child(p, s) := n], nodes + {n};
    }

    lemma OwnNode(p: Path)
      requires Branching(tree) && p in tree
      ensures forall q :: q in tree && q != p ==> tree[q] != tree[p]
    {
    }

    /** The node of a path, made together with its missing ancestors. */
    method MakeNode(segments: Path) returns (node: PatternNode)
      requires Valid()
      modifies `tree, `nodes, nodes`children
      ensures Valid() && segments in tree && node == tree[segments] && fresh(nodes - old(nodes)) && nodes >= old(nodes)
    {
      hide Shape, Content, Front, Last;
      node := root;
      RootNode();
      for i := 0 to |segments|
        invariant Valid() && segments[..i] in tree && node == tree[segments[..i]]
        invariant fresh(nodes - old(nodes)) && nodes >= old(nodes)
      {
        var s := segments[i];
        assert Child(segments[..i], s) == segments[..i + 1];
        NodeOf(segments[..i], s);
        if s !in node.children {
          Grow(segments[..i], node, s);
          NodeOf(segments[..i], s);
        }
        node := node.children[s];
      }
      assert segments[..|segments|] == segments;
    }

    lemma RootNode()
      requires Shape()
      ensures [] in tree && tree[[]] == root
    {
    }

    lemma NodeOf(p: Path, s: string)
      requires Shape() && p in tree
      ensures tree[p] in nodes && (s in tree[p].children <==> Child(p, s) in tree)
      ensures s in tree[p].children ==> tree[p].children[s] == tree[Child(p, s)]
    {
    }

    method AddKey(path: string, key: string)
      requires Valid()
      modifies this, nodes
      ensures Valid() && pairs == old(pairs) + {(Segments(path), key)} && fresh(nodes - old(nodes))
    {
      var segments := NormalizePath(path);
      var node := MakeNode(segments);
      Put(segments, node, node.keys + {key}, pairs + {(segments, key)});
    }

    /** Replaces the keys of one node. */
    method Put(ghost p: Path, node: PatternNode, keys: set<string>, ghost pairs': set<(Path, string)>)
      requires Valid() && p in tree && node == tree[p]
      requires forall q, k :: (q, k) in pairs' <==> if q == p then k in keys else (q, k) in pairs
      modifies `pairs, node`keys
      ensures Valid() && pairs == pairs'
    {
      hide Child, Front, Last;
      node.keys := keys;
      pairs := pairs';
    }

    method RemoveKey(path: string, key: string)
      requires Valid()
      modifies this, nodes
      ensures Valid() && pairs == old(pairs) - {(Segments(path), key)} && nodes == old(nodes)
    {
      var segments := NormalizePath(path);
      var node := FindNode(segments);
      if node != null {
        Put(segments, node, node.keys - {key}, pairs - {(segments, key)});
      } else {
        assert pairs - {(segments, key)} == pairs;
      }
    }

    method Clear()
      modifies this
      ensures Valid() && pairs == {} && fresh(nodes)
    {
      hide Child, Front, Last;
      var n := new PatternNode();
      root, tree, nodes, pairs := n, map[[] := n], {n}, {};
    }

    /** The paths at or below `p`. */
    ghost function Below(p: Path): (r: set<Path>)
      reads this
    {
      set q | q in tree && p <= q
    }

    lemma BelowChild(p: Path, s: string)
      requires p in tree
      ensures Below(Child(p, s)) < Below(p)
    {
      var c := Child(p, s);
      forall q | q in Below(c)
        ensures q in Below(p)
      {
        assert q[..|p|] == c[..|p|] == p;
      }
      assert p in Below(p) && p !in Below(c);
    }

    /** A path below `p` is `p` itself or below one of its children. */
    lemma BelowCases(p: Path, q: Path)
      requires Shape() && p in tree && q in Below(p) && q != p
      ensures q[|p|] in tree[p].children && q in Below(Child(p, q[|p|]))
    {
      hide Front, Last;
      var c := Child(p, q[|p|]);
      assert c == q[..|p| + 1];
      if c !in tree {
        Unreached(q, |p| + 1);
      }
    }

    /** All keys at a node and below it. */
    method CollectAllKeys(node: PatternNode, ghost p: Path) returns (found: seq<string>)
      requires Valid() && p in tree && node == tree[p]
      ensures forall k :: k in found <==> exists q :: q in Below(p) && (q, k) in pairs
      decreases Below(p)
    {
      hide Shape, Child, Front, Last;
      found := DirectKeys(node);
      var rest := node.children.Keys;
      ghost var seen: set<string> := {};
      while rest != {}
        invariant rest + seen == node.children.Keys
        invariant forall k :: k in found <==> k in node.keys || Among(p, seen, k)
        decreases rest
      {
        var s :| s in rest;
        NodeOf(p, s);
        BelowChild(p, s);
        var more := CollectAllKeys(node.children[s], Child(p, s));
        AmongMore(p, seen, s, found, more);
        found := found + more;
        rest, seen := rest - {s}, seen + {s};
      }
      AllBelow(p, seen);
    }

    /** Some path below one of these children of `p` holds `k`. */
    ghost predicate Among(p: Path, names: set<string>, k: string)
      reads this
    {
      exists s, q :: s in names && q in Below(Child(p, s)) && (q, k) in pairs
    }

    lemma AmongMore(p: Path, seen: set<string>, s: string, found: seq<string>, more: seq<string>)
      requires forall k :: k in more <==> exists q :: q in Below(Child(p, s)) && (q, k) in pairs
      ensures forall k :: k in found + more && k !in found ==> Among(p, seen + {s}, k)
      ensures forall k :: Among(p, seen + {s}, k) <==> Among(p, seen, k) || k in more
    {
      hide Child, Below;
    }

    lemma AllBelow(p: Path, names: set<string>)
      requires Valid() && p in tree && names == tree[p].children.Keys
      ensures forall k :: k in tree[p].keys || Among(p, names, k) <==> exists q :: q in Below(p) && (q, k) in pairs
    {
      hide Child, Front, Last, Shape;
      forall k
        ensures k in tree[p].keys || Among(p, names, k) <==> exists q :: q in Below(p) && (q, k) in pairs
      {
        assert p in Below(p);
        assert k in tree[p].keys <==> (p, k) in pairs;
        if q :| q in Below(p) && (q, k) in pairs && q != p {
          BelowCases(p, q);
          assert q[|p|] in names;
        }
        if Among(p, names, k) {
          var s, q :| s in names && q in Below(Child(p, s)) && (q, k) in pairs;
          BelowChild(p, s);
        }
      }
    }

    method DirectKeys(node: PatternNode) returns (found: seq<string>)
      ensures forall k :: k in found <==> k in node.keys
    {
      found := [];
      var rest := node.keys;
      while rest != {}
        invariant rest <= node.keys && forall k :: k in found <==> k in node.keys && k !in rest
        decreases rest
      {
        var k :| k in rest;
        found := found + [k];
        rest := rest - {k};
      }
    }

    /** Finds exactly the keys whose path the pattern matches. */
    method GetMatchingKeys(pattern: string) returns (found: seq<string>)
      requires Valid()
      ensures forall k :: k in found <==> exists p :: (p, k) in pairs && Matches(pattern, p)
    {
      hide Shape, Child, Front, Last;
      EmptyPath();
      var pat := if pattern == "" then "/" else pattern;
      var wild := pat[|pat| - 1] == '*';
      if wild {
        pat := pat[..|pat| - 1];
      }
      var segments := NormalizePath(pat);
      var node := FindNode(segments);
      if node == null {
        found := [];
        forall p | Matches(pattern, p) && p in tree
          ensures false
        {
          assert p[..|segments|] == segments;
          Unreached(p, |segments|);
        }
      } else if wild {
        found := CollectAllKeys(node, segments);
        assert forall k, q :: (q, k) in pairs ==> q in tree;
      } else {
        found := DirectKeys(node);
      }
    }
  }

  /** The parts of the HTTP middleware that keep the index in step with the cache. The
      cache is the set of keys it holds; which keys it evicts or refuses is left open. */
  class HttpCache {
    var cached: set<string>
    const index: PatternIndex
    const extract: string -> string

    constructor (extract: string -> string)
      ensures Valid() && cached == {} && this.extract == extract && fresh(index) && fresh(index.nodes)
    {
      this.extract := extract;
      cached := {};
      index := new PatternIndex();
    }

    /** Keys with a path are indexed under it, and nothing is indexed elsewhere. */
    ghost predicate Covered(cached: set<string>, pairs: set<(Path, string)>) {
      && (forall k :: k in cached && extract(k) != "" ==> (Segments(extract(k)), k) in pairs)
      && (forall p, k :: (p, k) in pairs ==> extract(k) != "" && p == Segments(extract(k)))
    }

    ghost predicate Valid()
      reads this, index, index.nodes
    {
      index.Valid() && Covered(cached, index.pairs)
    }

    /** Caches a response; the cache may evict others or refuse the key. */
    method Store(key: string, admitted: bool, evicted: set<string>)
      requires Valid()
      modifies `cached, index, index.nodes
      ensures Valid() && cached == old(cached) - evicted + if admitted then {key} else {}
      ensures fresh(index.nodes - old(index.nodes))
    {
      hide PatternIndex.Valid;
      cached := cached - evicted + if admitted then {key} else {};
      var path := extract(key);
      if path != "" {
        index.AddKey(path, key);
      }
    }

    /** Eviction, expiry or deletion of keys, none of which tells the index. */
    method Lose(keys: set<string>)
      requires Valid()
      modifies `cached
      ensures Valid() && cached == old(cached) - keys
    {
      cached := cached - keys;
    }

    method Clear()
      requires Valid()
      modifies `cached, index
      ensures Valid() && cached == {} && fresh(index.nodes)
    {
      cached := {};
      index.Clear();
    }

    predicate Hit(pattern: string, k: string) {
      extract(k) != "" && Matches(pattern, Segments(extract(k)))
    }

    /** Deletes one found key. */
    method Drop(key: string) returns (deleted: bool)
      requires Valid()
      modifies `cached, index, index.nodes
      ensures Valid() && cached == old(cached) - {key} && (deleted <==> key in old(cached))
      ensures index.nodes == old(index.nodes)
    {
      hide PatternIndex.Valid;
      deleted := key in cached;
      if deleted {
        cached := cached - {key};
        var path := extract(key);
        if path != "" {
          index.RemoveKey(path, key);
        }
      }
    }

    /** Afterwards no cached key with a path matches the pattern, every other key is
        still cached, and the answer is the number of keys that went. */
    method Invalidate(pattern: string) returns (removed: nat)
      requires Valid()
      modifies `cached, index, index.nodes
      ensures Valid() && cached == (set k | k in old(cached) && !Hit(pattern, k))
      ensures removed == |old(cached)| - |cached| && index.nodes == old(index.nodes)
    {
      hide PatternIndex.Valid;
      var found := index.GetMatchingKeys(pattern);
      FoundAreHits(pattern, found);
      removed := 0;
      ghost var before := cached;
      for i := 0 to |found|
        invariant Valid() && index.nodes == old(index.nodes)
        invariant cached == (set k | k in before && k !in found[..i]) && removed == |before| - |cached|
      {
        assert found[..i + 1] == found[..i] + [found[i]];
        var deleted := Drop(found[i]);
        if deleted {
          removed := removed + 1;
        }
      }
      assert found[..|found|] == found;
    }

    lemma FoundAreHits(pattern: string, found: seq<string>)
      requires Covered(cached, index.pairs)
      requires forall k :: k in found <==> exists p :: (p, k) in index.pairs && Matches(pattern, p)
      ensures forall k :: k in cached ==> (k in found <==> Hit(pattern, k))
    {
      hide Matches;
      forall k | k in cached
        ensures k in found <==> Hit(pattern, k)
      {
        if Hit(pattern, k) {
          assert (Segments(extract(k)), k) in index.pairs;
        }
      }
    }
  }
}
