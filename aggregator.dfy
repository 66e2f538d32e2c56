/** The aggregator: follow every backward link to the oldest node of its
    chain and group the nodes by that node. */
module Aggregation {
  import opened Communities

  /** Temporal communities: the oldest node of a chain to the nodes of the
      chain (a `defaultdict(set)`). */
  type Groups = map<Node, set<Node>>

  /** The node a chain of links ends at: follow links until a node has
      none. */
  ghost function Root(links: Links, n: Node): (r: Node)
    requires Backward(links)
    ensures r !in links && r.t <= n.t
    ensures n !in links ==> r == n
    decreases n.t
  {
    if n in links then Root(links, links[n]) else n
  }

  /** The nodes on the chain from `n` to its root, both included. */
  ghost function Path(links: Links, n: Node): (p: set<Node>)
    requires Backward(links)
    ensures n in p
    decreases n.t
  {
    if n in links then {n} + Path(links, links[n]) else {n}
  }

  /** A chain ends at its root, and every node on it has the same root. */
  lemma {:induction false} PathRoot(links: Links, n: Node)
    requires Backward(links)
    ensures Root(links, n) in Path(links, n)
    ensures forall x :: x in Path(links, n) ==> Root(links, x) == Root(links, n)
    decreases n.t
  {
    if n in links {
      PathRoot(links, links[n]);
    }
  }

  /** Every node that leaves or receives a link. */
  ghost function NodesOf(links: Links): set<Node> {
    links.Keys + links.Values
  }

  /** The roots of the chains that start at `keys`. */
  ghost function RootsOf(links: Links, keys: set<Node>): set<Node>
    requires Backward(links)
  {
    set k | k in keys :: Root(links, k)
  }

  /** The nodes of `nodes` whose root is `r`. */
  ghost function GroupWithin(links: Links, nodes: set<Node>, r: Node): set<Node>
    requires Backward(links)
  {
    set n | n in nodes && Root(links, n) == r
  }

  /** What `aggregate_temporal_communities` returns: every root of a chain
      to the nodes whose chain ends at it. */
  ghost function GroupsOf(links: Links): Groups
    requires Backward(links)
  {
    map r | r in RootsOf(links, links.Keys) :: GroupWithin(links, NodesOf(links), r)
  }

  /** The nodes on the chains of the keys `done`. */
  ghost function Covered(links: Links, done: set<Node>): set<Node>
    requires Backward(links)
  {
    set k, n | k in done && n in Path(links, k) :: n
  }

  /** The groups once the keys `done` have been processed. */
  ghost function Partial(links: Links, done: set<Node>): Groups
    requires Backward(links)
  {
    map r | r in RootsOf(links, done) :: GroupWithin(links, Covered(links, done), r)
  }

  /** The path of a key lies among the nodes of the links. */
  lemma {:induction false} PathInNodes(links: Links, n: Node)
    requires Backward(links) && n in NodesOf(links)
    ensures Path(links, n) <= NodesOf(links)
    decreases n.t
  {
    if n in links {
      assert links[n] in links.Values;
      PathInNodes(links, links[n]);
    }
  }

  /** Once every key is processed, the partial groups are the groups. */
  lemma PartialComplete(links: Links)
    requires Backward(links)
    ensures Partial(links, links.Keys) == GroupsOf(links)
  {
    var covered := Covered(links, links.Keys);
    forall n | n in covered
      ensures n in NodesOf(links)
    {
      var k :| k in links.Keys && n in Path(links, k);
      PathInNodes(links, k);
    }
    forall n | n in NodesOf(links)
      ensures n in covered
    {
      if n in links {
        assert n in Path(links, n);
      } else {
        var k :| k in links && links[k] == n;
        assert n in Path(links, k);
      }
    }
    assert covered == NodesOf(links);
  }

  lemma CoveredStep(links: Links, done: set<Node>, k: Node)
    requires Backward(links)
    ensures Covered(links, done + {k}) == Covered(links, done) + Path(links, k)
  {
    var a, b := Covered(links, done + {k}), Covered(links, done) + Path(links, k);
    forall n | n in a
      ensures n in b
    {
      var k' :| k' in done + {k} && n in Path(links, k');
    }
  }

  lemma CoveredHas(links: Links, done: set<Node>, k: Node)
    requires Backward(links) && k in done
    ensures Path(links, k) <= Covered(links, done)
  {
  }

  lemma GroupWithinUnion(links: Links, a: set<Node>, b: set<Node>, r: Node)
    requires Backward(links)
    ensures GroupWithin(links, a + b, r) == GroupWithin(links, a, r) + GroupWithin(links, b, r)
  {
  }

  /** A chain lies inside the group of its root and of no other. */
  lemma GroupWithinPath(links: Links, k: Node, r: Node)
    requires Backward(links)
    ensures GroupWithin(links, Path(links, k), r) == if r == Root(links, k) then Path(links, k) else {}
  {
    PathRoot(links, k);
  }

  /** No node covered by the keys `done` has a root outside their roots. */
  lemma GroupWithinFresh(links: Links, done: set<Node>, r: Node)
    requires Backward(links) && r !in RootsOf(links, done)
    ensures GroupWithin(links, Covered(links, done), r) == {}
  {
    forall n | n in Covered(links, done)
      ensures Root(links, n) != r
    {
      var k :| k in done && n in Path(links, k);
      PathRoot(links, k);
      assert Root(links, k) in RootsOf(links, done);
    }
  }

  lemma RootsStep(links: Links, done: set<Node>, k: Node)
    requires Backward(links)
    ensures RootsOf(links, done + {k}) == RootsOf(links, done) + {Root(links, k)}
  {
  }

  /** Processing key `k` whose chain walk collected `chain` changes the
      group of `k`'s root only, and only by adding `chain`. */
  lemma PartialStepAt(links: Links, done: set<Node>, k: Node, chain: set<Node>, s: Node)
    requires Backward(links) && k in links && k !in done
    requires chain <= Path(links, k) && Path(links, k) <= chain + Covered(links, done)
    requires s in RootsOf(links, done + {k})
    ensures s != Root(links, k) ==> s in Partial(links, done)
    ensures var before := Partial(links, done);
      Partial(links, done + {k})[s]
        == if s == Root(links, k) then (if s in before then before[s] else {}) + chain else before[s]
  {
    var r := Root(links, k);
    var cov := Covered(links, done);
    RootsStep(links, done, k);
    CoveredStep(links, done, k);
    GroupWithinUnion(links, cov, Path(links, k), s);
    GroupWithinPath(links, k, s);
    assert Partial(links, done + {k})[s] == GroupWithin(links, cov, s) + GroupWithin(links, Path(links, k), s);
    if s == r {
      PathRoot(links, k);
      assert Path(links, k) - chain <= GroupWithin(links, cov, r);
      if r !in RootsOf(links, done) {
        GroupWithinFresh(links, done, r);
      }
    }
  }

  /** Processing key `k` whose chain walk collected `chain`: the group of
      `k`'s root gains `chain`, and nothing else changes. */
  lemma PartialStep(links: Links, done: set<Node>, k: Node, chain: set<Node>)
    requires Backward(links) && k in links && k !in done
    requires chain <= Path(links, k) && Path(links, k) <= chain + Covered(links, done)
    ensures var r, before := Root(links, k), Partial(links, done);
      Partial(links, done + {k})
        == before[r := (if r in before then before[r] else {}) + chain]
  {
    var r := Root(links, k);
    var before, after := Partial(links, done), Partial(links, done + {k});
    var expected := before[r := (if r in before then before[r] else {}) + chain];
    RootsStep(links, done, k);
    forall s | s in after
      ensures s in expected && after[s] == expected[s]
    {
      PartialStepAt(links, done, k, chain, s);
    }
    assert forall s :: s in expected ==> s in after;
  }

  /** The chain walk of one key: follow links from `k` until a node has
      none, or until the walk reaches a key already processed, whose root
      `seen` remembers; `chain` holds the nodes walked, the reached key
      excluded. */
  method WalkChain(links: Links, seen: map<Node, Node>, ghost covered: set<Node>, k: Node)
      returns (root: Node, chain: seq<Node>)
    requires Backward(links) && k in links
    requires forall x :: x in seen ==> seen[x] == Root(links, x) && Path(links, x) <= covered
    ensures root == Root(links, k)
    ensures forall x :: x in chain ==> x in Path(links, k)
    ensures forall x :: x in Path(links, k) ==> x in chain || x in covered
  {
    var v := links[k];
    chain := [k, v];
    ghost var last := v;
    while true
      invariant |chain| >= 2 && chain[0] == k && v == last
      invariant last in chain && Root(links, last) == Root(links, k)
      invariant Path(links, last) <= Path(links, k)
      invariant forall x :: x in chain ==> x in Path(links, k)
      invariant forall x :: x in Path(links, k) ==> x in chain || x in Path(links, last)
      decreases v.t
    {
      if v !in links {
        break;
      }
      v := links[v];
      if v in seen {
        v := seen[v];
        break;
      }
      chain := chain + [v];
      last := v;
    }
    PathRoot(links, last);
    root := v;
  }

  /** One iteration over the keys: walk the chain of `k`, add the walked
      nodes to the group of its root and remember that root in `seen`. */
  method AddChain(links: Links, groups0: Groups, seen0: map<Node, Node>, k: Node)
      returns (groups: Groups, seen: map<Node, Node>)
    requires Backward(links) && k in links && k !in seen0
    requires forall x :: x in seen0 ==> seen0[x] == Root(links, x)
    requires groups0 == Partial(links, seen0.Keys)
    ensures seen == seen0[k := Root(links, k)]
    ensures groups == Partial(links, seen.Keys)
  {
    forall x | x in seen0 {
      CoveredHas(links, seen0.Keys, x);
    }
    var v, chain := WalkChain(links, seen0, Covered(links, seen0.Keys), k);
    PartialStep(links, seen0.Keys, k, set x | x in chain);
    groups := groups0[v := (if v in groups0 then groups0[v] else {}) + set x | x in chain];
    seen := seen0[k := v];
    assert seen.Keys == seen0.Keys + {k};
  }

  /** `aggregate_temporal_communities`: walk the chain of every key and
      add the walked nodes to the group of its root; remember the root of
      every key processed. */
  method Aggregate(links: Links) returns (groups: Groups)
    requires Backward(links)
    ensures groups == GroupsOf(links)
  {
    groups := map[];
    var seen: map<Node, Node> := map[];
    var todo := links.Keys;
    while todo != {}
      invariant todo <= links.Keys && seen.Keys <= links.Keys
      invariant forall x :: x in links ==> (x in todo <==> x !in seen)
      invariant forall x :: x in seen ==> seen[x] == Root(links, x)
      invariant groups == Partial(links, seen.Keys)
      decreases |todo|
    {
      var k :| k in todo;
      groups, seen := AddChain(links, groups, seen, k);
      todo := todo - {k};
    }
    assert seen.Keys == links.Keys;
    PartialComplete(links);
  }

  /** Each group is named after a chain head that belongs to it, and holds
      at least that head and one node linked to it. */
  lemma GroupsHeads(links: Links)
    requires Backward(links)
    ensures var g := GroupsOf(links);
      forall r :: r in g ==> r !in links && r in g[r] && |g[r]| >= 2
  {
    var g := GroupsOf(links);
    forall r | r in g
      ensures r !in links && r in g[r] && |g[r]| >= 2
    {
      var k :| k in links && Root(links, k) == r;
      PathInNodes(links, k);
      PathRoot(links, k);
      assert k in g[r] && r in g[r] && k != r;
      assert {k, r} <= g[r];
      assert |{k, r}| == 2;
      SubsetSize({k, r}, g[r]);
    }
  }

  /** A node is in a group exactly when it is linked and the group is
      named after its root. */
  lemma GroupsMembers(links: Links)
    requires Backward(links)
    ensures var g := GroupsOf(links);
      && (forall n :: n in NodesOf(links) ==> Root(links, n) in g && n in g[Root(links, n)])
      && (forall r, n :: r in g && n in g[r] ==> n in NodesOf(links) && Root(links, n) == r)
  {
    var g := GroupsOf(links);
    forall n | n in NodesOf(links)
      ensures Root(links, n) in g && n in g[Root(links, n)]
    {
      if n in links {
        assert Root(links, n) in RootsOf(links, links.Keys);
      } else {
        var k :| k in links && links[k] == n;
        assert Root(links, k) == Root(links, n);
        assert Root(links, n) in RootsOf(links, links.Keys);
      }
    }
  }

  /** The groups partition the linked nodes by root: each group is named
      after a chain head that is in it, no node is in two groups, every
      linked node is in the group of its root, and a node without links is
      in none. */
  lemma GroupsPartition(links: Links)
    requires Backward(links)
    ensures var g := GroupsOf(links);
      && (forall r :: r in g ==> r !in links && r in g[r] && |g[r]| >= 2)
      && (forall r, s, n :: r in g && s in g && n in g[r] && n in g[s] ==> r == s)
      && (forall n :: n in NodesOf(links) ==> Root(links, n) in g && n in g[Root(links, n)])
      && (forall r, n :: r in g && n in g[r] ==> n in NodesOf(links))
  {
    GroupsHeads(links);
    GroupsMembers(links);
  }

  lemma SubsetSize<T>(a: set<T>, b: set<T>)
    requires a <= b
    ensures |a| <= |b|
  {
    assert b == a + (b - a);
  }

  /** A link never crosses groups: a node and the node it links to share
      their root. */
  lemma LinkedSameGroup(links: Links, n: Node)
    requires Backward(links) && n in links
    ensures Root(links, n) == Root(links, links[n])
    ensures n in GroupsOf(links)[Root(links, n)] && links[n] in GroupsOf(links)[Root(links, n)]
  {
    GroupsMembers(links);
    assert links[n] in NodesOf(links);
  }
}
