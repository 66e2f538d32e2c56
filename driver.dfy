/** `matching`: link the snapshots, aggregate the links into temporal
    communities and return the communities as a list. */
module Driver {
  import opened Communities
  import opened Scoring
  import opened Matcher
  import opened Aggregation

  /** `list(d.values())`: one entry per key, in some order of the keys. */
  method ValuesOf(groups: Groups) returns (values: seq<set<Node>>, ghost keys: seq<Node>)
    ensures |keys| == |values| == |groups|
    ensures forall i :: 0 <= i < |keys| ==> keys[i] in groups && values[i] == groups[keys[i]]
    ensures forall x :: x in groups ==> x in keys
    ensures forall i, j :: 0 <= i < j < |keys| ==> keys[i] != keys[j]
    ensures forall v :: v in values <==> v in groups.Values
  {
    values, keys := [], [];
    var todo := groups.Keys;
    while todo != {}
      invariant todo <= groups.Keys
      invariant |keys| == |values| && |keys| + |todo| == |groups|
      invariant forall i :: 0 <= i < |keys| ==> keys[i] in groups && keys[i] !in todo && values[i] == groups[keys[i]]
      invariant forall x :: x in groups ==> x in keys || x in todo
      invariant forall i, j :: 0 <= i < j < |keys| ==> keys[i] != keys[j]
      decreases |todo|
    {
      var k :| k in todo;
      values, keys := values + [groups[k]], keys + [k];
      todo := todo - {k};
    }
    forall v | v in groups.Values
      ensures v in values
    {
      var k :| k in groups && groups[k] == v;
      var i :| 0 <= i < |keys| && keys[i] == k;
      assert values[i] == v;
    }
  }

  /** What `matching` returns, as a set of temporal communities. */
  ghost function MatchingSpec(ts: Timeseries, memory: nat, given: Option<seq<real>>, threshold: real, solve: Solver): set<set<Node>>
    requires (1 <= memory || |ts| <= 1) && WeightsFit(memory, given) && SolverContract(solve)
  {
    var links := MatchSpec(ts, memory, given, threshold, solve);
    GroupsOf(links).Values
  }

  /** `communities` lists the groups of `keys`, each key once. */
  ghost predicate Lists(groups: Groups, communities: seq<set<Node>>, keys: seq<Node>) {
    && |keys| == |communities| == |groups|
    && (forall i :: 0 <= i < |keys| ==> keys[i] in groups && communities[i] == groups[keys[i]])
    && (forall x :: x in groups ==> x in keys)
    && (forall i, j :: 0 <= i < j < |keys| ==> keys[i] != keys[j])
  }

  /** The temporal communities of `links`, listed: pairwise disjoint, each of
      at least two communities, together exactly the linked communities. */
  ghost predicate Listing(links: Links, communities: seq<set<Node>>)
    requires Backward(links)
  {
    && (forall c :: c in communities <==> c in GroupsOf(links).Values)
    && |communities| == |GroupsOf(links)|
    && (forall i, j :: 0 <= i < j < |communities| ==> communities[i] * communities[j] == {})
    && (forall i :: 0 <= i < |communities| ==> |communities[i]| >= 2)
    && (forall n :: n in NodesOf(links) <==> exists i :: 0 <= i < |communities| && n in communities[i])
  }

  lemma ListedValues(links: Links, communities: seq<set<Node>>, keys: seq<Node>)
    requires Backward(links) && Lists(GroupsOf(links), communities, keys)
    ensures forall c :: c in communities <==> c in GroupsOf(links).Values
  {
    var g := GroupsOf(links);
    forall c | c in g.Values
      ensures c in communities
    {
      var r :| r in g && g[r] == c;
      var i :| 0 <= i < |keys| && keys[i] == r;
    }
  }

  lemma ListedDisjoint(links: Links, communities: seq<set<Node>>, keys: seq<Node>)
    requires Backward(links) && Lists(GroupsOf(links), communities, keys)
    ensures forall i, j :: 0 <= i < j < |communities| ==> communities[i] * communities[j] == {}
  {
    GroupsMembers(links);
    forall i, j | 0 <= i < j < |communities|
      ensures communities[i] * communities[j] == {}
    {
      assert keys[i] != keys[j];
    }
  }

  lemma ListedCover(links: Links, communities: seq<set<Node>>, keys: seq<Node>)
    requires Backward(links) && Lists(GroupsOf(links), communities, keys)
    ensures forall n :: n in NodesOf(links) <==> exists i :: 0 <= i < |communities| && n in communities[i]
  {
    GroupsMembers(links);
    forall n | n in NodesOf(links)
      ensures exists i :: 0 <= i < |communities| && n in communities[i]
    {
      var r := Root(links, n);
      var i :| 0 <= i < |keys| && keys[i] == r;
      assert n in communities[i];
    }
  }

  lemma ListedSizes(links: Links, communities: seq<set<Node>>, keys: seq<Node>)
    requires Backward(links) && Lists(GroupsOf(links), communities, keys)
    ensures forall i :: 0 <= i < |communities| ==> |communities[i]| >= 2
  {
    GroupsHeads(links);
    forall i | 0 <= i < |communities|
      ensures |communities[i]| >= 2
    {
      assert keys[i] in GroupsOf(links);
    }
  }

  /** Listing the groups of `links` once each yields a listing of its
      temporal communities. */
  lemma ListedGroups(links: Links, communities: seq<set<Node>>, keys: seq<Node>)
    requires Backward(links) && Lists(GroupsOf(links), communities, keys)
    ensures Listing(links, communities)
  {
    ListedValues(links, communities, keys);
    ListedSizes(links, communities, keys);
    ListedDisjoint(links, communities, keys);
    ListedCover(links, communities, keys);
  }

  /** `matching`: the temporal communities found in `ts`, listed once each
      as the groups of the links `match` records. */
  method Matching(ts: Timeseries, memory: nat, memoryWeights: Option<seq<real>>, scoreThreshold: real, solve: Solver)
      returns (communities: seq<set<Node>>)
    requires 1 <= memory || |ts| <= 1
    requires WeightsFit(memory, memoryWeights) && SolverContract(solve)
    ensures forall c :: c in communities <==> c in MatchingSpec(ts, memory, memoryWeights, scoreThreshold, solve)
    ensures Listing(MatchSpec(ts, memory, memoryWeights, scoreThreshold, solve), communities)
  {
    var links := Match(ts, memory, memoryWeights, scoreThreshold, solve);
    var groups := Aggregate(links);
    ghost var keys;
    communities, keys := ValuesOf(groups);
    ListedGroups(links, communities, keys);
  }

  /** `matching(timeseries)` with every keyword left at its default. */
  method MatchingDefaults(ts: Timeseries, solve: Solver) returns (communities: seq<set<Node>>)
    requires SolverContract(solve)
    ensures forall c :: c in communities <==> c in MatchingSpec(ts, DefaultMemory, None, DefaultThreshold, solve)
    ensures Listing(MatchSpec(ts, DefaultMemory, None, DefaultThreshold, solve), communities)
  {
    communities := Matching(ts, DefaultMemory, None, DefaultThreshold, solve);
  }

  /** With fewer than two snapshots nothing is linked and `matching`
      returns no temporal community. */
  lemma ShortSeriesNoCommunities(ts: Timeseries, memory: nat, given: Option<seq<real>>, threshold: real, solve: Solver)
    requires |ts| <= 1 && WeightsFit(memory, given) && SolverContract(solve)
    ensures MatchSpec(ts, memory, given, threshold, solve) == map[]
    ensures MatchingSpec(ts, memory, given, threshold, solve) == {}
  {
    assert GroupsOf(map[]) == map[];
  }

  /** A community that no link leaves or reaches belongs to no temporal
      community. */
  lemma UnlinkedInNone(ts: Timeseries, memory: nat, given: Option<seq<real>>, threshold: real, solve: Solver, n: Node)
    requires (1 <= memory || |ts| <= 1) && WeightsFit(memory, given) && SolverContract(solve)
    requires n !in NodesOf(MatchSpec(ts, memory, given, threshold, solve))
    ensures forall c :: c in MatchingSpec(ts, memory, given, threshold, solve) ==> n !in c
  {
    GroupsMembers(MatchSpec(ts, memory, given, threshold, solve));
  }
}
