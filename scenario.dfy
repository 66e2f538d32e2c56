/** The three-snapshot series of the repository's test script, followed
    through the model: the cost matrices of its two rounds, the links they
    record under a stand-in assignment solver, and the temporal communities
    those links aggregate to. */
module Scenario {
  import opened Communities
  import opened Scoring
  import opened Matcher
  import opened Aggregation
  import opened Driver

  /** The series of the test script: three snapshots of orange, violet,
      green and yellow communities. */
  function TestSeries(): (ts: Timeseries)
    ensures |ts| == 3 && forall t :: 0 <= t < 3 ==> |ts[t]| == 3
  {
    [ [Community("orange", {1, 2, 3}), Community("violet", {4, 5, 6}), Community("green", {7, 8, 9})],
      [Community("violet", {2, 3, 4, 5, 6}), Community("green", {7, 8}), Community("yellow", {9})],
      [Community("orange", {1, 2, 3}), Community("violet", {4, 5, 6, 7}), Community("green", {8, 9})] ]
  }

  /** The labels of the two snapshots the matcher links. */
  lemma TestNames()
    ensures Names(TestSeries()[1]) == ["violet", "green", "yellow"]
    ensures Names(TestSeries()[2]) == ["orange", "violet", "green"]
  {
    var n1, n2 := Names(TestSeries()[1]), Names(TestSeries()[2]);
    assert n1[0] == "violet" && n1[1] == "green" && n1[2] == "yellow";
    assert n2[0] == "orange" && n2[1] == "violet" && n2[2] == "green";
  }

  /** The default kernel for `memory = 2`. */
  lemma TestWeights()
    ensures EffectiveWeights(DefaultMemory, None) == [1.0, 0.5]
  {
    var w := EffectiveWeights(DefaultMemory, None);
    assert w[0] == 1.0 && w[1] == 0.5;
  }

  /** `sc` is round 1, before any link is recorded. The round lemmas take
      their scope through such a predicate rather than as a literal, which
      the verifier would evaluate eagerly. */
  ghost predicate IsRound1(sc: Scope) {
    sc.ts == TestSeries() && sc.links == map[] && sc.i == 1 && sc.memory == 2 && sc.w == [1.0, 0.5]
  }

  /** A round at `i = 1` compares timestep 1 with timestep 0 alone: column
      `o` is community `o` of timestep 0. */
  lemma OneBlockColumns(sc: Scope, o: nat)
    requires ScopeOk(sc) && sc.i == 1
    ensures |RoundNames(sc)| == |sc.ts[0]|
    ensures o < |sc.ts[0]| ==> ColumnOf(sc, 0, o) == o && RoundNames(sc)[o] == Node(0, sc.ts[0][o].name)
  {
    var tsteps := Timesteps(1, Lookback(1, sc.memory));
    assert tsteps == [0] && tsteps[..0] == [];
    if o < |sc.ts[0]| {
      ColumnOfWidth(sc, 0, o);
      RoundColumnName(sc, 0, o);
    }
  }

  /** ... scored from the empty `seen` set. */
  lemma OneBlockCost(sc: Scope, k: nat, o: nat)
    requires ScopeOk(sc) && sc.i == 1 && k < |sc.ts[1]| && o < |sc.ts[0]|
    ensures RoundCosts(sc)[k][o] == Cell(sc, 1, sc.ts[1][k].members, sc.ts[0][o], {}).0
  {
    OneBlockColumns(sc, o);
    RoundColumnCost(sc, k, 0, o);
  }

  /** Round 1's cost of violet 1 -> violet 0: Jaccard index 3/5. */
  lemma Round1VioletCost(sc: Scope)
    requires IsRound1(sc)
    ensures ScopeOk(sc) && |RoundCosts(sc)| == 3 && |RoundCosts(sc)[0]| == 3
    ensures RoundCosts(sc)[0][1] == -(3.0 / 5.0)
  {
    assert ScopeOk(sc);
    OneBlockColumns(sc, 1);
    OneBlockCost(sc, 0, 1);
    assert 4 in sc.ts[1][0].members * sc.ts[0][1].members;
    CellUnlinked(sc, 1, sc.ts[1][0].members, sc.ts[0][1], {}, 1.0);
    TestJaccards();
  }

  /** Round 1's cost of green 1 -> green 0: Jaccard index 2/3. */
  lemma Round1GreenCost(sc: Scope)
    requires IsRound1(sc)
    ensures ScopeOk(sc) && |RoundCosts(sc)| == 3 && |RoundCosts(sc)[1]| == 3
    ensures RoundCosts(sc)[1][2] == -(2.0 / 3.0)
  {
    assert ScopeOk(sc);
    OneBlockColumns(sc, 2);
    OneBlockCost(sc, 1, 2);
    assert 7 in sc.ts[1][1].members * sc.ts[0][2].members;
    CellUnlinked(sc, 1, sc.ts[1][1].members, sc.ts[0][2], {}, 1.0);
    TestJaccards();
  }

  /** Round 1's cost of yellow 1 -> orange 0: no overlap, so 0. */
  lemma Round1YellowCost(sc: Scope)
    requires IsRound1(sc)
    ensures ScopeOk(sc) && |RoundCosts(sc)| == 3 && |RoundCosts(sc)[2]| == 3
    ensures RoundCosts(sc)[2][0] == 0.0
  {
    assert ScopeOk(sc);
    OneBlockColumns(sc, 0);
    OneBlockCost(sc, 2, 0);
    assert sc.ts[1][2].members * sc.ts[0][0].members == {};
  }

  /** A stand-in for `linear_sum_assignment` on the test series: for the
      3 x 3 matrix of round 1 and the 3 x 6 matrix of round 2 it returns the
      pairings a minimum-cost assignment picks there (worked out by hand),
      and nothing for any other shape. */
  function TestSolver(m: Matrix, cols: nat): (pairs: Pairing)
    ensures IsAssignment(pairs, |m|, cols)
  {
    if |m| == 3 && cols == 3 then [(0, 1), (1, 2), (2, 0)]
    else if |m| == 3 && cols == 6 then [(0, 3), (1, 0), (2, 1)]
    else []
  }

  lemma TestSolverContract()
    ensures SolverContract(TestSolver)
  {
    forall m: Matrix, cols: nat
      ensures IsAssignment(TestSolver(m, cols), |m|, cols)
    {
    }
  }

  /** The threshold filter on round 1's pairing, for any matrix holding
      round 1's three paired costs. */
  lemma Round1Accepted(costs: Matrix, names: seq<Node>)
    requires |costs| == 3 && |names| == 3 && forall k :: 0 <= k < 3 ==> |costs[k]| == 3
    requires costs[0][1] == -(3.0 / 5.0) && costs[1][2] == -(2.0 / 3.0) && costs[2][0] == 0.0
    requires names[1] == Node(0, "violet") && names[2] == Node(0, "green")
    ensures PairsFit([(0, 1), (1, 2), (2, 0)], costs, ["violet", "green", "yellow"], names)
    ensures Accepted(1, ["violet", "green", "yellow"], names, costs, DefaultThreshold, [(0, 1), (1, 2), (2, 0)]) == Round1Result()
  {
    var pairs := [(0, 1), (1, 2), (2, 0)];
    assert pairs[..2] == [(0, 1), (1, 2)] && pairs[..2][..1] == [(0, 1)] && [(0, 1)][..0] == [];
  }

  /** Round 1 links violet and green to their namesakes at timestep 0; the
      yellow-orange pair has no overlap and fails the threshold. */
  lemma Round1LinksOf(sc: Scope)
    requires IsRound1(sc)
    ensures ScopeOk(sc) && SolverContract(TestSolver)
    ensures RoundLinks(sc, DefaultThreshold, TestSolver) == Round1Result()
  {
    assert ScopeOk(sc);
    TestSolverContract();
    RoundLinksAccepted(sc, DefaultThreshold, TestSolver);
    var costs, names := RoundCosts(sc), RoundNames(sc);
    assert |names| == 3 && names[1] == Node(0, "violet") && names[2] == Node(0, "green") by {
      OneBlockColumns(sc, 1);
      OneBlockColumns(sc, 2);
    }
    Round1VioletCost(sc);
    Round1GreenCost(sc);
    Round1YellowCost(sc);
    TestNames();
    Round1Accepted(costs, names);
  }

  /** The links round 1 records. */
  function Round1Result(): Links {
    map[Node(1, "violet") := Node(0, "violet"), Node(1, "green") := Node(0, "green")]
  }

  /** `sc` is round 2, after round 1's links. The round-2 lemmas take
      their scope through this predicate rather than as a literal, which
      the verifier would evaluate eagerly. */
  ghost predicate IsRound2(sc: Scope) {
    sc.ts == TestSeries() && sc.links == Round1Result() && sc.i == 2 && sc.memory == 2 && sc.w == [1.0, 0.5]
  }

  lemma Round2Ok(sc: Scope)
    requires IsRound2(sc)
    ensures ScopeOk(sc)
  {
    var ts := sc.ts;
    assert IsNode(ts, Node(1, "violet")) by { assert ts[1][0].name == "violet"; }
    assert IsNode(ts, Node(1, "green")) by { assert ts[1][1].name == "green"; }
    assert IsNode(ts, Node(0, "violet")) by { assert ts[0][1].name == "violet"; }
    assert IsNode(ts, Node(0, "green")) by { assert ts[0][2].name == "green"; }
    assert sc.links.Keys == {Node(1, "violet"), Node(1, "green")};
  }

  /** Round 1's links point to violet 0 and green 0 only. */
  lemma Round1Values()
    ensures Round1Result().Values == {Node(0, "violet"), Node(0, "green")}
  {
    var r := Round1Result();
    assert r.Keys == {Node(1, "violet"), Node(1, "green")};
    assert r[Node(1, "violet")] == Node(0, "violet") && r[Node(1, "green")] == Node(0, "green");
  }

  /** A cell whose candidate heads no link scores the direct comparison alone. */
  lemma CellUnlinked(sc: Scope, j: nat, a: set<Member>, cand: Community, seen: set<Node>, near: real)
    requires ScopeOk(sc) && DistanceOk(sc, j) && a * cand.members != {}
    requires Node(sc.i - j, cand.name) !in seen && Node(sc.i - j, cand.name) !in sc.links
    requires sc.w[j - 1] == near
    ensures Cell(sc, j, a, cand, seen).0 == -(Jaccard(a, cand.members) * near)
  {
  }

  /** A cell whose candidate links to a node inside the window that heads no
      link itself scores the direct comparison plus that one hop. */
  lemma CellOneHop(sc: Scope, j: nat, a: set<Member>, cand: Community, seen: set<Node>, next: Node, near: real, far: real)
    requires ScopeOk(sc) && DistanceOk(sc, j) && a * cand.members != {}
    requires Node(sc.i - j, cand.name) !in seen
    requires Node(sc.i - j, cand.name) in sc.links && sc.links[Node(sc.i - j, cand.name)] == next
    requires sc.i - sc.memory <= next.t && next !in sc.links
    requires a * Members(sc.ts, next) != {}
    requires sc.w[j - 1] == near && sc.w[sc.i - next.t - 1] == far
    ensures Cell(sc, j, a, cand, seen).0 == -(Jaccard(a, cand.members) * near + Jaccard(a, Members(sc.ts, next)) * far)
  {
    var node := Node(sc.i - j, cand.name);
    assert ChainFrom(sc, a, next) == (0.0, {});
    assert ChainFrom(sc, a, node).0 == HopScore(sc, a, next);
  }

  /** The Jaccard indices the test series needs. */
  lemma TestJaccards()
    ensures Jaccard({2, 3, 4, 5, 6}, {4, 5, 6}) == 3.0 / 5.0
    ensures Jaccard({7, 8}, {7, 8, 9}) == 2.0 / 3.0
    ensures Jaccard({1, 2, 3}, {1, 2, 3}) == 1.0
    ensures Jaccard({4, 5, 6, 7}, {2, 3, 4, 5, 6}) == 1.0 / 2.0
    ensures Jaccard({4, 5, 6, 7}, {4, 5, 6}) == 3.0 / 4.0
    ensures Jaccard({8, 9}, {7, 8}) == 1.0 / 3.0
    ensures Jaccard({8, 9}, {7, 8, 9}) == 2.0 / 3.0
  {
    assert {2, 3, 4, 5, 6} * {4, 5, 6} == {4, 5, 6} && {2, 3, 4, 5, 6} + {4, 5, 6} == {2, 3, 4, 5, 6};
    assert {7, 8} * {7, 8, 9} == {7, 8} && {7, 8} + {7, 8, 9} == {7, 8, 9};
    var a, b := {4, 5, 6, 7}, {2, 3, 4, 5, 6};
    assert a * b == {4, 5, 6} && a + b == {2, 3, 4, 5, 6, 7};
    assert a * {4, 5, 6} == {4, 5, 6} && a + {4, 5, 6} == {4, 5, 6, 7};
    var c := {8, 9};
    assert c * {7, 8} == {8} && c + {7, 8} == {7, 8, 9};
    assert c * {7, 8, 9} == {8, 9} && c + {7, 8, 9} == {7, 8, 9};
  }

  /** The member sets behind the links of round 1. */
  lemma Round1Targets()
    ensures IsNode(TestSeries(), Node(0, "violet")) && Members(TestSeries(), Node(0, "violet")) == {4, 5, 6}
    ensures IsNode(TestSeries(), Node(0, "green")) && Members(TestSeries(), Node(0, "green")) == {7, 8, 9}
  {
    var ts := TestSeries();
    IndexOfUnique(ts[0], 1);
    IndexOfUnique(ts[0], 2);
  }

  /** Violet at timestep 2 against violet at timestep 1 (Jaccard 1/2), plus
      the hop along the link violet 1 -> violet 0 (Jaccard 3/4, weighed 1/2). */
  lemma Round2Violet(sc: Scope)
    requires IsRound2(sc)
    ensures ScopeOk(sc)
    ensures Cell(sc, 1, {4, 5, 6, 7}, Community("violet", {2, 3, 4, 5, 6}), {}).0 == -(7.0 / 8.0)
  {
    Round2Ok(sc);
    Round1Targets();
    assert 4 in {4, 5, 6, 7} * {2, 3, 4, 5, 6} && 4 in {4, 5, 6, 7} * Members(sc.ts, Node(0, "violet"));
    CellOneHop(sc, 1, {4, 5, 6, 7}, Community("violet", {2, 3, 4, 5, 6}), {}, Node(0, "violet"), 1.0, 0.5);
    TestJaccards();
  }

  /** Green at timestep 2 against green at timestep 1 (Jaccard 1/3), plus
      the hop along the link green 1 -> green 0 (Jaccard 2/3, weighed 1/2). */
  lemma Round2Green(sc: Scope)
    requires IsRound2(sc)
    ensures ScopeOk(sc)
    ensures Cell(sc, 1, {8, 9}, Community("green", {7, 8}), {}).0 == -(2.0 / 3.0)
  {
    Round2Ok(sc);
    Round1Targets();
    assert 8 in {8, 9} * {7, 8} && 8 in {8, 9} * Members(sc.ts, Node(0, "green"));
    CellOneHop(sc, 1, {8, 9}, Community("green", {7, 8}), {}, Node(0, "green"), 1.0, 0.5);
    TestJaccards();
  }

  /** A round at `i = 2` with `memory = 2` lays out timestep 1's
      communities first and timestep 0's after them. */
  lemma TwoBlocksColumns(sc: Scope, o: nat)
    requires ScopeOk(sc) && sc.i == 2 && sc.memory == 2
    ensures |RoundNames(sc)| == |sc.ts[1]| + |sc.ts[0]|
    ensures o < |sc.ts[1]| ==> ColumnOf(sc, 0, o) == o
    ensures o < |sc.ts[0]| ==> ColumnOf(sc, 1, o) == |sc.ts[1]| + o
  {
    var tsteps := Timesteps(2, Lookback(2, 2));
    assert tsteps == [1, 0] && tsteps[..0] == [] && tsteps[..1] == [1] && [1][..0] == [];
    if o < |sc.ts[1]| {
      ColumnOfWidth(sc, 0, o);
    }
    if o < |sc.ts[0]| {
      ColumnOfWidth(sc, 1, o);
    }
  }

  /** The nodes of those columns. */
  lemma TwoBlocksNames(sc: Scope, o: nat)
    requires ScopeOk(sc) && sc.i == 2 && sc.memory == 2
    ensures |RoundNames(sc)| == |sc.ts[1]| + |sc.ts[0]|
    ensures o < |sc.ts[1]| ==> RoundNames(sc)[o] == Node(1, sc.ts[1][o].name)
    ensures o < |sc.ts[0]| ==> RoundNames(sc)[|sc.ts[1]| + o] == Node(0, sc.ts[0][o].name)
  {
    TwoBlocksColumns(sc, o);
    if o < |sc.ts[1]| {
      RoundColumnName(sc, 0, o);
    }
    if o < |sc.ts[0]| {
      RoundColumnName(sc, 1, o);
    }
  }

  /** The nearer block is scored from the empty `seen` set. */
  lemma TwoBlocksNear(sc: Scope, k: nat, o: nat)
    requires ScopeOk(sc) && sc.i == 2 && sc.memory == 2 && k < |sc.ts[2]| && o < |sc.ts[1]|
    ensures RoundCosts(sc)[k][o] == Cell(sc, 1, sc.ts[2][k].members, sc.ts[1][o], {}).0
  {
    TwoBlocksColumns(sc, o);
    RoundColumnCost(sc, k, 0, o);
  }

  /** The farther block is scored from the `seen` set the nearer one
      leaves, which holds only link targets. */
  lemma TwoBlocksFar(sc: Scope, k: nat, o: nat) returns (seen: set<Node>)
    requires ScopeOk(sc) && sc.i == 2 && sc.memory == 2 && k < |sc.ts[2]| && o < |sc.ts[0]|
    ensures |sc.ts[1]| + o < |RoundNames(sc)|
    ensures seen <= sc.links.Values
    ensures RoundCosts(sc)[k][|sc.ts[1]| + o] == Cell(sc, 2, sc.ts[2][k].members, sc.ts[0][o], seen).0
  {
    TwoBlocksColumns(sc, o);
    seen := SeenAfter(sc, 1);
    assert seen <= sc.links.Values by {
      SeenAfterTargets(sc, 1);
    }
    assert RoundCosts(sc)[k][|sc.ts[1]| + o] == Cell(sc, 2, sc.ts[2][k].members, sc.ts[0][o], seen).0 by {
      RoundColumnCost(sc, k, 1, o);
    }
  }

  /** In a round at `i = 2` with `memory = 2`, a farther candidate that is
      neither the head nor the target of a link scores the direct
      comparison alone. */
  lemma FarUnlinked(sc: Scope, k: nat, o: nat, far: real)
    requires ScopeOk(sc) && sc.i == 2 && sc.memory == 2 && k < |sc.ts[2]| && o < |sc.ts[0]|
    requires sc.ts[2][k].members * sc.ts[0][o].members != {}
    requires Node(0, sc.ts[0][o].name) !in sc.links && Node(0, sc.ts[0][o].name) !in sc.links.Values
    requires sc.w[1] == far
    ensures |sc.ts[1]| + o < |RoundNames(sc)|
    ensures RoundCosts(sc)[k][|sc.ts[1]| + o] == -(Jaccard(sc.ts[2][k].members, sc.ts[0][o].members) * far)
  {
    var seen := TwoBlocksFar(sc, k, o);
    CellUnlinked(sc, 2, sc.ts[2][k].members, sc.ts[0][o], seen, far);
  }

  /** The threshold filter on round 2's pairing, for any matrix holding
      round 2's three paired costs: all three clear it. */
  lemma Round2Accepted(costs: Matrix, names: seq<Node>)
    requires |costs| == 3 && |names| == 6 && forall k :: 0 <= k < 3 ==> |costs[k]| == 6
    requires costs[0][3] == -(1.0 / 2.0) && costs[1][0] == -(7.0 / 8.0) && costs[2][1] == -(2.0 / 3.0)
    requires names[3] == Node(0, "orange") && names[0] == Node(1, "violet") && names[1] == Node(1, "green")
    ensures PairsFit([(0, 3), (1, 0), (2, 1)], costs, ["orange", "violet", "green"], names)
    ensures Accepted(2, ["orange", "violet", "green"], names, costs, DefaultThreshold, [(0, 3), (1, 0), (2, 1)]) == Round2Result()
  {
    var pairs := [(0, 3), (1, 0), (2, 1)];
    assert pairs[..2] == [(0, 3), (1, 0)] && pairs[..2][..1] == [(0, 3)] && [(0, 3)][..0] == [];
  }

  /** Round 2's cost of orange 2 -> orange 0. */
  lemma Round2OrangeCost(sc: Scope)
    requires IsRound2(sc)
    ensures ScopeOk(sc) && |RoundCosts(sc)| == 3 && |RoundCosts(sc)[0]| == 6
    ensures RoundCosts(sc)[0][3] == -(1.0 / 2.0)
  {
    Round2Ok(sc);
    Round1Values();
    TwoBlocksColumns(sc, 0);
    assert 1 in sc.ts[2][0].members * sc.ts[0][0].members;
    FarUnlinked(sc, 0, 0, 0.5);
    TestJaccards();
  }

  /** Round 2's cost of violet 2 -> violet 1. */
  lemma Round2VioletCost(sc: Scope)
    requires IsRound2(sc)
    ensures ScopeOk(sc) && |RoundCosts(sc)| == 3 && |RoundCosts(sc)[1]| == 6
    ensures RoundCosts(sc)[1][0] == -(7.0 / 8.0)
  {
    Round2Ok(sc);
    TwoBlocksColumns(sc, 0);
    TwoBlocksNear(sc, 1, 0);
    Round2Violet(sc);
  }

  /** Round 2's cost of green 2 -> green 1. */
  lemma Round2GreenCost(sc: Scope)
    requires IsRound2(sc)
    ensures ScopeOk(sc) && |RoundCosts(sc)| == 3 && |RoundCosts(sc)[2]| == 6
    ensures RoundCosts(sc)[2][1] == -(2.0 / 3.0)
  {
    Round2Ok(sc);
    TwoBlocksColumns(sc, 1);
    TwoBlocksNear(sc, 2, 1);
    Round2Green(sc);
  }

  /** Round 2 links orange back to timestep 0 (timestep 1 has no orange),
      and violet and green to their namesakes at timestep 1. */
  lemma Round2LinksOf(sc: Scope)
    requires IsRound2(sc)
    ensures ScopeOk(sc) && SolverContract(TestSolver)
    ensures RoundLinks(sc, DefaultThreshold, TestSolver) == Round2Result()
  {
    Round2Ok(sc);
    TestSolverContract();
    RoundLinksAccepted(sc, DefaultThreshold, TestSolver);
    var costs, names := RoundCosts(sc), RoundNames(sc);
    assert |names| == 6 && names[3] == Node(0, "orange") && names[0] == Node(1, "violet") && names[1] == Node(1, "green") by {
      TwoBlocksNames(sc, 0);
      TwoBlocksNames(sc, 1);
    }
    Round2OrangeCost(sc);
    Round2VioletCost(sc);
    Round2GreenCost(sc);
    TestNames();
    Round2Accepted(costs, names);
  }

  /** The links round 2 records. */
  function Round2Result(): Links {
    map[Node(2, "orange") := Node(0, "orange"), Node(2, "violet") := Node(1, "violet"), Node(2, "green") := Node(1, "green")]
  }

  lemma EmptyUnion(m: Links)
    ensures map[] + m == m
  {
  }

  /** The expected links are round 1's and round 2's together. */
  lemma TestLinksRounds()
    ensures Round1Result() + Round2Result() == TestLinks()
  {
  }

  /** `match` on the test series with its default arguments records the
      expected links: round 1 links violet and green, round 2 orange,
      violet and green. */
  lemma TestMatch(ts: Timeseries)
    requires ts == TestSeries()
    ensures SolverContract(TestSolver)
    ensures MatchSpec(ts, DefaultMemory, None, DefaultThreshold, TestSolver) == TestLinks()
  {
    TestSolverContract();
    TestWeights();
    var w := EffectiveWeights(DefaultMemory, None);
    var r1 := RoundsFromNext(ts, DefaultMemory, w, DefaultThreshold, TestSolver, 1, map[]);
    assert r1 == Round1Result() by {
      Round1LinksOf(Scope(ts, map[], 1, DefaultMemory, w));
    }
    EmptyUnion(r1);
    var r2 := RoundsFromNext(ts, DefaultMemory, w, DefaultThreshold, TestSolver, 2, r1);
    assert r2 == Round2Result() by {
      Round2LinksOf(Scope(ts, r1, 2, DefaultMemory, w));
    }
    TestLinksRounds();
  }

  /** The links expected for the test series with `memory = 2`: violet and
      green at timesteps 1 and 2 point to the same colour one step back,
      orange at timestep 2 skips timestep 1, and yellow is linked to
      nothing. */
  function TestLinks(): (links: Links)
    ensures Backward(links)
  {
    map[
      Node(1, "violet") := Node(0, "violet"),
      Node(1, "green") := Node(0, "green"),
      Node(2, "orange") := Node(0, "orange"),
      Node(2, "violet") := Node(1, "violet"),
      Node(2, "green") := Node(1, "green")]
  }

  /** The expected temporal communities, keyed by the root of each chain. */
  function TestGroupMap(): Groups {
    map[
      Node(0, "violet") := {Node(0, "violet"), Node(1, "violet"), Node(2, "violet")},
      Node(0, "orange") := {Node(0, "orange"), Node(2, "orange")},
      Node(0, "green") := {Node(0, "green"), Node(1, "green"), Node(2, "green")}]
  }

  lemma TestRoots()
    ensures var links := TestLinks();
      && RootsOf(links, links.Keys) == TestGroupMap().Keys
      && NodesOf(links) == TestGroupMap()[Node(0, "violet")] + TestGroupMap()[Node(0, "orange")] + TestGroupMap()[Node(0, "green")]
      && (forall r, n :: r in TestGroupMap() && n in TestGroupMap()[r] ==> Root(links, n) == r)
  {
    var links := TestLinks();
    var v0, v1, v2 := Node(0, "violet"), Node(1, "violet"), Node(2, "violet");
    var o0, o2 := Node(0, "orange"), Node(2, "orange");
    var g0, g1, g2 := Node(0, "green"), Node(1, "green"), Node(2, "green");
    assert links.Keys == {v1, g1, o2, v2, g2};
    assert links.Values == {v0, g0, o0, v1, g1};
    assert Root(links, v1) == v0 && Root(links, v2) == v0;
    assert Root(links, g1) == g0 && Root(links, g2) == g0;
    assert Root(links, o2) == o0;
  }

  /** Aggregating the test links gives exactly the expected groups. */
  lemma TestGroupsOf()
    ensures GroupsOf(TestLinks()) == TestGroupMap()
  {
    var links, want := TestLinks(), TestGroupMap();
    TestRoots();
    var g := GroupsOf(links);
    assert g.Keys == want.Keys;
    forall r | r in want
      ensures g[r] == want[r]
    {
      assert GroupWithin(links, NodesOf(links), r) == want[r];
    }
  }

  /** A map with three keys has the three values stored under them. */
  lemma ThreeValues<K, V>(m: map<K, V>, a: K, b: K, c: K)
    requires m.Keys == {a, b, c}
    ensures m.Values == {m[a], m[b], m[c]}
  {
    forall v | v in m.Values
      ensures v == m[a] || v == m[b] || v == m[c]
    {
      var k :| k in m && m[k] == v;
    }
    assert m[a] in m.Values && m[b] in m.Values && m[c] in m.Values;
  }

  /** So `matching` on the test links returns the three expected sets, and
      `(1, "yellow")`, which no link touches, is in none of them. */
  lemma TestGroups()
    ensures GroupsOf(TestLinks()).Values ==
      { {Node(0, "violet"), Node(1, "violet"), Node(2, "violet")},
        {Node(0, "orange"), Node(2, "orange")},
        {Node(0, "green"), Node(1, "green"), Node(2, "green")} }
    ensures forall c :: c in GroupsOf(TestLinks()).Values ==> Node(1, "yellow") !in c
  {
    TestGroupsOf();
    ThreeValues(TestGroupMap(), Node(0, "violet"), Node(0, "orange"), Node(0, "green"));
  }

  /** `matching` on the test series with its default arguments returns the
      three expected temporal communities; yellow, linked to nothing, is in
      none of them. */
  lemma TestMatching(ts: Timeseries)
    requires ts == TestSeries()
    ensures SolverContract(TestSolver)
    ensures MatchingSpec(ts, DefaultMemory, None, DefaultThreshold, TestSolver) ==
      { {Node(0, "violet"), Node(1, "violet"), Node(2, "violet")},
        {Node(0, "orange"), Node(2, "orange")},
        {Node(0, "green"), Node(1, "green"), Node(2, "green")} }
    ensures forall c :: c in MatchingSpec(ts, DefaultMemory, None, DefaultThreshold, TestSolver) ==> Node(1, "yellow") !in c
  {
    TestMatch(ts);
    TestGroups();
  }
}
