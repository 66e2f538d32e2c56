/** Scoring of (current community, candidate community) pairs: the Jaccard
    index, the memory weights, the chain extension through already recorded
    links, and the per-distance cost matrix with its `seen` bookkeeping. */
module Scoring {
  import opened Communities

  /** A cost matrix as a sequence of rows. */
  type Matrix = seq<seq<real>>

  lemma SubsetCard(x: set<Member>, y: set<Member>)
    requires x <= y
    ensures |x| <= |y|
    ensures |x| == |y| ==> x == y
  {
    assert y == x + (y - x);
    assert x * (y - x) == {};
  }

  /** `|A ∩ B| / |A ∪ B|`, for overlapping member sets. */
  function Jaccard(a: set<Member>, b: set<Member>): (r: real)
    requires a * b != {}
    ensures 0.0 < r <= 1.0
    ensures r == 1.0 <==> a == b
  {
    SubsetCard(a * b, a + b);
    var n, d := |a * b| as real, |a + b| as real;
    assert n / d == 1.0 ==> n == d by {
      if n / d == 1.0 {
        assert n == (n / d) * d;
      }
    }
    assert n == d ==> n / d == 1.0;
    assert a == b ==> a * b == a + b;
    assert n == d ==> a == b by {
      if n == d {
        assert a * b == a + b;
        assert a <= a * b && b <= a * b;
      }
    }
    n / d
  }

  lemma InverseDecreases(x: real, y: real)
    requires 0.0 < x < y
    ensures 1.0 / y < 1.0 / x
  {
    assert x / y < 1.0;
    assert (x / y) * (1.0 / x) == 1.0 / y;
  }

  /** The harmonic kernel used when no weights are given: distance `d + 1`
      weighs `1 / (d + 1)`. */
  function DefaultWeights(memory: nat): (w: seq<real>)
    ensures |w| == memory
    ensures forall d :: 0 <= d < memory ==> w[d] == 1.0 / (d + 1) as real
    ensures forall d :: 0 <= d < memory ==> 0.0 < w[d] <= 1.0
    ensures forall d, e :: 0 <= d < e < memory ==> w[e] < w[d]
  {
    var w := seq(memory, d requires 0 <= d < memory => 1.0 / (d + 1) as real);
    assert forall d, e :: 0 <= d < e < memory ==> w[e] < w[d] by {
      forall d, e | 0 <= d < e < memory ensures w[e] < w[d] {
        InverseDecreases((d + 1) as real, (e + 1) as real);
      }
    }
    w
  }

  /** `None` and the empty list both select the default kernel. */
  predicate Falsy(given: Option<seq<real>>) {
    given.None? || given.value == []
  }

  /** Given weights must cover every distance of the memory window. */
  predicate WeightsFit(memory: nat, given: Option<seq<real>>) {
    Falsy(given) || memory <= |given.value|
  }

  function EffectiveWeights(memory: nat, given: Option<seq<real>>): (w: seq<real>)
    requires WeightsFit(memory, given)
    ensures memory <= |w|
    ensures Falsy(given) ==> w == DefaultWeights(memory)
    ensures !Falsy(given) ==> w == given.value
  {
    if Falsy(given) then DefaultWeights(memory) else given.value
  }

  /** What a round of the matcher works within: the timeseries, the links
      recorded so far, the current timestep `i`, the memory depth and the
      weights. */
  datatype Scope = Scope(ts: Timeseries, links: Links, i: nat, memory: nat, w: seq<real>)

  ghost predicate ScopeOk(sc: Scope) {
    && LinksInto(sc.ts, sc.links)
    && Backward(sc.links)
    && sc.i < |sc.ts|
    && 1 <= sc.memory <= |sc.w|
  }

  /** Lookback distance `j` is one the round processes. */
  predicate DistanceOk(sc: Scope, j: nat) {
    1 <= j <= sc.memory && j <= sc.i
  }

  /** The contribution of one chain hop to the score of `a`: its Jaccard
      index weighted by its distance from `i`, or nothing without overlap. */
  function HopScore(sc: Scope, a: set<Member>, n: Node): (s: real)
    requires IsNode(sc.ts, n) && n.t < sc.i && sc.i - n.t <= |sc.w|
    ensures a * Members(sc.ts, n) == {} ==> s == 0.0
    ensures 0.0 <= sc.w[sc.i - n.t - 1] ==> 0.0 <= s
  {
    var c := Members(sc.ts, n);
    if a * c != {} then DirectScore(sc, sc.i - n.t, a, c) else 0.0
  }

  /** Following the recorded links back from `node` while they stay inside
      the memory window: the added score and the nodes visited. */
  ghost function ChainFrom(sc: Scope, a: set<Member>, node: Node): (r: (real, set<Node>))
    requires ScopeOk(sc) && node.t < sc.i
    ensures forall n :: n in r.1 ==> sc.i - sc.memory <= n.t < node.t
    ensures node in sc.links && sc.i - sc.memory <= sc.links[node].t ==> sc.links[node] in r.1
    decreases node.t
  {
    if node !in sc.links then (0.0, {})
    else
      var next := sc.links[node];
      if next.t < sc.i - sc.memory then (0.0, {})
      else
        var rest := ChainFrom(sc, a, next);
        (HopScore(sc, a, next) + rest.0, {next} + rest.1)
  }

  /** The score of a directly compared pair at distance `j`: its Jaccard
      index times the weight of that distance. */
  function DirectScore(sc: Scope, j: nat, a: set<Member>, b: set<Member>): (s: real)
    requires 1 <= j <= |sc.w| && a * b != {}
    ensures 0.0 <= sc.w[j - 1] ==> 0.0 <= s
  {
    Jaccard(a, b) * sc.w[j - 1]
  }

  /** The cost of pairing current members `a` with candidate `cand` at
      distance `j`, and the `seen` set afterwards. */
  ghost function Cell(sc: Scope, j: nat, a: set<Member>, cand: Community, seen: set<Node>): (r: (real, set<Node>))
    requires ScopeOk(sc) && DistanceOk(sc, j)
    ensures seen <= r.1
    ensures forall n :: n in r.1 - seen ==> sc.i - sc.memory <= n.t < sc.i - j
    ensures Node(sc.i - j, cand.name) in seen ==> r == (0.0, seen)
    ensures a * cand.members == {} ==> r == (0.0, seen)
  {
    var node := Node(sc.i - j, cand.name);
    if node in seen || a * cand.members == {} then (0.0, seen)
    else
      var chain := ChainFrom(sc, a, node);
      (-(DirectScore(sc, j, a, cand.members) + chain.0), seen + chain.1)
  }

  /** One row of the distance-`j` matrix, candidates visited in order. */
  ghost function RowCosts(sc: Scope, j: nat, a: set<Member>, cands: seq<Community>, seen: set<Node>): (r: (seq<real>, set<Node>))
    requires ScopeOk(sc) && DistanceOk(sc, j)
    ensures |r.0| == |cands|
    ensures seen <= r.1
    ensures forall n :: n in r.1 - seen ==> sc.i - sc.memory <= n.t < sc.i - j
    decreases |cands|
  {
    if cands == [] then ([], seen)
    else
      var prev := RowCosts(sc, j, a, cands[..|cands| - 1], seen);
      var c := Cell(sc, j, a, cands[|cands| - 1], prev.1);
      (prev.0 + [c.0], c.1)
  }

  /** The distance-`j` matrix, rows for `bases` visited in order. */
  ghost function DistanceMatrix(sc: Scope, j: nat, bases: seq<Community>, cands: seq<Community>, seen: set<Node>): (r: (Matrix, set<Node>))
    requires ScopeOk(sc) && DistanceOk(sc, j)
    ensures |r.0| == |bases|
    ensures forall k :: 0 <= k < |bases| ==> |r.0[k]| == |cands|
    ensures seen <= r.1
    ensures forall n :: n in r.1 - seen ==> sc.i - sc.memory <= n.t < sc.i - j
    decreases |bases|
  {
    if bases == [] then ([], seen)
    else
      var prev := DistanceMatrix(sc, j, bases[..|bases| - 1], cands, seen);
      var row := RowCosts(sc, j, bases[|bases| - 1].members, cands, prev.1);
      (prev.0 + [row.0], row.1)
  }

  /** The cost of an overlapping, unseen candidate. */
  lemma CellValue(sc: Scope, j: nat, a: set<Member>, cand: Community, seen: set<Node>)
    requires ScopeOk(sc) && DistanceOk(sc, j)
    requires Node(sc.i - j, cand.name) !in seen && a * cand.members != {}
    ensures Cell(sc, j, a, cand, seen).0 == -(DirectScore(sc, j, a, cand.members) + ChainFrom(sc, a, Node(sc.i - j, cand.name)).0)
    ensures Cell(sc, j, a, cand, seen).1 == seen + ChainFrom(sc, a, Node(sc.i - j, cand.name)).1
  {
  }

  /** A cell's cost depends on `seen` only through the candidate's own node. */
  lemma CellSameLayer(sc: Scope, j: nat, a: set<Member>, cand: Community, s1: set<Node>, s2: set<Node>)
    requires ScopeOk(sc) && DistanceOk(sc, j)
    requires Node(sc.i - j, cand.name) in s1 <==> Node(sc.i - j, cand.name) in s2
    ensures Cell(sc, j, a, cand, s1).0 == Cell(sc, j, a, cand, s2).0
  {
  }

  /** A cell's cost depends on `seen` only through the current layer
      `i - j`, which the distance-`j` pass itself never adds to: so every
      cell of a row is the cost computed from the `seen` set the row started
      with. */
  lemma {:induction false} RowCostsAt(sc: Scope, j: nat, a: set<Member>, cands: seq<Community>, seen: set<Node>, o: nat)
    requires ScopeOk(sc) && DistanceOk(sc, j) && o < |cands|
    ensures RowCosts(sc, j, a, cands, seen).0[o] == Cell(sc, j, a, cands[o], seen).0
    decreases |cands|
  {
    var last := |cands| - 1;
    var prev := RowCosts(sc, j, a, cands[..last], seen);
    if o < last {
      RowCostsAt(sc, j, a, cands[..last], seen, o);
    } else {
      CellSameLayer(sc, j, a, cands[last], prev.1, seen);
    }
  }

  /** Every cell of the distance-`j` matrix is the cost computed from the
      `seen` set the distance started with, whatever the visiting order. */
  lemma {:induction false} DistanceMatrixAt(sc: Scope, j: nat, bases: seq<Community>, cands: seq<Community>, seen: set<Node>, k: nat, o: nat)
    requires ScopeOk(sc) && DistanceOk(sc, j) && k < |bases| && o < |cands|
    ensures DistanceMatrix(sc, j, bases, cands, seen).0[k][o] == Cell(sc, j, bases[k].members, cands[o], seen).0
    decreases |bases|
  {
    var last := |bases| - 1;
    var prev := DistanceMatrix(sc, j, bases[..last], cands, seen);
    if k < last {
      DistanceMatrixAt(sc, j, bases[..last], cands, seen, k, o);
    } else {
      RowCostsAt(sc, j, bases[last].members, cands, prev.1, o);
      CellSameLayer(sc, j, bases[last].members, cands[o], prev.1, seen);
    }
  }

  /** The chain walk marks a community seen only after looking it up as
      the target of a recorded link. */
  lemma {:induction false} ChainTargets(sc: Scope, a: set<Member>, node: Node)
    requires ScopeOk(sc) && node.t < sc.i
    ensures ChainFrom(sc, a, node).1 <= sc.links.Values
    decreases node.t
  {
    if node in sc.links && sc.i - sc.memory <= sc.links[node].t {
      ChainTargets(sc, a, sc.links[node]);
    }
  }

  /** So does filling a cell. */
  lemma CellTargets(sc: Scope, j: nat, a: set<Member>, cand: Community, seen: set<Node>)
    requires ScopeOk(sc) && DistanceOk(sc, j)
    ensures Cell(sc, j, a, cand, seen).1 <= seen + sc.links.Values
  {
    ChainTargets(sc, a, Node(sc.i - j, cand.name));
  }

  /** So does a row. */
  lemma {:induction false} RowCostsTargets(sc: Scope, j: nat, a: set<Member>, cands: seq<Community>, seen: set<Node>)
    requires ScopeOk(sc) && DistanceOk(sc, j)
    ensures RowCosts(sc, j, a, cands, seen).1 <= seen + sc.links.Values
    decreases |cands|
  {
    if cands != [] {
      var prev := RowCosts(sc, j, a, cands[..|cands| - 1], seen);
      RowCostsTargets(sc, j, a, cands[..|cands| - 1], seen);
      CellTargets(sc, j, a, cands[|cands| - 1], prev.1);
    }
  }

  /** So does a whole distance. */
  lemma {:induction false} DistanceMatrixTargets(sc: Scope, j: nat, bases: seq<Community>, cands: seq<Community>, seen: set<Node>)
    requires ScopeOk(sc) && DistanceOk(sc, j)
    ensures DistanceMatrix(sc, j, bases, cands, seen).1 <= seen + sc.links.Values
    decreases |bases|
  {
    if bases != [] {
      var prev := DistanceMatrix(sc, j, bases[..|bases| - 1], cands, seen);
      DistanceMatrixTargets(sc, j, bases[..|bases| - 1], cands, seen);
      RowCostsTargets(sc, j, bases[|bases| - 1].members, cands, prev.1);
    }
  }

  /** One in-window hop of a chain: its score, then the rest of the chain. */
  lemma ChainStep(sc: Scope, a: set<Member>, node: Node)
    requires ScopeOk(sc) && node.t < sc.i && node in sc.links && sc.i - sc.memory <= sc.links[node].t
    ensures ChainFrom(sc, a, node).0 == HopScore(sc, a, sc.links[node]) + ChainFrom(sc, a, sc.links[node]).0
    ensures ChainFrom(sc, a, node).1 == {sc.links[node]} + ChainFrom(sc, a, sc.links[node]).1
  {
  }

  /** One hop of the chain walk: the weighted Jaccard index of the hop's
      community, added only when it overlaps `a`. */
  method AddHop(sc: Scope, a: set<Member>, next: Node, score0: real) returns (score: real)
    requires IsNode(sc.ts, next) && next.t < sc.i && sc.i - next.t <= |sc.w|
    ensures score == score0 + HopScore(sc, a, next)
  {
    score := score0;
    var c := Members(sc.ts, next);
    var intersection := |a * c|;
    if intersection > 0 {
      score := score + DirectScore(sc, sc.i - next.t, a, c);
    } else {
      assert a * c == {};
    }
  }

  /** The chain walk of the scorer: adds the weighted Jaccard index of every
      in-window hop to `score0` and marks each hop seen. */
  method ExtendChain(sc: Scope, a: set<Member>, start: Node, score0: real, seen0: set<Node>)
      returns (score: real, seen: set<Node>)
    requires ScopeOk(sc) && start.t < sc.i
    ensures score == score0 + ChainFrom(sc, a, start).0
    ensures seen == seen0 + ChainFrom(sc, a, start).1
  {
    score, seen := score0, seen0;
    var node := start;
    while true
      invariant node.t < sc.i
      invariant score + ChainFrom(sc, a, node).0 == score0 + ChainFrom(sc, a, start).0
      invariant seen + ChainFrom(sc, a, node).1 == seen0 + ChainFrom(sc, a, start).1
      decreases node.t
    {
      if node !in sc.links {
        break;
      }
      var next := sc.links[node];
      if next.t < sc.i - sc.memory {
        break;
      }
      ChainStep(sc, a, node);
      ghost var before, rest := seen, ChainFrom(sc, a, next).1;
      score := AddHop(sc, a, next, score);
      seen := seen + {next};
      assert seen + rest == before + ({next} + rest);
      node := next;
    }
  }

  /** The rows of a two-dimensional array. */
  function Rows(m: array2<real>): (r: Matrix)
    reads m
    ensures |r| == m.Length0
    ensures forall k :: 0 <= k < m.Length0 ==> |r[k]| == m.Length1
    ensures forall k, l :: 0 <= k < m.Length0 && 0 <= l < m.Length1 ==> r[k][l] == m[k, l]
  {
    seq(m.Length0, k reads m requires 0 <= k < m.Length0 =>
      seq(m.Length1, l reads m requires 0 <= l < m.Length1 => m[k, l]))
  }

  /** The score of an overlapping, unseen candidate: the direct score
      extended along the candidate's chain. */
  method ScoreCandidate(sc: Scope, j: nat, a: set<Member>, cand: Community, seen0: set<Node>)
      returns (score: real, seen: set<Node>)
    requires ScopeOk(sc) && DistanceOk(sc, j)
    requires Node(sc.i - j, cand.name) !in seen0 && a * cand.members != {}
    ensures -1.0 * score == Cell(sc, j, a, cand, seen0).0
    ensures seen == Cell(sc, j, a, cand, seen0).1
  {
    CellValue(sc, j, a, cand, seen0);
    score := DirectScore(sc, j, a, cand.members);
    score, seen := ExtendChain(sc, a, Node(sc.i - j, cand.name), score, seen0);
  }

  /** A row extended by one candidate. */
  lemma RowCostsNext(sc: Scope, j: nat, a: set<Member>, cands: seq<Community>, seen0: set<Node>, l: nat)
    requires ScopeOk(sc) && DistanceOk(sc, j) && l < |cands|
    ensures var prev := RowCosts(sc, j, a, cands[..l], seen0);
      var cell := Cell(sc, j, a, cands[l], prev.1);
      && RowCosts(sc, j, a, cands[..l + 1], seen0).0 == prev.0 + [cell.0]
      && RowCosts(sc, j, a, cands[..l + 1], seen0).1 == cell.1
  {
    assert cands[..l + 1][..l] == cands[..l];
  }

  /** One cell of the distance-`j` pass: candidate `l` is scored only when
      its node is unseen and it overlaps `a`; otherwise the cell stays 0. */
  method FillCell(sc: Scope, j: nat, costs: array2<real>, k: nat, l: nat, a: set<Member>, seen0: set<Node>)
      returns (seen: set<Node>)
    requires ScopeOk(sc) && DistanceOk(sc, j)
    requires k < costs.Length0 && l < costs.Length1 == |sc.ts[sc.i - j]|
    requires costs[k, l] == 0.0
    modifies costs
    ensures costs[k, l] == Cell(sc, j, a, sc.ts[sc.i - j][l], seen0).0
    ensures forall k', l' :: 0 <= k' < costs.Length0 && 0 <= l' < costs.Length1 && (k', l') != (k, l) ==> costs[k', l'] == old(costs[k', l'])
    ensures seen == Cell(sc, j, a, sc.ts[sc.i - j][l], seen0).1
  {
    seen := seen0;
    var cand := sc.ts[sc.i - j][l];
    if Node(sc.i - j, cand.name) !in seen {
      var intersection := |a * cand.members|;
      if intersection > 0 {
        var score;
        score, seen := ScoreCandidate(sc, j, a, cand, seen);
        costs[k, l] := -1.0 * score;
      }
    }
  }

  /** The inner loop of the distance-`j` pass: fills row `k` of `costs`
      for current members `a`, candidate by candidate. */
  method FillRow(sc: Scope, j: nat, costs: array2<real>, k: nat, a: set<Member>, seen0: set<Node>)
      returns (seen: set<Node>)
    requires ScopeOk(sc) && DistanceOk(sc, j)
    requires k < costs.Length0 && costs.Length1 == |sc.ts[sc.i - j]|
    requires forall l :: 0 <= l < costs.Length1 ==> costs[k, l] == 0.0
    modifies costs
    ensures forall l :: 0 <= l < costs.Length1 ==> costs[k, l] == RowCosts(sc, j, a, sc.ts[sc.i - j], seen0).0[l]
    ensures forall k', l :: 0 <= k' < costs.Length0 && k' != k && 0 <= l < costs.Length1 ==> costs[k', l] == old(costs[k', l])
    ensures seen == RowCosts(sc, j, a, sc.ts[sc.i - j], seen0).1
  {
    var cands := sc.ts[sc.i - j];
    seen := seen0;
    for l := 0 to |cands|
      invariant seen == RowCosts(sc, j, a, cands[..l], seen0).1
      invariant forall l' :: 0 <= l' < l ==> costs[k, l'] == RowCosts(sc, j, a, cands[..l], seen0).0[l']
      invariant forall l' :: l <= l' < |cands| ==> costs[k, l'] == 0.0
      invariant forall k', l' :: 0 <= k' < costs.Length0 && k' != k && 0 <= l' < costs.Length1 ==> costs[k', l'] == old(costs[k', l'])
    {
      RowCostsNext(sc, j, a, cands, seen0, l);
      seen := FillCell(sc, j, costs, k, l, a, seen);
    }
    assert cands[..|cands|] == cands;
  }

  /** The distance-`j` pass of round `i`: a zero-filled matrix with a row per
      current community and a column per community of timestep `i - j`,
      filled cell by cell. */
  method DistanceCosts(sc: Scope, j: nat, seen0: set<Node>) returns (costs: array2<real>, seen: set<Node>)
    requires ScopeOk(sc) && DistanceOk(sc, j)
    ensures costs.Length0 == |sc.ts[sc.i]| && costs.Length1 == |sc.ts[sc.i - j]|
    ensures Rows(costs) == DistanceMatrix(sc, j, sc.ts[sc.i], sc.ts[sc.i - j], seen0).0
    ensures seen == DistanceMatrix(sc, j, sc.ts[sc.i], sc.ts[sc.i - j], seen0).1
  {
    var bases, cands := sc.ts[sc.i], sc.ts[sc.i - j];
    costs := new real[|bases|, |cands|]((_, _) => 0.0);
    seen := seen0;
    for k := 0 to |bases|
      invariant seen == DistanceMatrix(sc, j, bases[..k], cands, seen0).1
      invariant forall k', l' :: 0 <= k' < k && 0 <= l' < |cands| ==>
        costs[k', l'] == DistanceMatrix(sc, j, bases[..k], cands, seen0).0[k'][l']
      invariant forall k', l' :: k <= k' < |bases| && 0 <= l' < |cands| ==> costs[k', l'] == 0.0
    {
      assert bases[..k + 1][..k] == bases[..k];
      seen := FillRow(sc, j, costs, k, bases[k].members, seen);
    }
    assert bases[..|bases|] == bases;
    ghost var m := DistanceMatrix(sc, j, bases, cands, seen0).0;
    assert forall k :: 0 <= k < |bases| ==> Rows(costs)[k] == m[k];
  }
}
