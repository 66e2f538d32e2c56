/** The matcher: per round, the per-distance cost matrices side by side,
    the names of their columns, one call of the assignment solver, and the
    threshold filter that records backward links. */
module Matcher {
  import opened Communities
  import opened Scoring

  /** (row, column) pairs chosen by the assignment solver. */
  type Pairing = seq<(nat, nat)>

  /** The assignment solver, given a cost matrix and its column count. */
  type Solver = (Matrix, nat) -> Pairing

  /** A one-to-one partial pairing of `rows` rows with `cols` columns. */
  ghost predicate IsAssignment(pairs: Pairing, rows: nat, cols: nat) {
    && (forall p :: 0 <= p < |pairs| ==> pairs[p].0 < rows && pairs[p].1 < cols)
    && (forall p, q :: 0 <= p < q < |pairs| ==> pairs[p].0 != pairs[q].0 && pairs[p].1 != pairs[q].1)
  }

  /** All the matcher relies on from the solver; which optimal pairing it
      picks, and how it breaks ties, is the solver's own business. */
  ghost predicate SolverContract(solve: Solver) {
    forall m: Matrix, cols: nat :: IsAssignment(solve(m, cols), |m|, cols)
  }

  /** The number of lookback distances of round `i`: `j` runs over
      `1..memory` and stops before `i - j` turns negative. */
  function Lookback(i: nat, memory: nat): (d: nat)
    ensures d <= memory && d <= i
    ensures d == memory || d == i
  {
    if i < memory then i else memory
  }

  /** The timesteps of the distances `1..d` of round `i`, nearest first. */
  function Timesteps(i: nat, d: nat): (r: seq<nat>)
    requires d <= i
    ensures |r| == d
    ensures forall b :: 0 <= b < d ==> r[b] == i - (b + 1)
  {
    seq(d, b requires 0 <= b < d => i - (b + 1))
  }

  /** The `seen` set of a round after the distances `1..d`: each distance
      pass starts from the set the one before it left behind. */
  ghost function SeenAfter(sc: Scope, d: nat): (r: set<Node>)
    requires ScopeOk(sc) && d <= sc.memory && d <= sc.i
    ensures forall n :: n in r ==> sc.i - sc.memory <= n.t < sc.i - 1
    decreases d
  {
    if d == 0 then {}
    else DistanceMatrix(sc, d, sc.ts[sc.i], sc.ts[sc.i - d], SeenAfter(sc, d - 1)).1
  }

  /** The `seen` set of a round holds only targets of recorded links. */
  lemma {:induction false} SeenAfterTargets(sc: Scope, d: nat)
    requires ScopeOk(sc) && d <= sc.memory && d <= sc.i
    ensures SeenAfter(sc, d) <= sc.links.Values
    decreases d
  {
    if d > 0 {
      SeenAfterTargets(sc, d - 1);
      DistanceMatrixTargets(sc, d, sc.ts[sc.i], sc.ts[sc.i - d], SeenAfter(sc, d - 1));
    }
  }

  /** The pass of distance `j`: its matrix and `seen` set, computed from
      the `seen` set that the distances before it left behind. */
  ghost function Layer(sc: Scope, j: nat): (Matrix, set<Node>)
    requires ScopeOk(sc) && DistanceOk(sc, j)
  {
    DistanceMatrix(sc, j, sc.ts[sc.i], sc.ts[sc.i - j], SeenAfter(sc, j - 1))
  }

  /** The block of distance `b + 1`. */
  ghost function Block(sc: Scope, b: nat): (m: Matrix)
    requires ScopeOk(sc) && b < sc.memory && b < sc.i
    ensures |m| == |sc.ts[sc.i]|
    ensures forall k :: 0 <= k < |m| ==> |m[k]| == |sc.ts[sc.i - (b + 1)]|
  {
    Layer(sc, b + 1).0
  }

  /** The blocks of distances `1..d` of a round, nearest first. */
  ghost function Blocks(sc: Scope, d: nat): (r: seq<Matrix>)
    requires ScopeOk(sc) && d <= sc.memory && d <= sc.i
    ensures |r| == d
    ensures forall b :: 0 <= b < d ==> |r[b]| == |sc.ts[sc.i]|
    ensures forall b, k :: 0 <= b < d && 0 <= k < |sc.ts[sc.i]| ==> |r[b][k]| == |sc.ts[sc.i - (b + 1)]|
  {
    seq(d, b requires 0 <= b < d => Block(sc, b))
  }

  /** Block `b` of a round is the distance-`b + 1` matrix computed from the
      `seen` set that the distances before it left behind. */
  lemma BlocksAt(sc: Scope, d: nat, b: nat)
    requires ScopeOk(sc) && d <= sc.memory && d <= sc.i && b < d
    ensures Blocks(sc, d)[b] == Layer(sc, b + 1).0
  {
  }

  /** The distances `1..d` extended by distance `d`. */
  lemma BlocksNext(sc: Scope, d: nat)
    requires ScopeOk(sc) && 1 <= d <= sc.memory && d <= sc.i
    ensures Blocks(sc, d) == Blocks(sc, d - 1) + [Layer(sc, d).0]
    ensures Timesteps(sc.i, d) == Timesteps(sc.i, d - 1) + [sc.i - d]
    ensures SeenAfter(sc, d) == Layer(sc, d).1
  {
    var now, before := Blocks(sc, d), Blocks(sc, d - 1);
    assert now[d - 1] == Block(sc, d - 1);
    assert now[..d - 1] == before by {
      forall b | 0 <= b < d - 1
        ensures now[b] == before[b]
      {
        assert now[b] == Block(sc, b) == before[b];
      }
    }
    LastSplit(now);
    TimestepsNext(sc.i, d);
  }

  lemma TimestepsNext(i: nat, d: nat)
    requires 1 <= d <= i
    ensures Timesteps(i, d) == Timesteps(i, d - 1) + [i - d]
  {
    assert Timesteps(i, d)[..d - 1] == Timesteps(i, d - 1);
    LastSplit(Timesteps(i, d));
  }

  lemma LastSplit<T>(s: seq<T>)
    requires s != []
    ensures s == s[..|s| - 1] + [s[|s| - 1]]
  {
  }

  /** Row `k` of the side-by-side concatenation of `blocks`. */
  function ConcatRow(blocks: seq<Matrix>, k: nat): seq<real>
    requires forall b :: 0 <= b < |blocks| ==> k < |blocks[b]|
    decreases |blocks|
  {
    if blocks == [] then []
    else ConcatRow(blocks[..|blocks| - 1], k) + blocks[|blocks| - 1][k]
  }

  /** The per-distance matrices side by side (`np.hstack`). */
  function HStack(blocks: seq<Matrix>, rows: nat): (m: Matrix)
    requires forall b :: 0 <= b < |blocks| ==> |blocks[b]| == rows
    ensures |m| == rows
    ensures forall k :: 0 <= k < rows ==> m[k] == ConcatRow(blocks, k)
  {
    seq(rows, k requires 0 <= k < rows => ConcatRow(blocks, k))
  }

  ghost predicate StepsIn(ts: Timeseries, tsteps: seq<nat>) {
    forall b :: 0 <= b < |tsteps| ==> tsteps[b] < |ts|
  }

  /** The total number of communities at the timesteps `tsteps`. */
  ghost function Width(ts: Timeseries, tsteps: seq<nat>): nat
    requires StepsIn(ts, tsteps)
    decreases |tsteps|
  {
    if tsteps == [] then 0
    else Width(ts, tsteps[..|tsteps| - 1]) + |ts[tsteps[|tsteps| - 1]]|
  }

  /** The node of every combined column, block after block. */
  ghost function ColumnNames(ts: Timeseries, tsteps: seq<nat>): (r: seq<Node>)
    requires StepsIn(ts, tsteps)
    ensures |r| == Width(ts, tsteps)
    ensures forall x :: 0 <= x < |r| ==> IsNode(ts, r[x]) && r[x].t in tsteps
    decreases |tsteps|
  {
    if tsteps == [] then []
    else
      var prefix := tsteps[..|tsteps| - 1];
      assert forall x :: x in prefix ==> x in tsteps;
      ColumnNames(ts, prefix) + NodesAt(ts, tsteps[|tsteps| - 1])
  }

  /** Blocks shaped like the communities of `tsteps`. */
  ghost predicate BlocksFit(ts: Timeseries, blocks: seq<Matrix>, tsteps: seq<nat>, rows: nat) {
    && |blocks| == |tsteps|
    && StepsIn(ts, tsteps)
    && (forall b :: 0 <= b < |blocks| ==> |blocks[b]| == rows)
    && (forall b, k :: 0 <= b < |blocks| && 0 <= k < rows ==> |blocks[b][k]| == |ts[tsteps[b]]|)
  }

  lemma {:induction false} ConcatRowWidth(ts: Timeseries, blocks: seq<Matrix>, tsteps: seq<nat>, rows: nat, k: nat)
    requires BlocksFit(ts, blocks, tsteps, rows) && k < rows
    ensures |ConcatRow(blocks, k)| == Width(ts, tsteps) == |ColumnNames(ts, tsteps)|
    decreases |blocks|
  {
    if blocks != [] {
      var n := |blocks| - 1;
      assert BlocksFit(ts, blocks[..n], tsteps[..n], rows);
      ConcatRowWidth(ts, blocks[..n], tsteps[..n], rows, k);
    }
  }

  /** Column `Width(tsteps[..b]) + o` is named after community `o` of
      timestep `tsteps[b]`: the names are listed block after block. */
  lemma {:induction false} ColumnNameAt(ts: Timeseries, tsteps: seq<nat>, b: nat, o: nat)
    requires StepsIn(ts, tsteps) && b < |tsteps| && o < |ts[tsteps[b]]|
    ensures Width(ts, tsteps[..b]) + o < |ColumnNames(ts, tsteps)|
    ensures ColumnNames(ts, tsteps)[Width(ts, tsteps[..b]) + o] == Node(tsteps[b], ts[tsteps[b]][o].name)
    decreases |tsteps|
  {
    var n := |tsteps| - 1;
    var prefix := tsteps[..n];
    assert StepsIn(ts, prefix);
    var front, back := ColumnNames(ts, prefix), NodesAt(ts, tsteps[n]);
    assert ColumnNames(ts, tsteps) == front + back;
    if b < n {
      assert prefix[..b] == tsteps[..b];
      ColumnNameAt(ts, prefix, b, o);
    } else {
      assert tsteps[..b] == prefix;
      assert |front| == Width(ts, prefix);
    }
  }

  /** Column `Width(tsteps[..b]) + o` of the combined matrix is column `o`
      of block `b`. */
  lemma {:induction false} ColumnAgreement(ts: Timeseries, blocks: seq<Matrix>, tsteps: seq<nat>, rows: nat, k: nat, b: nat, o: nat)
    requires BlocksFit(ts, blocks, tsteps, rows) && k < rows && b < |blocks| && o < |ts[tsteps[b]]|
    ensures Width(ts, tsteps[..b]) + o < |ConcatRow(blocks, k)|
    ensures ConcatRow(blocks, k)[Width(ts, tsteps[..b]) + o] == blocks[b][k][o]
    decreases |blocks|
  {
    var n := |blocks| - 1;
    assert BlocksFit(ts, blocks[..n], tsteps[..n], rows);
    ConcatRowWidth(ts, blocks, tsteps, rows, k);
    ConcatRowWidth(ts, blocks[..n], tsteps[..n], rows, k);
    if b < n {
      assert tsteps[..n][..b] == tsteps[..b];
      ColumnAgreement(ts, blocks[..n], tsteps[..n], rows, k, b, o);
    } else {
      assert tsteps[..b] == tsteps[..n];
    }
  }

  /** Cell `(k, Width(tsteps[..b]) + o)` of the stacked matrix is cell
      `(k, o)` of block `b`. */
  lemma StackedCell(ts: Timeseries, blocks: seq<Matrix>, tsteps: seq<nat>, rows: nat, k: nat, b: nat, o: nat)
    requires BlocksFit(ts, blocks, tsteps, rows) && k < rows && b < |blocks| && o < |ts[tsteps[b]]|
    ensures Width(ts, tsteps[..b]) + o < |HStack(blocks, rows)[k]|
    ensures HStack(blocks, rows)[k][Width(ts, tsteps[..b]) + o] == blocks[b][k][o]
  {
    ColumnAgreement(ts, blocks, tsteps, rows, k, b, o);
  }

  /** Every combined column lies in exactly one block: column `l` is column
      `r.1` of block `r.0`. */
  ghost function Locate(ts: Timeseries, tsteps: seq<nat>, l: nat): (r: (nat, nat))
    requires StepsIn(ts, tsteps) && l < Width(ts, tsteps)
    ensures r.0 < |tsteps| && r.1 < |ts[tsteps[r.0]]|
    ensures l == Width(ts, tsteps[..r.0]) + r.1
    decreases |tsteps|
  {
    var n := |tsteps| - 1;
    if l < Width(ts, tsteps[..n]) then
      var r := Locate(ts, tsteps[..n], l);
      assert tsteps[..n][..r.0] == tsteps[..r.0];
      r
    else
      (n, l - Width(ts, tsteps[..n]))
  }

  /** With unique labels and distinct timesteps, no two columns share a node. */
  lemma {:induction false} ColumnNamesDistinct(ts: Timeseries, tsteps: seq<nat>)
    requires WellFormed(ts) && StepsIn(ts, tsteps)
    requires forall b, c :: 0 <= b < c < |tsteps| ==> tsteps[b] != tsteps[c]
    ensures forall x, y :: 0 <= x < y < |ColumnNames(ts, tsteps)| ==> ColumnNames(ts, tsteps)[x] != ColumnNames(ts, tsteps)[y]
    decreases |tsteps|
  {
    if tsteps != [] {
      var n := |tsteps| - 1;
      var prefix := tsteps[..n];
      ColumnNamesDistinct(ts, prefix);
      var front, back := ColumnNames(ts, prefix), NodesAt(ts, tsteps[n]);
      assert ColumnNames(ts, tsteps) == front + back;
      forall x, y | 0 <= x < y < |front + back|
        ensures (front + back)[x] != (front + back)[y]
      {
        if y >= |front| && x < |front| {
          assert front[x].t in prefix;
          assert (front + back)[y].t == tsteps[n];
        } else if x >= |front| {
          assert UniqueNames(ts[tsteps[n]]);
          assert back[x - |front|].name == ts[tsteps[n]][x - |front|].name;
        }
      }
    }
  }

  /** Every solver pair indexes a row, a column name and a matrix cell. */
  ghost predicate PairsFit(pairs: Pairing, costs: Matrix, baseNames: seq<Label>, names: seq<Node>) {
    forall p :: 0 <= p < |pairs| ==>
      && pairs[p].0 < |baseNames| && pairs[p].0 < |costs|
      && pairs[p].1 < |names| && pairs[p].1 < |costs[pairs[p].0]|
  }

  /** The links recorded from the solver's pairs, in the order the solver
      lists them: a pair is kept when its cost is at most `-threshold`. */
  ghost function Accepted(i: nat, baseNames: seq<Label>, names: seq<Node>, costs: Matrix, threshold: real, pairs: Pairing): (r: Links)
    requires PairsFit(pairs, costs, baseNames, names)
    ensures forall x :: x in r ==> x.t == i && x.name in baseNames && r[x] in names
    decreases |pairs|
  {
    if pairs == [] then map[]
    else
      var n := |pairs| - 1;
      var prev := Accepted(i, baseNames, names, costs, threshold, pairs[..n]);
      if Kept(costs, threshold, pairs[n]) then prev[Node(i, baseNames[pairs[n].0]) := names[pairs[n].1]] else prev
  }

  ghost predicate RowsDistinct(pairs: Pairing) {
    forall p, q :: 0 <= p < q < |pairs| ==> pairs[p].0 != pairs[q].0
  }

  ghost predicate Distinct<T>(s: seq<T>) {
    forall x, y :: 0 <= x < y < |s| ==> s[x] != s[y]
  }

  /** The solver pair `pr` clears the threshold: its score, the negated
      cost, is at least the threshold, so equality is kept. */
  ghost predicate Kept(costs: Matrix, threshold: real, pr: (nat, nat)): (r: bool)
    requires pr.0 < |costs| && pr.1 < |costs[pr.0]|
    ensures r <==> threshold <= -costs[pr.0][pr.1]
    ensures !r <==> costs[pr.0][pr.1] > -threshold
  {
    costs[pr.0][pr.1] <= -threshold
  }

  /** Pair `p` is recorded exactly when it clears the threshold, and then it
      links its current node to the node of its column. */
  lemma {:induction false} AcceptedPair(i: nat, baseNames: seq<Label>, names: seq<Node>, costs: Matrix, threshold: real, pairs: Pairing, p: nat)
    requires PairsFit(pairs, costs, baseNames, names) && RowsDistinct(pairs) && Distinct(baseNames)
    requires p < |pairs|
    ensures var r := Accepted(i, baseNames, names, costs, threshold, pairs);
      && (Node(i, baseNames[pairs[p].0]) in r <==> Kept(costs, threshold, pairs[p]))
      && (Kept(costs, threshold, pairs[p]) ==> r[Node(i, baseNames[pairs[p].0])] == names[pairs[p].1])
    decreases |pairs|
  {
    var n := |pairs| - 1;
    var prefix := pairs[..n];
    assert PairsFit(prefix, costs, baseNames, names) && RowsDistinct(prefix);
    if p < n {
      AcceptedPair(i, baseNames, names, costs, threshold, prefix, p);
      assert prefix[p] == pairs[p];
      assert pairs[p].0 != pairs[n].0;
      assert baseNames[pairs[p].0] != baseNames[pairs[n].0];
      var prev := Accepted(i, baseNames, names, costs, threshold, prefix);
      var r := Accepted(i, baseNames, names, costs, threshold, pairs);
      assert r == if Kept(costs, threshold, pairs[n]) then prev[Node(i, baseNames[pairs[n].0]) := names[pairs[n].1]] else prev;
      assert Node(i, baseNames[pairs[p].0]) in r <==> Node(i, baseNames[pairs[p].0]) in prev;
    } else {
      var key := Node(i, baseNames[pairs[n].0]);
      if key in Accepted(i, baseNames, names, costs, threshold, prefix) {
        AcceptedOnly(i, baseNames, names, costs, threshold, prefix, key);
      }
    }
  }

  /** Every recorded link comes from a solver pair that clears the threshold. */
  lemma {:induction false} AcceptedOnly(i: nat, baseNames: seq<Label>, names: seq<Node>, costs: Matrix, threshold: real, pairs: Pairing, x: Node)
    requires PairsFit(pairs, costs, baseNames, names)
    requires x in Accepted(i, baseNames, names, costs, threshold, pairs)
    ensures exists p :: 0 <= p < |pairs| && x == Node(i, baseNames[pairs[p].0]) && Kept(costs, threshold, pairs[p])
    decreases |pairs|
  {
    var n := |pairs| - 1;
    var prefix := pairs[..n];
    assert PairsFit(prefix, costs, baseNames, names);
    if x in Accepted(i, baseNames, names, costs, threshold, prefix) {
      AcceptedOnly(i, baseNames, names, costs, threshold, prefix, x);
      var p :| 0 <= p < n && x == Node(i, baseNames[prefix[p].0]) && Kept(costs, threshold, prefix[p]);
      assert prefix[p] == pairs[p];
    } else {
      assert x == Node(i, baseNames[pairs[n].0]) && Kept(costs, threshold, pairs[n]);
    }
  }

  /** A solver pair is recorded exactly when its cost is at most
      `-threshold` (score at least the threshold, equality kept), and then
      it links its current node to the node of its column; nothing else is
      recorded. */
  lemma AcceptedExactly(i: nat, baseNames: seq<Label>, names: seq<Node>, costs: Matrix, threshold: real, pairs: Pairing)
    requires PairsFit(pairs, costs, baseNames, names) && RowsDistinct(pairs) && Distinct(baseNames)
    ensures var r := Accepted(i, baseNames, names, costs, threshold, pairs);
      && (forall p :: 0 <= p < |pairs| ==>
            (Node(i, baseNames[pairs[p].0]) in r <==> Kept(costs, threshold, pairs[p])))
      && (forall p :: 0 <= p < |pairs| && Kept(costs, threshold, pairs[p]) ==>
            r[Node(i, baseNames[pairs[p].0])] == names[pairs[p].1])
      && (forall x :: x in r ==>
            (exists p :: 0 <= p < |pairs| && x == Node(i, baseNames[pairs[p].0]) && Kept(costs, threshold, pairs[p])))
  {
    forall p | 0 <= p < |pairs| {
      AcceptedPair(i, baseNames, names, costs, threshold, pairs, p);
    }
    forall x | x in Accepted(i, baseNames, names, costs, threshold, pairs) {
      AcceptedOnly(i, baseNames, names, costs, threshold, pairs, x);
    }
  }

  /** For the same matrix and the same solver pairs, a higher threshold
      keeps a subset of the links, with the same targets. */
  lemma AcceptedMonotone(i: nat, baseNames: seq<Label>, names: seq<Node>, costs: Matrix, low: real, high: real, pairs: Pairing)
    requires PairsFit(pairs, costs, baseNames, names) && RowsDistinct(pairs) && Distinct(baseNames)
    requires low <= high
    ensures var hi, lo := Accepted(i, baseNames, names, costs, high, pairs), Accepted(i, baseNames, names, costs, low, pairs);
      forall x :: x in hi ==> x in lo && lo[x] == hi[x]
  {
    AcceptedExactly(i, baseNames, names, costs, high, pairs);
    AcceptedExactly(i, baseNames, names, costs, low, pairs);
  }

  /** With one-to-one solver pairs and distinct column names, no two links
      recorded in one round share a target. */
  lemma AcceptedTargetsDistinct(i: nat, baseNames: seq<Label>, names: seq<Node>, costs: Matrix, threshold: real, pairs: Pairing)
    requires PairsFit(pairs, costs, baseNames, names) && IsAssignment(pairs, |baseNames|, |names|)
    requires Distinct(baseNames) && Distinct(names)
    ensures var r := Accepted(i, baseNames, names, costs, threshold, pairs);
      forall x, y :: x in r && y in r && x != y ==> r[x] != r[y]
  {
    var r := Accepted(i, baseNames, names, costs, threshold, pairs);
    AcceptedExactly(i, baseNames, names, costs, threshold, pairs);
    forall x, y | x in r && y in r && x != y
      ensures r[x] != r[y]
    {
      var p :| 0 <= p < |pairs| && x == Node(i, baseNames[pairs[p].0]) && Kept(costs, threshold, pairs[p]);
      var q :| 0 <= q < |pairs| && y == Node(i, baseNames[pairs[q].0]) && Kept(costs, threshold, pairs[q]);
      assert p != q;
      assert pairs[p].1 != pairs[q].1;
    }
  }

  lemma RowWidths(ts: Timeseries, blocks: seq<Matrix>, tsteps: seq<nat>, rows: nat)
    requires BlocksFit(ts, blocks, tsteps, rows)
    ensures forall k :: 0 <= k < rows ==> |ConcatRow(blocks, k)| == |ColumnNames(ts, tsteps)|
  {
    forall k | 0 <= k < rows
      ensures |ConcatRow(blocks, k)| == |ColumnNames(ts, tsteps)|
    {
      ConcatRowWidth(ts, blocks, tsteps, rows, k);
    }
  }

  /** The node of every column of the combined cost matrix of round `sc.i`:
      a community at one of the `memory` timesteps before `sc.i`. */
  ghost function RoundNames(sc: Scope): (r: seq<Node>)
    requires ScopeOk(sc)
    ensures forall x :: 0 <= x < |r| ==> IsNode(sc.ts, r[x]) && sc.i - sc.memory <= r[x].t < sc.i
  {
    var tsteps := Timesteps(sc.i, Lookback(sc.i, sc.memory));
    assert forall t :: t in tsteps ==> sc.i - sc.memory <= t < sc.i;
    ColumnNames(sc.ts, tsteps)
  }

  /** The combined cost matrix of round `sc.i`: one row per current
      community, one column per name of `RoundNames`. */
  ghost function RoundCosts(sc: Scope): (m: Matrix)
    requires ScopeOk(sc)
    ensures |m| == |sc.ts[sc.i]|
    ensures forall k :: 0 <= k < |m| ==> |m[k]| == |RoundNames(sc)|
  {
    var d := Lookback(sc.i, sc.memory);
    var blocks, tsteps := Blocks(sc, d), Timesteps(sc.i, d);
    assert BlocksFit(sc.ts, blocks, tsteps, |sc.ts[sc.i]|);
    RowWidths(sc.ts, blocks, tsteps, |sc.ts[sc.i]|);
    HStack(blocks, |sc.ts[sc.i]|)
  }

  /** The combined column of community `o` of timestep `sc.i - (b + 1)`. */
  ghost function ColumnOf(sc: Scope, b: nat, o: nat): (c: nat)
    requires ScopeOk(sc) && b < Lookback(sc.i, sc.memory) && o < |sc.ts[sc.i - (b + 1)]|
    ensures c < |RoundNames(sc)|
  {
    var tsteps := Timesteps(sc.i, Lookback(sc.i, sc.memory));
    ColumnNameAt(sc.ts, tsteps, b, o);
    Width(sc.ts, tsteps[..b]) + o
  }

  /** The combined column of community `o` of timestep `sc.i - (b + 1)` is
      named after that community. */
  lemma RoundColumnName(sc: Scope, b: nat, o: nat)
    requires ScopeOk(sc) && b < Lookback(sc.i, sc.memory) && o < |sc.ts[sc.i - (b + 1)]|
    ensures RoundNames(sc)[ColumnOf(sc, b, o)] == Node(sc.i - (b + 1), sc.ts[sc.i - (b + 1)][o].name)
  {
    ColumnNameAt(sc.ts, Timesteps(sc.i, Lookback(sc.i, sc.memory)), b, o);
  }

  /** The cell in row `k` of that column is the cost of pairing current
      community `k` with it at distance `b + 1`, computed from the `seen`
      set that the distances before `b + 1` left behind. */
  lemma RoundColumnCost(sc: Scope, k: nat, b: nat, o: nat)
    requires ScopeOk(sc) && k < |sc.ts[sc.i]| && b < Lookback(sc.i, sc.memory) && o < |sc.ts[sc.i - (b + 1)]|
    ensures RoundCosts(sc)[k][ColumnOf(sc, b, o)]
         == Cell(sc, b + 1, sc.ts[sc.i][k].members, sc.ts[sc.i - (b + 1)][o], SeenAfter(sc, b)).0
  {
    RoundCostAt(sc, k, b, o);
    BlockCell(sc, Lookback(sc.i, sc.memory), k, b, o);
  }

  /** Cell `(k, o)` of block `b` is the cost of pairing current community
      `k` with community `o` at distance `b + 1`. */
  lemma BlockCell(sc: Scope, d: nat, k: nat, b: nat, o: nat)
    requires ScopeOk(sc) && d <= sc.memory && d <= sc.i && b < d
    requires k < |sc.ts[sc.i]| && o < |sc.ts[sc.i - (b + 1)]|
    ensures Blocks(sc, d)[b][k][o] == Cell(sc, b + 1, sc.ts[sc.i][k].members, sc.ts[sc.i - (b + 1)][o], SeenAfter(sc, b)).0
  {
    BlocksAt(sc, d, b);
    assert Layer(sc, b + 1) == DistanceMatrix(sc, b + 1, sc.ts[sc.i], sc.ts[sc.i - (b + 1)], SeenAfter(sc, b));
    DistanceMatrixAt(sc, b + 1, sc.ts[sc.i], sc.ts[sc.i - (b + 1)], SeenAfter(sc, b), k, o);
  }

  /** The cell in row `k` of that column is cell `(k, o)` of block `b`. */
  lemma RoundCostAt(sc: Scope, k: nat, b: nat, o: nat)
    requires ScopeOk(sc) && k < |sc.ts[sc.i]| && b < Lookback(sc.i, sc.memory) && o < |sc.ts[sc.i - (b + 1)]|
    ensures RoundCosts(sc)[k][ColumnOf(sc, b, o)] == Blocks(sc, Lookback(sc.i, sc.memory))[b][k][o]
  {
    var d := Lookback(sc.i, sc.memory);
    var blocks, tsteps := Blocks(sc, d), Timesteps(sc.i, d);
    RoundCostsStacked(sc);
    StackedCell(sc.ts, blocks, tsteps, |sc.ts[sc.i]|, k, b, o);
    ColumnOfWidth(sc, b, o);
  }

  lemma RoundCostsStacked(sc: Scope)
    requires ScopeOk(sc)
    ensures var d := Lookback(sc.i, sc.memory);
      forall b :: 0 <= b < d ==> |Blocks(sc, d)[b]| == |sc.ts[sc.i]|
    ensures var d := Lookback(sc.i, sc.memory);
      BlocksFit(sc.ts, Blocks(sc, d), Timesteps(sc.i, d), |sc.ts[sc.i]|)
    ensures RoundCosts(sc) == HStack(Blocks(sc, Lookback(sc.i, sc.memory)), |sc.ts[sc.i]|)
  {
  }

  lemma ColumnOfWidth(sc: Scope, b: nat, o: nat)
    requires ScopeOk(sc) && b < Lookback(sc.i, sc.memory) && o < |sc.ts[sc.i - (b + 1)]|
    ensures var tsteps := Timesteps(sc.i, Lookback(sc.i, sc.memory));
      StepsIn(sc.ts, tsteps) && ColumnOf(sc, b, o) == Width(sc.ts, tsteps[..b]) + o
  {
  }

  /** Every column of the combined matrix is the column of some community
      of the memory window (`ColumnOfInjective`: of only one). */
  lemma RoundColumnOrigin(sc: Scope, l: nat)
    requires ScopeOk(sc) && l < |RoundNames(sc)|
    ensures exists b: nat, o: nat :: b < Lookback(sc.i, sc.memory) && o < |sc.ts[sc.i - (b + 1)]| && l == ColumnOf(sc, b, o)
  {
    var tsteps := Timesteps(sc.i, Lookback(sc.i, sc.memory));
    var r := Locate(sc.ts, tsteps, l);
    assert r.0 < Lookback(sc.i, sc.memory) && l == ColumnOf(sc, r.0, r.1);
  }

  /** The blocks before block `c` are at least as wide as the blocks before
      an earlier block `b` together with block `b` itself. */
  lemma {:induction false} WidthMonotone(ts: Timeseries, tsteps: seq<nat>, b: nat, c: nat)
    requires StepsIn(ts, tsteps) && b < c <= |tsteps|
    ensures Width(ts, tsteps[..b]) + |ts[tsteps[b]]| <= Width(ts, tsteps[..c])
    decreases c
  {
    var p := tsteps[..c];
    assert p[..c - 1] == tsteps[..c - 1];
    if b < c - 1 {
      WidthMonotone(ts, tsteps, b, c - 1);
    }
  }

  /** Two communities of the memory window never share a column. */
  lemma ColumnOfInjective(sc: Scope, b: nat, o: nat, b': nat, o': nat)
    requires ScopeOk(sc) && b < Lookback(sc.i, sc.memory) && o < |sc.ts[sc.i - (b + 1)]|
    requires b' < Lookback(sc.i, sc.memory) && o' < |sc.ts[sc.i - (b' + 1)]|
    ensures ColumnOf(sc, b, o) == ColumnOf(sc, b', o') <==> b == b' && o == o'
  {
    var tsteps := Timesteps(sc.i, Lookback(sc.i, sc.memory));
    ColumnOfWidth(sc, b, o);
    ColumnOfWidth(sc, b', o');
    if b < b' {
      WidthMonotone(sc.ts, tsteps, b, b');
    } else if b' < b {
      WidthMonotone(sc.ts, tsteps, b', b);
    }
  }

  /** The links recorded in round `sc.i`. */
  ghost function RoundLinks(sc: Scope, threshold: real, solve: Solver): (r: Links)
    requires ScopeOk(sc) && SolverContract(solve)
    ensures forall x :: x in r ==>
      && x.t == sc.i && IsNode(sc.ts, x)
      && IsNode(sc.ts, r[x]) && sc.i - sc.memory <= r[x].t < sc.i
  {
    var costs, names := RoundCosts(sc), RoundNames(sc);
    var pairs := solve(costs, |names|);
    assert IsAssignment(pairs, |costs|, |names|);
    var r := Accepted(sc.i, Names(sc.ts[sc.i]), names, costs, threshold, pairs);
    assert forall x :: x in r ==> IsNode(sc.ts, x);
    r
  }

  /** `links` as the rounds before `n` leave it: every link leaves a
      community of a timestep in `1..n-1` and reaches a community at most
      `memory` timesteps before it. */
  ghost predicate Recorded(ts: Timeseries, memory: nat, links: Links, n: nat) {
    forall x :: x in links ==>
      && IsNode(ts, x) && IsNode(ts, links[x])
      && links[x].t < x.t <= links[x].t + memory && 1 <= x.t < n
  }

  /** Round `i` adds links out of timestep `i` only, into its memory window. */
  lemma RecordedStep(ts: Timeseries, memory: nat, links: Links, round: Links, i: nat)
    requires Recorded(ts, memory, links, i)
    requires forall x :: x in round ==>
      && x.t == i && IsNode(ts, x)
      && IsNode(ts, round[x]) && i - memory <= round[x].t < i
    ensures Recorded(ts, memory, links + round, i + 1)
  {
    var u := links + round;
    assert forall x :: x in u ==> if x in round then u[x] == round[x] else x in links && u[x] == links[x];
  }

  /** The links after the rounds `i..|ts| - 1`, run in order from `links`.
      Links only grow: every round writes keys of its own timestep, so a link
      recorded before round `i` is still there, with the same target, after
      all later rounds. */
  ghost function RoundsFrom(ts: Timeseries, memory: nat, w: seq<real>, threshold: real, solve: Solver, i: nat, links: Links): (r: Links)
    requires 1 <= i && (1 <= memory || |ts| <= i) && memory <= |w| && SolverContract(solve)
    requires Recorded(ts, memory, links, i)
    ensures Extends(links, r)
    decreases |ts| - i
  {
    if |ts| <= i then links
    else
      var round := RoundLinks(Scope(ts, links, i, memory, w), threshold, solve);
      RecordedStep(ts, memory, links, round, i);
      UnionExtends(links, round, i);
      var rest := RoundsFrom(ts, memory, w, threshold, solve, i + 1, links + round);
      ExtendsTrans(links, links + round, rest);
      rest
  }

  /** Every link of `lo` is in `hi`, with the same target. */
  ghost predicate Extends(lo: Links, hi: Links) {
    forall x :: x in lo ==> x in hi && hi[x] == lo[x]
  }

  lemma UnionExtends(prev: Links, round: Links, n: nat)
    requires forall x :: x in prev ==> x.t < n
    requires forall x :: x in round ==> x.t == n
    ensures Extends(prev, prev + round)
  {
  }

  lemma ExtendsTrans(a: Links, b: Links, c: Links)
    requires Extends(a, b) && Extends(b, c)
    ensures Extends(a, c)
  {
  }

  /** One round of the loop: round `i` adds its links, and the rounds from
      `i + 1` on continue from there. */
  lemma RoundsFromNext(ts: Timeseries, memory: nat, w: seq<real>, threshold: real, solve: Solver, i: nat, links: Links)
      returns (round: Links)
    requires 1 <= i < |ts| && 1 <= memory <= |w| && SolverContract(solve)
    requires Recorded(ts, memory, links, i)
    ensures round == RoundLinks(Scope(ts, links, i, memory, w), threshold, solve)
    ensures Recorded(ts, memory, links + round, i + 1)
    ensures Extends(links, links + round)
    ensures RoundsFrom(ts, memory, w, threshold, solve, i, links)
         == RoundsFrom(ts, memory, w, threshold, solve, i + 1, links + round)
  {
    round := RoundLinks(Scope(ts, links, i, memory, w), threshold, solve);
    RecordedStep(ts, memory, links, round, i);
    UnionExtends(links, round, i);
  }

  /** Whatever the rounds record points backward into the memory window. */
  lemma {:induction false} RoundsFromShape(ts: Timeseries, memory: nat, w: seq<real>, threshold: real, solve: Solver, i: nat, links: Links)
    requires 1 <= i && (1 <= memory || |ts| <= i) && memory <= |w| && SolverContract(solve)
    requires Recorded(ts, memory, links, i)
    ensures var r := RoundsFrom(ts, memory, w, threshold, solve, i, links);
      LinksInto(ts, r) && Backward(r) && WithinMemory(r, memory)
    decreases |ts| - i
  {
    if i < |ts| {
      var round := RoundsFromNext(ts, memory, w, threshold, solve, i, links);
      RoundsFromShape(ts, memory, w, threshold, solve, i + 1, links + round);
    }
  }

  /** With unique labels the column names of a round are distinct. */
  lemma RoundNamesDistinct(sc: Scope)
    requires ScopeOk(sc) && WellFormed(sc.ts)
    ensures Distinct(RoundNames(sc))
  {
    ColumnNamesDistinct(sc.ts, Timesteps(sc.i, Lookback(sc.i, sc.memory)));
  }

  /** The links of a round are those its solver pairs make clear the threshold. */
  lemma RoundLinksAccepted(sc: Scope, threshold: real, solve: Solver)
    requires ScopeOk(sc) && SolverContract(solve)
    ensures var costs, names := RoundCosts(sc), RoundNames(sc);
      var pairs := solve(costs, |names|);
      && IsAssignment(pairs, |costs|, |names|)
      && PairsFit(pairs, costs, Names(sc.ts[sc.i]), names)
      && RoundLinks(sc, threshold, solve) == Accepted(sc.i, Names(sc.ts[sc.i]), names, costs, threshold, pairs)
  {
  }

  /** With unique labels and a one-to-one solver, no two links recorded in
      one round share a target. */
  lemma RoundTargetsDistinct(sc: Scope, threshold: real, solve: Solver)
    requires ScopeOk(sc) && SolverContract(solve) && WellFormed(sc.ts)
    ensures var r := RoundLinks(sc, threshold, solve);
      forall x, y :: x in r && y in r && x != y ==> r[x] != r[y]
  {
    RoundLinksAccepted(sc, threshold, solve);
    RoundNamesDistinct(sc);
    assert UniqueNames(sc.ts[sc.i]);
    var costs, names := RoundCosts(sc), RoundNames(sc);
    AcceptedTargetsDistinct(sc.i, Names(sc.ts[sc.i]), names, costs, threshold, solve(costs, |names|));
  }

  /** What `match` returns: the links of the rounds `1..|ts| - 1`. */
  ghost function MatchSpec(ts: Timeseries, memory: nat, given: Option<seq<real>>, threshold: real, solve: Solver): (links: Links)
    requires (1 <= memory || |ts| <= 1) && WeightsFit(memory, given) && SolverContract(solve)
    ensures LinksInto(ts, links) && Backward(links) && WithinMemory(links, memory)
  {
    var w := EffectiveWeights(memory, given);
    RoundsFromShape(ts, memory, w, threshold, solve, 1, map[]);
    RoundsFrom(ts, memory, w, threshold, solve, 1, map[])
  }

  /** The inner loop of a round: one cost block per lookback distance,
      nearest first, threading the round's `seen` set. */
  method LookbackBlocks(sc: Scope) returns (allCosts: seq<Matrix>, timesteps: seq<nat>)
    requires ScopeOk(sc)
    ensures allCosts == Blocks(sc, Lookback(sc.i, sc.memory))
    ensures timesteps == Timesteps(sc.i, Lookback(sc.i, sc.memory))
  {
    allCosts, timesteps := [], [];
    var seen: set<Node> := {};
    var j := 1;
    while j <= sc.memory
      invariant 1 <= j <= sc.memory + 1 && j - 1 <= sc.i
      invariant allCosts == Blocks(sc, j - 1)
      invariant timesteps == Timesteps(sc.i, j - 1)
      invariant seen == SeenAfter(sc, j - 1)
    {
      if sc.i - j < 0 {
        break;
      }
      BlocksNext(sc, j);
      assert Layer(sc, j) == DistanceMatrix(sc, j, sc.ts[sc.i], sc.ts[sc.i - j], seen);
      var costs, seen' := DistanceCosts(sc, j, seen);
      seen := seen';
      allCosts := allCosts + [Rows(costs)];
      timesteps := timesteps + [sc.i - j];
      j := j + 1;
    }
    assert j - 1 == Lookback(sc.i, sc.memory);
  }

  /** The names of the combined columns, block after block. */
  method ColumnNamesOf(ts: Timeseries, timesteps: seq<nat>) returns (names: seq<Node>)
    requires StepsIn(ts, timesteps)
    ensures names == ColumnNames(ts, timesteps)
  {
    names := [];
    for b := 0 to |timesteps|
      invariant names == ColumnNames(ts, timesteps[..b])
    {
      assert timesteps[..b + 1][..b] == timesteps[..b];
      names := names + NodesAt(ts, timesteps[b]);
    }
    assert timesteps[..|timesteps|] == timesteps;
  }

  /** The filter over the solver's pairs: a pair whose cost is above
      `-threshold` is skipped, any other one is recorded as a link. */
  method Record(links0: Links, i: nat, baseNames: seq<Label>, names: seq<Node>, costs: Matrix, threshold: real, matches: Pairing)
      returns (links: Links)
    requires PairsFit(matches, costs, baseNames, names)
    ensures links == links0 + Accepted(i, baseNames, names, costs, threshold, matches)
  {
    links := links0;
    for m := 0 to |matches|
      invariant links == links0 + Accepted(i, baseNames, names, costs, threshold, matches[..m])
    {
      assert matches[..m + 1][..m] == matches[..m];
      var (k, l) := matches[m];
      if costs[k][l] <= -threshold {
        links := links[Node(i, baseNames[k]) := names[l]];
      }
    }
    assert matches[..|matches|] == matches;
  }

  /** One round of `match`: the links recorded for the communities of
      timestep `i`, added to those of the rounds before it. */
  method MatchRound(ts: Timeseries, memory: nat, w: seq<real>, threshold: real, solve: Solver, i: nat, links0: Links)
      returns (links: Links)
    requires 1 <= i < |ts| && 1 <= memory <= |w| && SolverContract(solve)
    requires Recorded(ts, memory, links0, i)
    ensures links == links0 + RoundLinks(Scope(ts, links0, i, memory, w), threshold, solve)
    ensures Recorded(ts, memory, links, i + 1)
  {
    var sc := Scope(ts, links0, i, memory, w);
    assert ScopeOk(sc);
    var base := ts[i];
    var allCosts, timesteps := LookbackBlocks(sc);
    var costs := HStack(allCosts, |base|);
    var names := ColumnNamesOf(ts, timesteps);
    assert costs == RoundCosts(sc) && names == RoundNames(sc);
    RoundLinksAccepted(sc, threshold, solve);
    var matches := solve(costs, |names|);
    links := Record(links0, i, Names(base), names, costs, threshold, matches);
    RecordedStep(ts, memory, links0, RoundLinks(sc, threshold, solve), i);
  }

  /** The keyword defaults of `match`: `memory = 2`, no memory weights and
      `score_threshold = .1`. */
  const DefaultMemory: nat := 2
  const DefaultThreshold: real := 0.1

  /** `match`: for every timestep after the first, score the current
      communities against the memory window, solve the assignment and record
      the links that clear the threshold. */
  method Match(ts: Timeseries, memory: nat, memoryWeights: Option<seq<real>>, scoreThreshold: real, solve: Solver)
      returns (links: Links)
    requires 1 <= memory || |ts| <= 1
    requires WeightsFit(memory, memoryWeights) && SolverContract(solve)
    ensures links == MatchSpec(ts, memory, memoryWeights, scoreThreshold, solve)
    ensures LinksInto(ts, links) && Backward(links) && WithinMemory(links, memory)
  {
    var w := EffectiveWeights(memory, memoryWeights);
    ghost var spec := MatchSpec(ts, memory, memoryWeights, scoreThreshold, solve);
    links := map[];
    var i := 1;
    while i < |ts|
      invariant 1 <= i
      invariant Recorded(ts, memory, links, i)
      invariant RoundsFrom(ts, memory, w, scoreThreshold, solve, i, links) == spec
    {
      links := MatchRound(ts, memory, w, scoreThreshold, solve, i, links);
      i := i + 1;
    }
  }
}
