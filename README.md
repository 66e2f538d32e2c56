# Memory community matching, modelled in Dafny

This project models `matching.py` of memory_community_matching. That file turns
per-snapshot community detections into temporal communities in three steps:

- **`match`** walks the timesteps `1 .. n-1`. At timestep `i` it scores every
  current community against every community of the last `memory` timesteps.
  A score is the Jaccard index scaled by a per-distance weight. It is extended
  along the backward links that earlier rounds recorded, and the nodes it
  visits that way are marked *seen* and not scored again in that round. The
  negated scores of all distances are stacked side by side into one cost
  matrix and handed to an assignment solver. Each pair whose cost is at most
  `-score_threshold` is recorded as a backward link from `(i, label)` to a
  node `(t, label')`.
- **`aggregate_temporal_communities`** follows every link to the oldest node
  of its chain, the *root*, using a memo from processed keys to their roots.
  It groups the nodes by root.
- **`matching`** composes the two and lists the groups.

Layout, one module per file:

- `communities.dfy` (`Communities`) holds the data.
  - A snapshot is a sequence of labelled member sets, in the snapshot
    dict's order.
  - A node is a `(timestep, label)` pair.
  - The link dictionary is a `map<Node, Node>`.
- `scoring.dfy` (`Scoring`) holds one cost matrix: weights, Jaccard index,
  the chain walk and the `seen` set. `DistanceCosts` fills an `array2` cell by
  cell, as the nested `k`/`l` loops do.
- `matcher.dfy` (`Matcher`) holds `match`.
  - the memory window;
  - stacking of the per-distance matrices and the column names;
  - the threshold filter;
  - one round (`MatchRound`);
  - the round loop (`Match`).
- `aggregator.dfy` (`Aggregation`) holds the chain aggregator: `WalkChain`,
  `AddChain` and `Aggregate`.
- `driver.dfy` (`Driver`) holds `matching`.
- `scenario.dfy` (`Scenario`) follows the repository's test series through
  `match` and `matching`: the cost matrices of its two rounds, the links
  they record, and the temporal communities those links give.

Every loop of the source is a Dafny method with loop invariants. Each method
is proved equal to a ghost function that states what it computes:

| method | specification function |
|---|---|
| `ExtendChain` | `ChainFrom` |
| `DistanceCosts` | `DistanceMatrix` |
| `LookbackBlocks` | `Blocks` |
| `Match` | `MatchSpec` |
| `Aggregate` | `GroupsOf` |

The lemmas beside them state the source's properties about those functions.

Scores are exact `real`s. The solver `linear_sum_assignment` is a parameter
`solve`. Its contract (`SolverContract`) is only that it returns a one-to-one
pairing of rows to columns that stays in bounds.

## Model

| member | source | states |
|---|---|---|
| Communities.IndexOf | matching.py:125 | looking a label up in a snapshot finds the first community with that label |
| Communities.Names | matching.py:152 | `list(timeseries[i].keys())`: one label per community, in snapshot order |
| Communities.IndexOfUnique | matching.py:125 | with unique labels, the lookup of a community's label finds that community |
| Communities.Members | matching.py:125 | `timeseries[t][name]`: the member set of a community of timestep `t` labelled `name`, and with unique labels of the only one |
| Communities.NodesAt | matching.py:155 | the column nodes of timestep `t` are `(t, label)` for each community of the snapshot, in order, and each is a node of the series |
| Scoring.Jaccard | matching.py:96-100 | for overlapping sets the Jaccard index lies in (0, 1] and equals 1 exactly when the two sets are equal |
| Scoring.DefaultWeights | matching.py:51-52 | the default kernel has exactly `memory` weights; weight `d` is `1/(d+1)`; all lie in (0, 1]; they strictly decrease with distance |
| Scoring.EffectiveWeights | matching.py:51-52 | a falsy `memory_weights` (None or empty) is replaced by the default kernel; any other value is kept; either way there are at least `memory` weights |
| Scoring.HopScore | matching.py:125-131 | a chain hop whose community does not overlap the base adds 0; with a nonnegative weight a hop never lowers the score |
| Scoring.ChainFrom | matching.py:109-133 | every node the chain walk marks seen lies in the window `[i-memory, t)` below the start node; the next link, when it is inside the window, is among them |
| Scoring.DirectScore | matching.py:100-101 | the weighted Jaccard score of a direct pair is nonnegative when its weight is |
| Scoring.Cell | matching.py:89-140 | filling one cell only adds to `seen`, and only nodes in `[i-memory, i-j)`; a candidate already seen, or one with no overlap, leaves cost 0 and `seen` unchanged |
| Scoring.RowCosts | matching.py:87-140 | a row has one cost per candidate; `seen` only grows, and only by nodes in `[i-memory, i-j)` |
| Scoring.DistanceMatrix | matching.py:80-140 | the matrix of distance `j` has one row per base community and one column per candidate; `seen` only grows, and only by nodes older than `i-j` |
| Scoring.CellSameLayer | matching.py:89-94 | a cell's cost depends on `seen` only through whether the candidate itself is seen, so nodes marked seen at older timesteps never change costs at distance `j` |
| Scoring.RowCostsAt | matching.py:87-140 | entry `l` of a row is the cell cost of candidate `l` given the `seen` set at that point |
| Scoring.DistanceMatrixAt | matching.py:84-140 | entry `(k, l)` of the distance-`j` matrix is the cell cost of base `k` against candidate `l` |
| Scoring.AddHop | matching.py:125-131 | the score after a hop is the score before plus that hop's weighted Jaccard index, with the weight index `i-t-1` in bounds |
| Scoring.ExtendChain | matching.py:109-138 | the `while True` walk adds exactly the chain score to the running score and exactly the chain's nodes to `seen` |
| Scoring.Rows | matching.py:80-81 | the rows of a 2-D array have its shape and its entries |
| Scoring.ScoreCandidate | matching.py:96-140 | scoring an unseen overlapping candidate yields the cell's cost (negated) and its new `seen` set |
| Scoring.FillCell | matching.py:89-140 | writing a cell stores its cost, leaves every other entry of the matrix unchanged, and returns the cell's `seen` |
| Scoring.FillRow | matching.py:87-140 | the `l` loop stores row `k`'s costs, leaves the other rows unchanged, and returns the row's `seen` |
| Scoring.DistanceCosts | matching.py:77-140 | the `k`/`l` loops build exactly the distance-`j` matrix, starting from all zeros, and the resulting `seen` set |
| Scoring.ChainTargets | matching.py:116-133 | the chain walk marks seen only nodes it reached as the target of a recorded link |
| Scoring.CellTargets | matching.py:89-133 | filling a cell adds to `seen` only targets of recorded links |
| Scoring.RowCostsTargets | matching.py:87-133 | so does filling a row |
| Scoring.DistanceMatrixTargets | matching.py:84-133 | so does filling the whole distance-`j` matrix |
| Matcher.Lookback | matching.py:68-73 | round `i` looks back `min(memory, i)` distances: the loop stops at `memory` or at the start of the series |
| Matcher.Timesteps | matching.py:146 | the timesteps compared in round `i` are `i-1, i-2, ...` in that order |
| Matcher.SeenAfter | matching.py:64-133 | after `d` distances of a round, every node in `seen` lies in `[i-memory, i-1)`: none is at the current or the previous timestep |
| Matcher.SeenAfterTargets | matching.py:64-133 | the `seen` set of a round, started empty, holds only targets of links recorded by earlier rounds |
| Matcher.BlocksNext | matching.py:68-146 | each pass of the `j` loop appends the distance-`j` matrix and timestep `i-j`, and hands its `seen` set on to the next distance |
| Matcher.TimestepsNext | matching.py:146 | each pass appends `i-j` to `timesteps` |
| Matcher.HStack | matching.py:151 | the stacked matrix keeps the row count, and each row is the concatenation of that row of every block |
| Matcher.ColumnNames | matching.py:153-155 | the column names are nodes of the series, one per column, taken from the compared timesteps |
| Matcher.ConcatRowWidth | matching.py:151-155 | each stacked row is exactly as wide as the list of column names |
| Matcher.WidthMonotone | matching.py:151 | the blocks stacked before block `c` are at least as wide as those before an earlier block `b` together with `b` |
| Matcher.ColumnNameAt | matching.py:153-155 | column `offset(b) + o` is named by candidate `o` of timestep `timesteps[b]` |
| Matcher.ColumnAgreement | matching.py:151 | column `offset(b) + o` of a stacked row holds entry `o` of that row of block `b` |
| Matcher.StackedCell | matching.py:151 | the same, for the stacked matrix |
| Matcher.Locate | matching.py:151-155 | every column falls inside exactly the block and offset it came from |
| Matcher.ColumnNamesDistinct | matching.py:153-155 | with unique labels and distinct timesteps, no two columns have the same name |
| Matcher.Accepted | matching.py:162-171 | every recorded link goes from a current node to a column name |
| Matcher.Kept | matching.py:166-167 | a pair is kept exactly when its score (the negated cost) is at least the threshold, and skipped exactly when its cost is greater than `-score_threshold` |
| Matcher.AcceptedPair | matching.py:162-171 | a solver pair is recorded if and only if its cost is at most `-score_threshold` (a tie is kept), and then it links its row's node to its column's name |
| Matcher.AcceptedOnly | matching.py:162-171 | every recorded link comes from a solver pair whose cost passed the threshold |
| Matcher.AcceptedExactly | matching.py:162-171 | both directions together: the recorded links are exactly the threshold-passing solver pairs, with their targets |
| Matcher.AcceptedMonotone | matching.py:166-167 | on the same costs and pairs, raising the threshold keeps a subset of the links, with the same targets |
| Matcher.AcceptedTargetsDistinct | matching.py:158-171 | with a one-to-one solver and distinct names, no two links recorded from one matrix share a target |
| Matcher.RowWidths | matching.py:151 | every stacked row is as wide as the column list |
| Matcher.RoundNames | matching.py:152-155 | every column of round `i` names a node of the series at a timestep in `[i-memory, i)` |
| Matcher.RoundCosts | matching.py:151 | round `i`'s cost matrix has one row per current community and one column per column name |
| Matcher.ColumnOf | matching.py:151-155 | the column of candidate `o` at distance `b+1` lies inside the stacked matrix |
| Matcher.RoundColumnName | matching.py:151-155 | that column is named `(i-(b+1), label of o)` |
| Matcher.RoundColumnCost | matching.py:140-151 | that column of row `k` holds the cell cost of base `k` against candidate `o` at distance `b+1`, computed with the `seen` set left by the earlier distances |
| Matcher.BlockCell | matching.py:84-145 | entry `(k, o)` of the `b`-th appended matrix is that cell cost |
| Matcher.RoundCostAt | matching.py:151 | the column of candidate `o` at distance `b+1` holds that block's entry |
| Matcher.RoundColumnOrigin | matching.py:151-155 | every column of round `i` is the column of some candidate at some distance in the window |
| Matcher.ColumnOfInjective | matching.py:151-155 | two communities of the memory window share a column only if they are the same community at the same distance |
| Matcher.RoundLinks | matching.py:158-171 | every link recorded in round `i` goes from a node `(i, label)` of the series to a node at a timestep in `[i-memory, i)` |
| Matcher.RecordedStep | matching.py:55-171 | adding one round's links keeps every link backward, inside the memory window and keyed by an already processed timestep |
| Matcher.RoundsFrom | matching.py:55-171 | the rounds `i .. n-1`, run in order from the links recorded so far, keep every earlier link unchanged: each round writes only keys of its own timestep |
| Matcher.RoundsFromShape | matching.py:55-171 | the links of all rounds from `i` on point into the series, strictly backward in time and at most `memory` steps back |
| Matcher.UnionExtends | matching.py:170-171 | a round writes only keys of its own timestep, so it never overwrites an earlier link |
| Matcher.RoundNamesDistinct | matching.py:152-155 | with unique labels, the column names of a round are distinct |
| Matcher.RoundTargetsDistinct | matching.py:158-171 | with a one-to-one solver and unique labels, no two links of one round share a target |
| Matcher.MatchSpec | matching.py:9-174 | the links `match` returns point into the series, strictly backward and at most `memory` steps back, so the link graph is acyclic |
| Matcher.LookbackBlocks | matching.py:63-146 | the `j` loop appends exactly the per-distance matrices and timesteps `i-1, ..., i-min(memory,i)` |
| Matcher.ColumnNamesOf | matching.py:153-155 | the names loop lists exactly the column names of the compared timesteps |
| Matcher.Record | matching.py:162-171 | the filter loop adds exactly the accepted links to the dictionary |
| Matcher.MatchRound | matching.py:57-171 | one round adds exactly that round's accepted links and keeps the links backward and inside the window |
| Matcher.Match | matching.py:9-174 | `match` returns exactly the links of all rounds, and they point into the series, strictly backward and at most `memory` steps back |
| Aggregation.Root | matching.py:194-208 | following links ends at a node with no link, no later than the start; a node with no link is its own root |
| Aggregation.Path | matching.py:191-208 | the chain of a node contains the node |
| Aggregation.PathRoot | matching.py:194-213 | the root lies on the chain, and every node of the chain has the same root |
| Aggregation.PathInNodes | matching.py:191-208 | the chain of a linked node consists of linked nodes |
| Aggregation.PartialComplete | matching.py:187-217 | once every key has been processed, the partial groups are the groups |
| Aggregation.GroupsOf | matching.py:184-217 | the reference result of the aggregator: every root reached from a key, mapped to the linked nodes whose chain ends at it |
| Aggregation.CoveredStep | matching.py:213 | processing key `k` adds exactly `k`'s chain to the covered nodes |
| Aggregation.CoveredHas | matching.py:213 | a processed key's chain is covered |
| Aggregation.GroupWithinUnion | matching.py:213 | a group of a union of node sets is the union of the groups |
| Aggregation.GroupWithinPath | matching.py:213 | a chain belongs entirely to its root's group and to no other |
| Aggregation.GroupWithinFresh | matching.py:213 | a root that no processed key reaches has no covered nodes yet |
| Aggregation.RootsStep | matching.py:213 | processing key `k` adds exactly `k`'s root to the group keys |
| Aggregation.PartialStepAt | matching.py:191-215 | processing key `k` adds its walked chain to the group of `k`'s root and leaves every other group unchanged |
| Aggregation.PartialStep | matching.py:191-215 | the same for the whole group map |
| Aggregation.WalkChain | matching.py:191-208 | the walk, with the memo shortcut, ends at `k`'s root; it collects only nodes of `k`'s chain, and every node of the chain it skips is already covered |
| Aggregation.AddChain | matching.py:191-215 | one pass of the `for` loop records `k`'s root in the memo and leaves the groups of the processed keys |
| Aggregation.Aggregate | matching.py:178-217 | `aggregate_temporal_communities` returns exactly the root-keyed groups, whatever order the keys are visited in |
| Aggregation.GroupsHeads | matching.py:184-217 | every group key is a root, lies in its own group, and its group has at least two nodes |
| Aggregation.GroupsMembers | matching.py:184-217 | a node lies in a group if and only if it is linked, and then the group is the one keyed by its root |
| Aggregation.GroupsPartition | matching.py:184-217 | the groups are pairwise disjoint, each has at least two nodes, and together they are exactly the linked nodes |
| Aggregation.LinkedSameGroup | matching.py:194-213 | the two ends of a link have the same root and lie in the same group |
| Driver.ValuesOf | matching.py:229 | `list(d.values())` lists the value of each key exactly once, so it holds exactly the values of the map |
| Driver.ListedValues | matching.py:229 | the listed sets are exactly the values of the groups |
| Driver.ListedDisjoint | matching.py:229 | the listed sets are pairwise disjoint |
| Driver.ListedCover | matching.py:229 | a node lies in some listed set if and only if it is linked |
| Driver.ListedSizes | matching.py:229 | every listed set has at least two nodes |
| Driver.ListedGroups | matching.py:229 | listing each group once gives a list of disjoint sets of at least two nodes, covering exactly the linked nodes |
| Driver.Matching | matching.py:220-229 | `matching` returns exactly the temporal communities of the links `match` records: pairwise disjoint, each of at least two nodes, covering exactly the linked nodes |
| Driver.MatchingDefaults | matching.py:9-10 | `matching(timeseries)` with `memory = 2`, no weights and `score_threshold = .1` gives the same listing of disjoint temporal communities |
| Driver.ShortSeriesNoCommunities | matching.py:55 | a series of at most one snapshot gives no links and no temporal community |
| Driver.UnlinkedInNone | matching.py:184-229 | a node that no link leaves or reaches is in no temporal community |
| Scenario.TestRoots | test.py:8-24 | in the test series' links, every node of each expected set has that set's root |
| Scenario.TestGroupsOf | test.py:24 | aggregating the test series' links gives exactly the three expected root-keyed groups |
| Scenario.TestGroups | test.py:24-30 | the groups of the test series' links are the three expected sets, and `(1, 'yellow')` is in none of them |
| Scenario.TestWeights | matching.py:51-52 | with `memory = 2` and no weights the kernel is `[1, 1/2]` |
| Scenario.TestSolver | matching.py:158 | the stand-in solver returns a one-to-one, in-bounds pairing for every matrix |
| Scenario.TestSolverContract | matching.py:158 | so it meets the solver contract |
| Scenario.OneBlockColumns | matching.py:68-155 | round 1 compares with timestep 0 alone: column `o` is community `o` of timestep 0, named `(0, label)` |
| Scenario.OneBlockCost | matching.py:64-151 | round 1's entry `(k, o)` is the cell of community `k` against community `o` of timestep 0, from an empty `seen` set |
| Scenario.TwoBlocksColumns | matching.py:68-155 | a round at `i = 2` with `memory = 2` has timestep 1's columns first and timestep 0's after them |
| Scenario.TwoBlocksNames | matching.py:152-155 | those columns are named `(1, label)` and then `(0, label)` |
| Scenario.TwoBlocksNear | matching.py:64-151 | the timestep-1 block is scored from an empty `seen` set |
| Scenario.TwoBlocksFar | matching.py:64-151 | the timestep-0 block is scored from the `seen` set the timestep-1 block leaves, which holds only link targets |
| Scenario.CellUnlinked | matching.py:89-101 | an unseen overlapping candidate that heads no link costs minus its Jaccard index times the distance weight |
| Scenario.CellOneHop | matching.py:89-133 | a candidate whose link leads, inside the window, to a node heading no link adds that hop's Jaccard index times the hop's own distance weight |
| Scenario.FarUnlinked | matching.py:89-151 | at `i = 2`, a timestep-0 candidate that no link leaves or reaches costs its direct weighted score alone |
| Scenario.Round1VioletCost | test.py:10-15 | round 1 costs violet 1 against violet 0 at `-3/5` |
| Scenario.Round1GreenCost | test.py:10-15 | round 1 costs green 1 against green 0 at `-2/3` |
| Scenario.Round1YellowCost | test.py:10-16 | round 1 costs yellow 1 against orange 0 at 0: they do not overlap |
| Scenario.Round1Accepted | matching.py:162-171 | on round 1's pairing the filter records violet and green and drops the yellow-orange pair |
| Scenario.Round1LinksOf | test.py:8-16 | round 1 of the test series records exactly violet 1 → violet 0 and green 1 → green 0 |
| Scenario.Round2Violet | test.py:14-20 | violet 2 against violet 1 costs `-7/8`: `1/2` directly plus `3/4 · 1/2` through the link to violet 0 |
| Scenario.Round2Green | test.py:14-20 | green 2 against green 1 costs `-2/3`: `1/3` directly plus `2/3 · 1/2` through the link to green 0 |
| Scenario.Round2OrangeCost | test.py:10-18 | round 2 costs orange 2 against orange 0, two steps back, at `-1/2` |
| Scenario.Round2VioletCost | test.py:14-20 | round 2's stacked matrix holds `-7/8` for violet 2 against violet 1 |
| Scenario.Round2GreenCost | test.py:14-20 | round 2's stacked matrix holds `-2/3` for green 2 against green 1 |
| Scenario.Round2Accepted | matching.py:162-171 | on round 2's pairing all three pairs clear the threshold |
| Scenario.Round2LinksOf | test.py:8-22 | round 2 records exactly orange 2 → orange 0, violet 2 → violet 1 and green 2 → green 1 |
| Scenario.TestMatch | test.py:30 | `match` on the test series with `memory = 2` and the default threshold records exactly the expected links |
| Scenario.TestMatching | test.py:24-48 | `matching(timeseries, 2)` returns exactly the three expected temporal communities, and `(1, 'yellow')` is in none of them |

## Left out

- `print('step', i)` (matching.py:58) is console output with no effect on the result.
- Floating point. Jaccard indices, weights and scores are exact `real`s, so rounding in the `>` comparison of the threshold filter is not modelled.
- numpy's `zeros`, `hstack` and `dstack` become an `array2` of zeros, sequence concatenation (`HStack`) and a sequence of pairs.
- `linear_sum_assignment`'s algorithm, its optimality and its tie-breaking.
  - It is the parameter `solve: (Matrix, nat) -> seq<(nat, nat)>`.
  - `SolverContract` assumes only that the pairing is one-to-one and in bounds.
  - No property here depends on which optimal pairing the solver picks.
- Dict iteration order.
  - A snapshot is a sequence in its dict's order.
  - `Aggregate` visits the link keys in an arbitrary order (`:|`) and is proved order-independent.
  - `Driver.ValuesOf` lists the groups in an arbitrary order.
- Matcher.AcceptedMonotone: raising `score_threshold` keeps a subset of the links only within one round, on the same cost matrix and solver pairing. Over a whole series this fails in general. A link dropped in an early round changes the chains, and with them the `seen` sets and costs of later rounds. So the later rounds under the two thresholds are not comparable.
- Scenario.TestMatching: `test.py` expects three temporal communities for its series with `memory = 2`. `TestMatch` and `TestMatching` prove that the scorer, the threshold filter and the round loop give exactly these, but under the stand-in solver `TestSolver`. `TestSolver` returns, for the two matrix shapes of the series, the pairings that an optimal assignment picks there; these were worked out by hand. That they are optimal is not proved, and only the paired cells of each matrix are computed. The comparison script of `test.py` and its exceptions are not modelled.
- `example.py` reads files, builds a tag index and plots. It is not part of this model.
- Malformed arguments.
  - `memory = 0` with two or more snapshots makes `np.hstack([])` raise. Callers must give `memory >= 1` or at most one snapshot.
  - These error paths are preconditions rather than modelled exceptions.
- Labels and members are strings and integers. A snapshot dict cannot repeat a label, but a sequence can. The model accepts such sequences, and a lookup then finds the first community with the label. Unique labels are assumed only by the lemmas about distinctness and the threshold filter: `ColumnNamesDistinct`, `RoundNamesDistinct` and `RoundTargetsDistinct` assume `WellFormed(ts)`, and `AcceptedPair`, `AcceptedExactly`, `AcceptedMonotone` and `AcceptedTargetsDistinct` assume distinct labels in the current snapshot (`Distinct(baseNames)`). The link shape, the aggregation and the listing properties hold without them.
- Matcher.Match, Matcher.MatchSpec and Driver.Matching require, when `memory_weights` is given, at least `memory` weights (`WeightsFit`). That is the length the docstring asks for (matching.py:35-36). The code itself fails only when it actually reads a weight past the end of a shorter list. It reads `memory_weights[j-1]` only for an overlapping direct pair (matching.py:101), and `memory_weights[i-timestep-1]` only for an overlapping chain hop inside the window (matching.py:131), at distances up to `min(memory, i)`. A shorter list on which no such read happens runs normally in the code but is outside the model. One example is `memory_weights=[1.0]` with `memory = 3` on a two-snapshot series.
- Default arguments. `match` takes `memory=2` and `score_threshold=.1` as defaults (matching.py:9-10). `Match` and `Matching` take every argument explicitly. `Driver.MatchingDefaults` is `Matching` called with the defaults (`DefaultMemory`, no weights, `DefaultThreshold`). Python's keyword-argument passing through `*args, **kwargs` (matching.py:220, 225) is not modelled.

## Notes on the code

- The filter skips a pair only when its cost is greater than `-score_threshold`. A pair whose score equals the threshold is therefore recorded (`Kept`, `AcceptedPair`), although the docstring only says that scores under the threshold are dropped.
- With `score_threshold <= 0`, pairs of cost 0 pass the filter. These are pairs with no overlap, or pairs whose candidate was already seen. The model records them, as the code does.
- A single snapshot gives no links, and `matching` returns an empty list rather than one community per detection (`Driver.ShortSeriesNoCommunities`).
- `seen` is shared by all base communities of a round. A chain node marked seen while scoring one base community is skipped for every later base community of that round. `DistanceMatrix` threads one `seen` set through the rows in that order.
- Aggregation requires only that links point strictly backward (`Backward`), which `Match` guarantees. This is what makes the walk terminate.
