# RandomCountGenerator in Dafny

RandomCountGenerator is a short Python program. Its function
`weighted_selection` takes a mapping from labels to weights. It draws a number
`r` uniformly from `[0, total]`, then scans the entries in order, adding each
weight to a running sum `start`. It returns the first label whose running sum
`start + weight` reaches `r`. The program's `__main__` block calls it 100000
times on the table `{1:50, 2:25, 3:15, 4:5, 5:5}` and tallies the results in a
`defaultdict(int)`.

This project models both parts. The random draw is taken out and becomes a
parameter.

- `selection.dfy`, module `Selection`. The weight table is an ordered
  `seq<(L, nat)>`, so the scan order is explicit. `WeightedSelection` is the
  scan, written as a loop over a running `start`. It is proved equal to
  `Selected`, a pure function that returns the label at the least index whose
  cumulative weight reaches `r`. The lemmas then prove what that selection
  means. It never falls through for a draw in range. It falls through exactly
  when the table is empty or the draw exceeds the total. A draw of 0 picks the
  first entry. Larger draws never pick earlier entries. Entry `i` is picked
  exactly for the draws in `(Cumulative(i-1), Cumulative(i)]`, an interval whose
  width is entry `i`'s weight.
- `tally.dfy`, module `Tally`. `CountSelections` is the counting loop, with one
  draw per iteration given as a sequence. It calls `WeightedSelection` and
  increments a map the way a `defaultdict` does. Its result is the histogram of
  the selections. The lemmas prove that each count equals the number of draws
  that returned its key, and that the counts add up to the number of draws.
  For draws in range, only labels of the table are counted.

Three behaviours of the code are worth noting; the model follows the code:

- The draw `random.uniform(0, total)` can return `total` itself. So draws are
  modelled in `[0, total]`, both ends included.
- An empty table does not raise an error. The loop does not run, and the function
  returns `None` (`FallsThroughIff`).
- A non-empty table whose weights are all zero is not rejected either. Its
  total is 0, so the draw is 0, and the first label is returned even though its
  weight is 0 (`ZeroDrawSelectsFirst`). For any positive draw, an entry of
  weight zero is never picked (`PositiveDrawSkipsZeroWeight`).

The draw is a `real`. The weights in the table are integers, so `start + v` is
an integer. Python compares an integer with a float exactly, and the model
compares exactly too.

## Model

| member | source | states |
|---|---|---|
| Selection.WeightedSelection | RandomCountGenerator.py:7-12 | the scan returns exactly `Selected(t, r)`; its loop keeps `start` equal to the sum of the weights already passed and every passed entry short of `r`; falling off the end yields `None` |
| Selection.FirstReachingFrom | RandomCountGenerator.py:8-11 | the search from position `i` finds the least index at or after `i` whose cumulative weight reaches `r`, or `None` when no such index exists |
| Selection.SelectedIndex | RandomCountGenerator.py:8-12 | the selected position is the least index whose cumulative weight reaches `r`; every earlier entry falls short of `r`; `None` exactly when no entry reaches `r` |
| Selection.Selected | RandomCountGenerator.py:10 | a returned label is a key of the table |
| Selection.SelectedIndexIsLeast | RandomCountGenerator.py:9-10 | an entry that reaches `r` with every earlier entry short of `r` is the one returned |
| Selection.CumulativeStep | RandomCountGenerator.py:9-11 | the cumulative weight of entry `i` is the sum of the weights before it plus its own weight, which is the test `start + v` |
| Selection.CumulativeMonotone | RandomCountGenerator.py:11 | the running sum never decreases along the table, since weights are non-negative |
| Selection.CumulativeLast | RandomCountGenerator.py:5-11 | after the last entry the running sum equals `total` |
| Selection.CumulativeAtMostTotal | RandomCountGenerator.py:5-11 | no cumulative weight exceeds `total` |
| Selection.NeverFallsThrough | RandomCountGenerator.py:5-11 | for a non-empty table and a draw no larger than `total`, a label of the table is returned |
| Selection.FallsThroughIff | RandomCountGenerator.py:8-12 | the result is `None` exactly when the table is empty or the draw exceeds `total` |
| Selection.ZeroDrawSelectsFirst | RandomCountGenerator.py:6-10 | a draw of 0 or less returns the first entry of a non-empty table, whatever its weight |
| Selection.SelectionMonotone | RandomCountGenerator.py:9-11 | if `r1 <= r2` and `r2` selects an entry, then `r1` selects one too, at the same or an earlier position |
| Selection.SelectionInterval | RandomCountGenerator.py:9-11 | entry `i` is selected exactly when the cumulative weight before it is `< r` and its own cumulative weight is `>= r` |
| Selection.PositiveDrawSkipsZeroWeight | RandomCountGenerator.py:9-11 | a positive draw never selects an entry of weight zero |
| Selection.ExampleSlices | RandomCountGenerator.py:15 | on the example table every draw in `[0, 100]` selects a label: 1 for `[0, 50]`, 2 for `(50, 75]`, 3 for `(75, 90]`, 4 for `(90, 95]`, 5 for `(95, 100]` |
| Tally.IncrementAddsOne | RandomCountGenerator.py:19 | the defaultdict increment `counts[key] += 1` adds exactly one to the sum of the counts |
| Tally.HistogramCounts | RandomCountGenerator.py:16-19 | after the increments, a key has a count exactly when it occurs among the results, and its count is its number of occurrences |
| Tally.HistogramTotal | RandomCountGenerator.py:16-19 | after the increments, the counts add up to the number of results |
| Tally.SelectionsAreLabels | RandomCountGenerator.py:18-19 | every result is a key of the table or `None`, and never `None` for a non-empty table with draws no larger than `total` |
| Tally.CountSelections | RandomCountGenerator.py:16-19 | the loop leaves the histogram of the selections of the draws in `counts`, and the counts add up to the number of draws |
| Tally.TallyConservation | RandomCountGenerator.py:16-19 | for draws in `[0, total]`, the counts add up to the number of draws, and only table keys have a count, each at least 1 |

## Left out

- `random.uniform(0, total)` (RandomCountGenerator.py:6): randomness and floating point. The draw is a parameter, and the counting loop takes one draw per iteration as a sequence. Floating-point rounding of the draw itself is not modelled.
- Statistical claims about the tally, such as label 1 coming up about half the time over 100000 draws: these are about probability. `SelectionInterval` and `ExampleSlices` state the deterministic fact behind them: each entry owns a slice of `[0, total]` as wide as its weight. Because a Python dict has distinct keys, so does the table in the program, and each label then owns its entry's slice; the model states its lemmas per entry and does not require distinct labels.
- Python dict iteration order (`iteritems`): the table is an explicit sequence of pairs, and the scan visits it in that order.
- Negative or fractional weights: weights are `nat`, as in the example table of RandomCountGenerator.py. With a negative weight, Python's draw and scan behave differently and are not covered.
- The iteration count 100000 is the length of `draws`.
- `print counts` (RandomCountGenerator.py:21): output.
