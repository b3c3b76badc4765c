# Assertion canonicaliser of the activation-function plotter

`docs/plot_activations.py` samples activation functions. While it samples them,
it can write Python test assertions about the values it saw. Two functions do
this work, and they are what this project models.

`print_for_testing(string, result, data)` takes one sample: a call signature,
its result and the arguments it was called with.
- It ignores a signature it has already seen.
- It skips a negative zero.
- It prints an exact `assert name == v` at once when the result is exact to
  six decimal places.
- Otherwise, if the value is eligible, it files the record into three
  module-level indices, keyed in three ways:
  - the result rounded to `sys.float_info.dig` places (`save_to_print`);
  - the absolute value of that rounding (`save_to_print_abs`);
  - the exact result (`save_exact_to_print`).

`do_prints()` drains the indices in three sweeps, each over its keys in
ascending order: abs, then signed, then exact. Three "already printed" sets
carry over from one sweep to the next. Within a bucket, what is printed
depends on how many records it holds:
- one record: a literal;
- two records: an equality, or a negated equality;
- three or more records: one representative pair. The pair is ranked with
  `get_data_dists` and `get_log2_dist` and picked by two stable sorts.

Three conditions raise an error:
- a rounding that does not round-trip;
- two records in one bucket that disagree;
- argument lists of different lengths.

The modules follow the program's pieces:

- `Numerics`: `round` as round-half-even on exact reals, `abs`, and `Env`,
  which holds the floating-point facts the code reads and does not compute:
  `sys.float_info.dig`, `NORM_EPSILON`, the square root of the machine epsilon,
  the `.7g` read-back, and `math.log(x, 2)`.
- `Records`: sampled records, printed lines (as events, not text), and the
  three fatal conditions.
- `Distances`: `get_log2_dist` and `get_data_dists`. The latter is a loop
  proved equal to a recursive definition.
- `Buckets`: an index as a map from key to list. `Grouped` builds the index
  that results from filing a log of records in order. Also the record count
  and `sorted()` on keys.
- `PairChoice`: the two nested loops that measure every pair in a bucket, and
  the pair that the two stable sorts put first.
- `Phases`: each sweep as a recursive function over its sorted keys, plus the
  method with the source's loop proved equal to it. `Flush` is the whole of
  `do_prints`.
- `Soundness`: what the printed lines mean for the filed records, how the
  "already printed" sets grow and which values they settle, and which pair is
  chosen.
- `Canonicalizer`: the module state as a class `Collector`, with the methods
  `PrintForTesting` and `DoPrints`. It has a ghost log of the filed records.
  Its invariant says each index is exactly that log grouped by the index's
  key, and that record names are unique.

Two points of the code decide behaviour that is easy to misread:
- **The pair ranking.** The code sorts by `dist2` ascending and then, stably,
  by `dist1` descending (docs/plot_activations.py:182-183). So `dist1` is the
  primary key, largest first. Ties go to the smaller `dist2`, then to the
  pair enumerated first.
- **Clearing the indices.** Each index is emptied only after the loop over it
  has finished (docs/plot_activations.py:132, 152, 189). A raise in a later
  loop leaves the later indices as they were. `Sweep.cleared` counts the
  emptied indices.

## Model

| member | source | states |
|---|---|---|
| Numerics.RoundHalfEven | docs/plot_activations.py:46 | Python's `round` to a whole number is within one half of its argument |
| Numerics.RoundToWhole | docs/plot_activations.py:50 | `round(x, 0)` is within 0.5 of x, so the NORM_EPSILON test compares a distance of at most one half |
| Numerics.RoundOdd | docs/plot_activations.py:155 | rounding is odd: `round(-x, n) == -round(x, n)`, and `round(abs(x), n) == abs(round(x, n))`, so the exact sweep's `abs_rounded` is the key the same value has in the abs index (line 62) |
| Records.SigOfName | docs/plot_activations.py:42 | the signature is recovered from the assertion name `activations.<sig>`, so distinct signatures give distinct names |
| Distances.Log2Dist | docs/plot_activations.py:74-79 | the distance of log2\|a\| from the nearest whole number lies in [0, 0.5] and is 0 for a == 0 |
| Distances.Log2DistEven | docs/plot_activations.py:75 | `get_log2_dist(-a) == get_log2_dist(a)` |
| Distances.RawDistance | docs/plot_activations.py:96 | the sum of absolute differences is never negative |
| Distances.Log2Distance | docs/plot_activations.py:97 | the summed log2 distances lie between 0 and the length of the lists |
| Distances.DataDists | docs/plot_activations.py:89-98 | fails exactly when the lengths differ, with both lengths in the error; otherwise both distances are non-negative and the second is bounded by the length |
| Distances.GetDataDists | docs/plot_activations.py:81-98 | the accumulating loop returns exactly DataDists: the length-mismatch error or the two sums |
| Distances.RawDistanceSymmetric | docs/plot_activations.py:96 | dist1 does not change when the two argument lists are swapped |
| Distances.RawDistanceSelf | docs/plot_activations.py:96 | dist1 of a list with itself is 0 |
| Distances.Log2DistanceSymmetric | docs/plot_activations.py:97 | dist2 does not change when the two argument lists are swapped |
| Distances.DataDistsSymmetric | docs/plot_activations.py:81-98 | swapping the arguments changes neither success nor the returned pair |
| Distances.DataDistsSelf | docs/plot_activations.py:81-98 | comparing a list with itself succeeds with dist1 == 0 |
| Buckets.Filter | docs/plot_activations.py:58-69 | reference definition: a record is in the filtered list exactly when it is in the log and has that key |
| Buckets.GroupedIsFilter | docs/plot_activations.py:58-69 | each list of an index built by appending is exactly the log's records with that key, in arrival order; a key is present exactly when that list is non-empty |
| Buckets.GroupedMembers | docs/plot_activations.py:58-69 | every filed record is in the list under its own key, and every record of a list is a filed record with that key |
| Buckets.GroupedAppend | docs/plot_activations.py:58-69 | filing one more record appends it to the end of its key's list and leaves every other list alone |
| Buckets.FiledCases | docs/plot_activations.py:58-61 | the two branches, extend an existing list or create `[record]`, together are "append to the list under the key" |
| Buckets.TotalAppend | docs/plot_activations.py:58-69 | one append adds exactly one record to an index |
| Buckets.TotalGrouped | docs/plot_activations.py:58-69 | an index built from a log holds exactly as many records as the log |
| Buckets.SortedKeys | docs/plot_activations.py:109 | `sorted(keys)` holds the same keys, each once, in strictly ascending order |
| PairChoice.PairsFrom | docs/plot_activations.py:177-180 | every enumerated candidate is a pair i < j of the bucket measured by get_data_dists; a bucket of two or more records yields at least one |
| PairChoice.PairsFromFails | docs/plot_activations.py:177-180 | the enumeration raises exactly when some pair of argument lists differ in length |
| PairChoice.RankPairs | docs/plot_activations.py:170-181 | the two nested loops produce exactly PairsFrom: the measured pairs in loop order, or the first error |
| PairChoice.PairsFromOrdered | docs/plot_activations.py:177-181 | the candidates come in strictly increasing (i, j) loop order, which is the insertion order of `dist1_dict` |
| PairChoice.PairsFromComplete | docs/plot_activations.py:177-180 | every pair of positions i < j is measured |
| PairChoice.BestPair | docs/plot_activations.py:182-184 | `poss_pairs[0]` after both sorts: no candidate outranks it (larger dist1, or equal dist1 and smaller dist2), and it outranks every earlier candidate |
| PairChoice.BestPairChosen | docs/plot_activations.py:182-186 | the printed pair has the largest dist1 of all measured pairs, then the smallest dist2, then comes first in loop order |
| PairChoice.ChosenUnique | docs/plot_activations.py:182-186 | that ranking picks at most one pair |
| Phases.AbsSweep | docs/plot_activations.py:109-131 | the loop over `sorted(save_to_print_abs)` gives exactly AbsPhase: its lines, its marks, or its raise |
| Phases.SignedSweep | docs/plot_activations.py:133-151 | the loop over the unprinted signed keys gives exactly SignedPhase |
| Phases.ExactSweep | docs/plot_activations.py:153-188 | the loop over the unprinted exact keys, with its pair ranking, gives exactly ExactPhase |
| Phases.Flush | docs/plot_activations.py:100-189 | do_prints raises exactly when it empties fewer than three indices of a non-empty signed index; on an empty `save_to_print` it prints nothing and empties nothing |
| Soundness.AbsStepSound | docs/plot_activations.py:110-131 | every line printed for an abs bucket is true of the filed records |
| Soundness.SignedStepSound | docs/plot_activations.py:134-151 | every line printed for a signed bucket is true of the filed records |
| Soundness.ExactStepSound | docs/plot_activations.py:156-188 | every line printed for an exact bucket is true of the filed records |
| Soundness.AbsPhaseSound | docs/plot_activations.py:109-131 | the abs sweep prints only true lines |
| Soundness.SignedPhaseSound | docs/plot_activations.py:133-151 | the signed sweep prints only true lines |
| Soundness.ExactPhaseSound | docs/plot_activations.py:153-188 | the exact sweep prints only true lines |
| Soundness.FlushSound | docs/plot_activations.py:100-189 | everything do_prints prints before finishing or raising is true of the records the indices came from: a literal names a record with that result, an equality names two records within 1e-06, a negation two records whose sum is within 1e-06 of zero |
| Soundness.AbsPhaseFails | docs/plot_activations.py:109-131 | the abs sweep raises exactly when one of its buckets holds two records whose results are neither within 1e-06 of each other nor of each other's negation |
| Soundness.SignedPhaseFails | docs/plot_activations.py:133-151 | the signed sweep raises exactly when one of the keys it visits holds two records whose results differ by 1e-06 or more |
| Soundness.ExactPhaseFails | docs/plot_activations.py:153-188 | the exact sweep raises exactly when one of the buckets it visits holds three or more records, two of whose argument lists differ in length |
| Soundness.FlushFailsFirst | docs/plot_activations.py:104-131 | do_prints raises before emptying any index exactly when save_to_print is non-empty and some abs bucket clashes |
| Soundness.AbsPhaseGrows | docs/plot_activations.py:113-123 | the abs sweep only adds to the three "already printed" sets |
| Soundness.SignedPhaseGrows | docs/plot_activations.py:138-151 | the signed sweep only adds to the three sets |
| Soundness.ExactPhaseGrows | docs/plot_activations.py:159-188 | the exact sweep only adds to the three sets |
| Soundness.AbsPhaseSettles | docs/plot_activations.py:113-122 | after a finished abs sweep, every record of a one- or two-record bucket has its rounded and its exact result marked as printed |
| Soundness.FlushSkips | docs/plot_activations.py:133-153 | a record settled by the abs sweep is not visited again: its rounded result is not a key of the signed sweep, and its exact result is not a key of the exact sweep |
| Soundness.ExactStepChoice | docs/plot_activations.py:167-188 | an exact bucket of three or more records raises exactly when two of its argument lists differ in length; otherwise it prints the comment and then one equality, for the chosen pair |
| Canonicalizer.Collector.constructor | docs/plot_activations.py:22-25 | the module starts with no seen signatures and three empty indices |
| Canonicalizer.Collector.PrintForTesting | docs/plot_activations.py:27-72 | a seen signature changes nothing; otherwise the signature is recorded first. Then, by case: a negative zero prints only a skip comment; a value exact to 6 places prints one exact literal; an ineligible value prints only a skip comment; a rounding off by >= 1e-07 raises. None of these touches an index. Otherwise the record is appended to all three indices at once. The indices always hold equal record counts |
| Canonicalizer.Collector.FileRecord | docs/plot_activations.py:58-69 | the three appends keep each index equal to the log, extended by the new record, grouped by that index's key |
| Canonicalizer.Collector.CountsAgree | docs/plot_activations.py:58-69 | the three indices hold the same number of records, the number filed |
| Canonicalizer.Collector.FlushTrue | docs/plot_activations.py:100-189 | what do_prints would print from the current indices is true of the filed records |
| Canonicalizer.Collector.NothingFiled | docs/plot_activations.py:104-105 | an empty save_to_print means nothing has been filed, so the other two indices are empty too |
| Canonicalizer.Collector.DoPrints | docs/plot_activations.py:100-189 | prints and raises as Flush. It empties the abs index once its loop finishes, the signed index once the second loop finishes, and the exact index once the third finishes. A call that does not raise leaves all three indices empty. Every printed line is true of the records filed |

## Left out

- The `DO_PRINT_FOR_TESTING` guard (docs/plot_activations.py:28-29, 101-102) is the constant `True`, so the model always runs.
- The `TypeError` from `len(data)` (docs/plot_activations.py:35-39, 82-87) cannot arise, because argument lists are sequences here.
- `float(result)` (docs/plot_activations.py:41) is the identity on the model's reals.
- IEEE-754 arithmetic is not modelled. Results are exact reals and `round` is exact round-half-even on reals. `sys.float_info.dig`, `NORM_EPSILON`, the square root of the machine epsilon, the `.7g` read-back and `math.log(x, 2)` are supplied through `Env`. NaN and infinities do not exist in the model.
- A real number has no sign bit, so the sign of a zero result is an extra argument of `PrintForTesting`.
- Printed lines are events (`Literal`, `Equal`, `Negated`, `Comment`), not their `repr`-formatted text.
- The exact index stores the whole record, not just `[name, data]`. The result is then always the key (`Soundness.ExactFromLog`).
- `dist1_dict` and `dist2_dict` are keyed by pairs of names; the model keys candidates by position in the bucket. The two agree because a name is filed at most once (`Canonicalizer.Registered`).
- PairChoice.BestPairChosen and Numerics.Round assume Python 3.7 or later. The third tie-break, "first in loop order", holds only because `list(iterkeys(dist1_dict))` keeps insertion order. `round` is modelled as rounding halves to even. The file also runs under Python 2 (docs/plot_activations.py:1, 18). There, dict order is hash order, so among pairs with equal `dist1` and `dist2` the printed pair need not be the first enumerated, and `round` rounds halves away from zero.
- The two stable sorts of `poss_pairs` (docs/plot_activations.py:182-183) are modelled by the element they put first (`BestPair`). Only `poss_pairs[0]` is ever used.
- The plotting and sampling driver (docs/plot_activations.py:191-345) is not part of this model: figures, parameter grids, image cropping and temporary files.
- tests/test_aggregation.py is not part of this model. It exercises aggregation functions from another module.
