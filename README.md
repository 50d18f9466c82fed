# Seasonal ESD anomaly detection, modelled in Dafny

The repository detects anomalies in a time series with the generalized
Extreme Studentized Deviate test: Grubbs' test applied round after round,
each round excluding the most extreme remaining point and comparing its
score with a critical value that depends on the number of points still in
play. After the last round the detector reports the points up to the
deepest round whose score beat its critical value.

Two variants are modelled:

- `sesd.py` (module `Sesd`, file `sesd.dfy`). `seasonal_esd` rejects too large
  a `max_anomalies` and picks a default period. It builds the residual
  `ts - seasonal - median` and hands it to `generalized_esd`. That function
  keeps the series whole and masks the chosen index in place each round
  (an `array<bool>` in `Sesd.GeneralizedEsd`). It reports indices.
- `seasonal_esd.py` (module `SeasonalEsd`, file `seasonal_esd.dfy`). `esd`
  deletes the chosen entry from a working copy each round. It reports the
  values at the recorded indices, which it looks up in the original series.
  The `seasonal_esd` of this file is an empty stub.

The shared file `grubbs.dfy` (module `Grubbs`) holds:

- the error outcomes: `EmptySeries` for the `ValueError` of `np.argmax` on an
  empty array, `ZeroDivision` for `alpha / (2 * size)` at size 0,
  `TooManyAnomalies` for the guard of `seasonal_esd`, and
  `DecompositionFailed` for a seasonal decomposition that rejects its input;
- the parts of the critical value that are pure arithmetic;
- `RoundCount`, the number of rounds `range(max_anomalies)` runs.

A round loop is modelled twice:

- as a method with a loop (`Sesd.GeneralizedEsd`, `SeasonalEsd.Esd`) whose
  postcondition equates its result with a specification function
  (`Sesd.Anomalies`, `SeasonalEsd.Outliers`);
- as that function, built from a per-round step (`Sesd.Step`,
  `SeasonalEsd.Round`) iterated by `Sesd.After` / `SeasonalEsd.EsdAfter`. The
  lemmas about the loop are proved about this function.

The per-point scores and Grubbs' critical value are floating point
statistics. They are parameters: `Sesd.Stats` and `SeasonalEsd.ZStats` hold
the signed score of an entry and the critical value at a size and
significance level. The loops, the argmax and the bookkeeping are modelled
exactly.

Three behaviours of the final cut are modelled as the code has them:

- `generalized_esd` keeps the first `num_outliers + 1` indices when
  `num_outliers` is positive and none otherwise. A report is therefore never
  a single index, and it is empty when only round 0 passes
  (`Sesd.OnlyRoundZeroPassingReportsNothing`, `Sesd.AnomaliesLookBack`).
- `esd` keeps the first `total_anomalies + 1` values without such a test, so it
  reports at least one value whenever it runs a round, even if no round
  passed (`SeasonalEsd.OutliersShape`).
- `esd` looks the indices of the shrunk copies up in the original series
  (see Findings).

## Model

| member | source | states |
|---|---|---|
| Grubbs.TailProbability | sesd.py:41 | the probability handed to the t quantile, 1 - alpha/(2 size), lies strictly between 1/2 and 1 for a significance level in (0, 1) and a positive size |
| Grubbs.DegreesOfFreedom | sesd.py:41 | the degrees of freedom size - 2 are at least 1 exactly when the size is at least 3 |
| Grubbs.Radicand | sesd.py:44 | the quantity under the square root equals size * (size - 2 + t^2) and is positive for every size of at least 3, whatever t is |
| Grubbs.CriticalValue | sesd.py:28-46 | calculate_critical_value fails with a zero division exactly when the size is 0, and otherwise yields the critical value at that size |
| Grubbs.RoundCount | sesd.py:106 | range(max_anomalies) runs max_anomalies rounds when it is positive and none otherwise; seasonal_esd.py:48 uses the same count |
| Sesd.Scores | sesd.py:18-23 | one score per entry of the series, each the absolute value of a deviation and so never negative |
| Sesd.ArgMaxUnmasked | sesd.py:24 | the answer of np.argmax over the masked scores is an index of the series whenever the series is non-empty (its meaning is Sesd.ArgMaxUnmaskedIsFirstMax) |
| Sesd.ScanUnmasked | sesd.py:24 | the left-to-right scan behind the masked argmax, started anywhere, ends at an index of a non-empty series |
| Sesd.ArgMaxUnmaskedIsFirstMax | sesd.py:24 | np.ma.argmax returns the lowest unmasked index whose score is the largest unmasked score, and 0 when every entry is masked |
| Sesd.Choose | sesd.py:24-25 | the returned value is the score at the returned index, and the index lies within the series |
| Sesd.ChooseIsTopUnmasked | sesd.py:18-25 | while some entry is unmasked, the test statistic's index is unmasked and is the first index of the top unmasked score |
| Sesd.TestStatistic | sesd.py:6-25 | calculate_test_statistic raises on an empty series; otherwise it returns an index of the series and the score there; while some entry is unmasked that index is unmasked and is the first one holding the top unmasked score, and on a fully masked series it is 0 |
| Sesd.Step | sesd.py:107-112 | one round appends the chosen index to the history, keeps the mask's length, and sets num_outliers to the round number exactly when the score beats the critical value at size len(ts) - curr |
| Sesd.After | sesd.py:104-112 | after k rounds the history holds exactly k indices and the mask still covers the whole series |
| Sesd.Truncate | sesd.py:113 | the cut is a prefix of the history; it is empty when num_outliers is not positive, holds num_outliers + 1 entries when that fits, and the whole history when num_outliers reaches its length |
| Sesd.Anomalies | sesd.py:103-114 | generalized_esd succeeds exactly when max_anomalies is at most the length; with more rounds it fails in the argmax on an empty series and in the critical value otherwise; a report is a prefix of the full run's history and no longer than the number of rounds |
| Sesd.GeneralizedEsd | sesd.py:86-114 | the loop that masks the array in place returns exactly the specification's result, the error included |
| Sesd.AfterInvariant | sesd.py:107-112 | after k rounds the masked entries are exactly the history entries; these are distinct indices of the series, as many as the masked entries |
| Sesd.HistoryPrefix | sesd.py:111 | the history after j rounds is the first j entries of the history after any later round |
| Sesd.RecordedIsTopUnmasked | sesd.py:107-112 | the index recorded at round j was unmasked then and is the first index of the top unmasked score of that round |
| Sesd.NumOutliersStep | sesd.py:108-110 | round k - 1 sets num_outliers to k - 1 when it passes and leaves it unchanged when it fails |
| Sesd.NumOutliersIsLastPass | sesd.py:105-110 | num_outliers lies below the number of rounds run; when positive it names a passing round; no later round passes |
| Sesd.AnomaliesArePrefix | sesd.py:113 | the report is a prefix of the history; it is no longer than the number of rounds (so empty for max_anomalies <= 0), and its indices are distinct and within the series |
| Sesd.AnomaliesLookBack | sesd.py:113 | the report is empty exactly when no round after round 0 passes; otherwise it has between 2 and max_anomalies entries, its last round passes and no later round passes |
| Sesd.OnlyRoundZeroPassingReportsNothing | sesd.py:113 | when no round after round 0 passes, the report is empty even if round 0 passed |
| Sesd.Period | sesd.py:78 | a non-zero periodicity is used as given; None or 0 gives a fifth of the length, rounded down |
| Sesd.Residual | sesd.py:81 | the residual has the series' length, and adding back the seasonal component and the median gives the series entry by entry |
| Sesd.GuardKeepsSizesValid | sesd.py:74-75 | under the guard max_anomalies < len(ts)/2 every round curr < max_anomalies runs at a size of at least 3, where the degrees of freedom are at least 1, the radicand is positive and, for alpha in (0, 1), the tail probability lies in (1/2, 1) |
| Sesd.SeasonalEsd | sesd.py:49-83 | seasonal_esd raises TooManyAnomalies exactly when max_anomalies >= len(ts)/2; past the guard it fails exactly when the decomposition fails, and otherwise returns generalized_esd's report on the residual: at most max_anomalies distinct indices of the series, and every size a round tests has at least one degree of freedom, a positive radicand and, for alpha in (0, 1), a tail probability in (1/2, 1) |
| SeasonalEsd.ZScores | seasonal_esd.py:16 | one score per entry of the series, each an absolute z-score and so never negative |
| SeasonalEsd.ArgMax | seasonal_esd.py:17 | np.argmax of a non-empty array is an index of it (its meaning is SeasonalEsd.ArgMaxIsFirstMax) |
| SeasonalEsd.Scan | seasonal_esd.py:17 | the left-to-right scan behind np.argmax, started anywhere, ends at an index of the array |
| SeasonalEsd.ArgMaxIsFirstMax | seasonal_esd.py:17 | np.argmax returns the lowest index holding the largest score |
| SeasonalEsd.Top | seasonal_esd.py:16-18 | the returned value is the score at the returned index, an index of the series |
| SeasonalEsd.TopIsFirstMax | seasonal_esd.py:16-18 | calculate_test_statistic's index is the first index of the largest absolute z-score |
| SeasonalEsd.TestStatistic | seasonal_esd.py:5-18 | calculate_test_statistic raises on an empty series; otherwise it returns the first index holding the largest absolute z-score and that score |
| SeasonalEsd.Delete | seasonal_esd.py:54 | np.delete shortens the series by exactly one |
| SeasonalEsd.DeleteReinsert | seasonal_esd.py:54 | putting the deleted entry back restores the series; entries before the index keep their place and entries after it move down by one |
| SeasonalEsd.Round | seasonal_esd.py:49-54 | one round shortens the copy by one and appends the top index; total_anomalies becomes the round number exactly when the score beats the critical value at the copy's current length |
| SeasonalEsd.EsdAfter | seasonal_esd.py:45-54 | after k rounds the copy is k entries shorter and the history holds k indices |
| SeasonalEsd.EsdShape | seasonal_esd.py:48-54 | the index recorded at round j is below n - j, so it addresses the shrunk copy; total_anomalies lies below the number of rounds |
| SeasonalEsd.EsdHistoryPrefix | seasonal_esd.py:53 | the history only grows: earlier histories are prefixes of later ones |
| SeasonalEsd.RecordedIsTop | seasonal_esd.py:49 | the index recorded at round j is the first index of the top z-score of that round's copy |
| SeasonalEsd.TotalStep | seasonal_esd.py:50-52 | round k - 1 sets total_anomalies to k - 1 when it passes and leaves it unchanged when it fails |
| SeasonalEsd.TotalIsLastPass | seasonal_esd.py:47-52 | total_anomalies lies below the number of rounds; when positive it names a passing round; no later round passes |
| SeasonalEsd.Reported | seasonal_esd.py:55 | for a non-negative total_anomalies the report has total_anomalies + 1 entries, or fewer when the history is shorter; entry j is the original series at the j-th recorded index |
| SeasonalEsd.Outliers | seasonal_esd.py:44-56 | esd succeeds exactly when max_anomalies is at most the length and otherwise fails in np.argmax; a report holds no more values than rounds run, value j being the original series at the index recorded in round j |
| SeasonalEsd.Esd | seasonal_esd.py:44-56 | the loop over a shrinking copy returns exactly the specification's result and leaves the caller's array unchanged (it has no modifies clause) |
| SeasonalEsd.OutliersShape | seasonal_esd.py:55 | esd succeeds exactly when max_anomalies is at most the length; it reports nothing without rounds and exactly total_anomalies + 1 values otherwise, never more than the rounds run |
| SeasonalEsd.OutliersLookBack | seasonal_esd.py:48-55 | each reported value is the original series at the index recorded in that round; the last reported round passes unless it is round 0, and no later round passes |
| SeasonalEsd.Removed | seasonal_esd.py:54 | the values deleted by the first k rounds, one per round |
| SeasonalEsd.RemovedAndRemaining | seasonal_esd.py:45-54 | after every round the copy and the values deleted so far make up the original series as a multiset |
| SeasonalEsd.RemovedOutliers | seasonal_esd.py:55 | the intended report succeeds exactly when max_anomalies is at most the length; it is empty without rounds and otherwise holds exactly the values the first total_anomalies + 1 rounds deleted, a prefix of the deleted values and a sub-multiset of the series |
| SeasonalEsd.RemovedOutliersAreTop | seasonal_esd.py:55 | each value of the intended report is the top z-score entry of its round's copy |
| SeasonalEsd.ShiftedIndexReportsWrongValue | seasonal_esd.py:55 | on [10, 0, 0, 5, 0] with two rounds, where only round 1 passes, esd reports [10, 0] while the deleted values are [10, 5] |
| SeasonalEsd.SeasonalEsd | seasonal_esd.py:41-42 | the stub returns None whatever it is given |

## Left out

- The STL decomposition (sesd.py:79-80) is a statsmodels call. It is the parameter `decompose` of `Sesd.SeasonalEsd`, which answers either a failure or one seasonal value per entry.
- Sesd.SeasonalEsd: which inputs STL rejects is the library's behaviour and is not modelled; a rejection is only the `None` outcome of `decompose`, reported as `DecompositionFailed`. STL raises `ValueError` for a period below 2, for example the default period of a series shorter than 10 entries or a periodicity of 1 or a negative one (a periodicity of 0 falls back to the default period); `seasonal_esd` does not catch it.
- `np.median(ts)` in the residual (sesd.py:81) is the parameter `median`.
- The Student-t quantile `stats.t.ppf` and `np.sqrt` in the critical value (sesd.py:41-46, seasonal_esd.py:33-38) are floating point library calls. The critical value is an abstract function of (size, alpha). Only the probability, the degrees of freedom and the radicand are modelled.
- The score arithmetic is abstract, because it is floating point statistics:
  - mean and standard deviation with ddof 0 (sesd.py:23);
  - median and MAD (sesd.py:19-21);
  - `stats.zscore` with ddof 1 (seasonal_esd.py:16).

  Only the absolute value taken of the score is concrete.
- NaN, infinities, and division by a zero standard deviation or MAD are not modelled; reals replace floats. So are the NaN critical values at sizes 1 and 2.
- Masked-array mechanics beyond these two are not modelled: the score function is given the mask, and the argmax skips masked entries (returning 0 when all are masked).
- `int(0.2 * len(ts))` is modelled as `len(ts) / 5` rounded down; the rounding of the floating point product is not modelled.
- Default arguments are not modelled: every member takes all its arguments explicitly. The defaults are `max_anomalies=10`, `alpha=0.05` and `hybrid=False` at sesd.py:49 and sesd.py:86, and `seasonality=30`, `max_anomalies=10` and `alpha=0.05` at seasonal_esd.py:41 and seasonal_esd.py:44. Only `periodicity=None` is modelled, as `Option`.
- Arguments of other Python types (a non-integer `max_anomalies`, lists versus arrays) are not modelled.
- The random-data tests of test_sesd.py are not modelled; their statistical outcomes depend on the real statistics and a random generator. The test at test_sesd.py:15-28 asserts that exactly `max_anomalies` indices come back, an equality that depends on the data. The model proves the `<=` bound that test's name promises (`Sesd.AnomaliesArePrefix`, `Sesd.SeasonalEsd`). setup.py is packaging and is not part of this model.
- The unused `statsmodels` import of seasonal_esd.py is not part of this model.

## Findings

| source | as written | input that shows it | evidently intended | confidence | as-written member | corrected member |
|---|---|---|---|---|---|---|
| seasonal_esd.py:55 | the indices recorded in rounds after the first address the shrunk working copy, but the report looks them up in the original series | `esd([10, 0, 0, 5, 0], max_anomalies=2, alpha=0.05)`: round 0 removes 10 with z of about 1.565, below the critical value of about 1.715 at size 5. Round 1 removes 5, now at index 2 of the copy, with z = 1.5, above about 1.481 at size 4. The report is [10, 0] | report the values the first total_anomalies + 1 rounds removed, here [10, 5] | not executed; the z-scores and critical values above are computed by hand, and the Dafny lemma uses stand-in scores of the same ranking with a critical value that lets only size 4 pass | SeasonalEsd.ShiftedIndexReportsWrongValue | SeasonalEsd.RemovedOutliers |
