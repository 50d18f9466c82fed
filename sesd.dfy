/** The seasonal generalized ESD detector of sesd.py: a residual is built from
    the series, an externally decomposed seasonal component and the median,
    and Grubbs' test is applied to it repeatedly, masking the most extreme
    remaining point after every round and finally reporting a prefix of the
    masked points decided by the last round whose statistic beat its
    critical value. */
module Sesd {
  import opened Grubbs

  /** The statistics the model leaves abstract. `deviate(hybrid, ts, mask, i)`
      is the signed standardized deviation of entry i, measured against the
      entries `mask` leaves active (mean and standard deviation, or median and
      MAD when `hybrid`); `critical` is Grubbs' critical value. */
  datatype Stats = Stats(deviate: (bool, seq<real>, seq<bool>, nat) -> real, critical: Critical)

  /** The absolute scores of calculate_test_statistic, one per entry. */
  function Scores(ts: seq<real>, mask: seq<bool>, hybrid: bool, stats: Stats): (s: seq<real>)
    ensures |s| == |ts|
    ensures forall i :: 0 <= i < |s| ==> s[i] >= 0.0
  {
    var s := seq(|ts|, i requires 0 <= i < |ts| => Abs(stats.deviate(hybrid, ts, mask, i)));
    assert forall i :: 0 <= i < |s| ==> s[i] == Abs(stats.deviate(hybrid, ts, mask, i));
    s
  }

  /** k is the lowest unmasked index whose score is the largest among the
      unmasked scores. */
  predicate IsFirstMaxUnmasked(s: seq<real>, mask: seq<bool>, k: int)
    requires |s| == |mask|
  {
    && 0 <= k < |s| && !mask[k]
    && (forall j :: 0 <= j < |s| && !mask[j] ==> s[j] <= s[k])
    && (forall j :: 0 <= j < k && !mask[j] ==> s[j] < s[k])
  }

  /** np.ma.argmax: the first index of the largest unmasked value, and 0 on
      a fully masked array. */
  function ArgMaxUnmasked(s: seq<real>, mask: seq<bool>): (k: nat)
    requires |s| == |mask|
    ensures |s| > 0 ==> k < |s|
  {
    ScanUnmasked(s, mask, 0, 0)
  }

  /** The left-to-right scan behind ArgMaxUnmasked: `best` is the answer for
      the first i entries, and entry i replaces it when it is unmasked and
      either no earlier entry was unmasked or it is strictly larger. */
  function ScanUnmasked(s: seq<real>, mask: seq<bool>, i: nat, best: nat): (k: nat)
    requires |s| == |mask| && i <= |s| && (best < i || best == 0)
    ensures |s| > 0 ==> k < |s|
    decreases |s| - i
  {
    if i == |s| then best
    else
      var take := !mask[i] && (i == 0 || mask[best] || s[i] > s[best]);
      ScanUnmasked(s, mask, i + 1, if take then i else best)
  }

  predicate AllMaskedBelow(mask: seq<bool>, i: nat)
    requires i <= |mask|
  {
    forall j :: 0 <= j < i ==> mask[j]
  }

  /** What the scan knows after the first i entries: 0 while all of them are
      masked, and otherwise the first top unmasked index among them. */
  predicate ScanInvariant(s: seq<real>, mask: seq<bool>, i: nat, best: nat)
    requires |s| == |mask| && i <= |s|
  {
    if AllMaskedBelow(mask, i) then best == 0
    else
      && best < i && !mask[best]
      && (forall j :: 0 <= j < i && !mask[j] ==> s[j] <= s[best])
      && (forall j :: 0 <= j < best && !mask[j] ==> s[j] < s[best])
  }

  lemma {:induction false} ScanKeepsInvariant(s: seq<real>, mask: seq<bool>, i: nat, best: nat)
    requires |s| == |mask| && i <= |s| && (best < i || best == 0)
    requires ScanInvariant(s, mask, i, best)
    ensures ScanInvariant(s, mask, |s|, ScanUnmasked(s, mask, i, best))
    decreases |s| - i
  {
    if i < |s| {
      var take := !mask[i] && (i == 0 || mask[best] || s[i] > s[best]);
      var next := if take then i else best;
      if mask[i] {
        assert AllMaskedBelow(mask, i + 1) <==> AllMaskedBelow(mask, i);
      } else if AllMaskedBelow(mask, i) {
        assert take;
        assert !AllMaskedBelow(mask, i + 1);
      } else {
        assert !AllMaskedBelow(mask, i + 1);
      }
      ScanKeepsInvariant(s, mask, i + 1, next);
    }
  }

  lemma ArgMaxUnmaskedIsFirstMax(s: seq<real>, mask: seq<bool>)
    requires |s| == |mask|
    ensures (exists j :: 0 <= j < |mask| && !mask[j]) ==> IsFirstMaxUnmasked(s, mask, ArgMaxUnmasked(s, mask))
    ensures (forall j :: 0 <= j < |mask| ==> mask[j]) ==> ArgMaxUnmasked(s, mask) == 0
  {
    ScanKeepsInvariant(s, mask, 0, 0);
  }

  /** The index and value of the top unmasked score of a non-empty series;
      on a fully masked array np.ma.argmax answers 0. */
  function Choose(ts: seq<real>, mask: seq<bool>, hybrid: bool, stats: Stats): (c: (nat, real))
    requires |mask| == |ts| > 0
    ensures c.0 < |ts| && c.1 == Scores(ts, mask, hybrid, stats)[c.0]
  {
    var s := Scores(ts, mask, hybrid, stats);
    var k := ArgMaxUnmasked(s, mask);
    (k, s[k])
  }

  /** While some entry is unmasked, the chosen index is the lowest unmasked
      index with the top score, and the value is that top score. */
  lemma ChooseIsTopUnmasked(ts: seq<real>, mask: seq<bool>, hybrid: bool, stats: Stats, j: nat)
    requires |mask| == |ts| && j < |mask| && !mask[j]
    ensures IsFirstMaxUnmasked(Scores(ts, mask, hybrid, stats), mask, Choose(ts, mask, hybrid, stats).0)
  {
    ArgMaxUnmaskedIsFirstMax(Scores(ts, mask, hybrid, stats), mask);
  }

  /** calculate_test_statistic over the masked residual: np.argmax fails on
      an empty array. */
  function TestStatistic(ts: seq<real>, mask: seq<bool>, hybrid: bool, stats: Stats): (r: Result<(nat, real)>)
    requires |mask| == |ts|
    ensures r.Err? <==> |ts| == 0
    ensures r.Err? ==> r.error == EmptySeries
    ensures r.Ok? ==> r.value.0 < |ts| && r.value.1 == Scores(ts, mask, hybrid, stats)[r.value.0]
    ensures r.Ok? && (exists j :: 0 <= j < |mask| && !mask[j]) ==>
      IsFirstMaxUnmasked(Scores(ts, mask, hybrid, stats), mask, r.value.0)
    ensures r.Ok? && (forall j :: 0 <= j < |mask| ==> mask[j]) ==> r.value.0 == 0
    ensures r.Ok? ==> r.value == Choose(ts, mask, hybrid, stats)
  {
    if |ts| == 0 then Err(EmptySeries)
    else
      ArgMaxUnmaskedIsFirstMax(Scores(ts, mask, hybrid, stats), mask);
      Ok(Choose(ts, mask, hybrid, stats))
  }

  /** The loop state of generalized_esd after some rounds: the mask, the
      indices chosen so far (test_statistics) and num_outliers. */
  datatype Progress = Progress(mask: seq<bool>, history: seq<nat>, numOutliers: int)

  function NoneMasked(n: nat): (m: seq<bool>)
    ensures |m| == n && forall i :: 0 <= i < n ==> !m[i]
  {
    seq(n, _ => false)
  }

  /** Round `curr` of generalized_esd: pick the top unmasked score, compare
      it with the critical value at the active size |ts| - curr, append the
      index to the history and mask it. */
  function Step(ts: seq<real>, hybrid: bool, alpha: real, stats: Stats, p: Progress, curr: nat): (q: Progress)
    requires |p.mask| == |ts| && curr < |ts|
    ensures |q.mask| == |ts| && q.history == p.history + [Choose(ts, p.mask, hybrid, stats).0]
    ensures q.numOutliers == if Choose(ts, p.mask, hybrid, stats).1 > stats.critical(|ts| - curr, alpha) then curr else p.numOutliers
  {
    var (idx, val) := Choose(ts, p.mask, hybrid, stats);
    var crit := stats.critical(|ts| - curr, alpha);
    Progress(p.mask[idx := true], p.history + [idx], if val > crit then curr else p.numOutliers)
  }

  /** The result of the first k rounds of generalized_esd, each of which runs
      to completion (k <= |ts|). */
  function After(ts: seq<real>, hybrid: bool, alpha: real, stats: Stats, k: nat): (p: Progress)
    requires k <= |ts|
    ensures |p.mask| == |ts| && |p.history| == k
  {
    if k == 0 then Progress(NoneMasked(|ts|), [], 0)
    else Step(ts, hybrid, alpha, stats, After(ts, hybrid, alpha, stats, k - 1), k - 1)
  }

  /** Round j (0-based) passes: its top score beats the critical value at the
      active size |ts| - j. */
  predicate Passes(ts: seq<real>, hybrid: bool, alpha: real, stats: Stats, j: nat)
    requires j < |ts|
  {
    Choose(ts, After(ts, hybrid, alpha, stats, j).mask, hybrid, stats).1 > stats.critical(|ts| - j, alpha)
  }

  /** The final slice: test_statistics[:num_outliers + 1] if num_outliers > 0
      else [] (a Python slice past the end stops at the end). */
  function Truncate(history: seq<nat>, numOutliers: int): (r: seq<nat>)
    ensures |r| <= |history| && r == history[..|r|]
    ensures numOutliers <= 0 ==> |r| == 0
    ensures 0 < numOutliers < |history| ==> |r| == numOutliers + 1
    ensures numOutliers >= |history| ==> |r| == |history|
  {
    if numOutliers > 0 then history[..Min(numOutliers + 1, |history|)] else []
  }

  /** What generalized_esd returns or raises. With more rounds than entries
      the round at curr == |ts| fails: on an empty series in the argmax, and
      otherwise in the critical value at size 0. */
  function Anomalies(ts: seq<real>, maxAnomalies: int, alpha: real, hybrid: bool, stats: Stats): (r: Result<seq<nat>>)
    ensures r.Ok? <==> maxAnomalies <= |ts|
    ensures maxAnomalies > |ts| && |ts| == 0 ==> r == Err(EmptySeries)
    ensures maxAnomalies > |ts| > 0 ==> r == Err(ZeroDivision)
    ensures r.Ok? ==>
      && |r.value| <= RoundCount(maxAnomalies)
      && r.value == After(ts, hybrid, alpha, stats, RoundCount(maxAnomalies)).history[..|r.value|]
  {
    var rounds := RoundCount(maxAnomalies);
    if rounds > |ts| then Err(if |ts| == 0 then EmptySeries else ZeroDivision)
    else
      var p := After(ts, hybrid, alpha, stats, rounds);
      Ok(Truncate(p.history, p.numOutliers))
  }

  /** generalized_esd: the mask is an array updated in place, the history a
      list that grows by one index per round. */
  method GeneralizedEsd(ts: seq<real>, maxAnomalies: int, alpha: real, hybrid: bool, stats: Stats)
    returns (r: Result<seq<nat>>)
    ensures r == Anomalies(ts, maxAnomalies, alpha, hybrid, stats)
  {
    var n := |ts|;
    var mask := new bool[n](_ => false);
    var testStatistics: seq<nat> := [];
    var numOutliers := 0;
    var rounds := RoundCount(maxAnomalies);
    assert mask[..] == NoneMasked(n);
    for curr := 0 to rounds
      invariant curr <= n
      invariant After(ts, hybrid, alpha, stats, curr) == Progress(mask[..], testStatistics, numOutliers)
    {
      ghost var p := Progress(mask[..], testStatistics, numOutliers);
      var stat := TestStatistic(ts, mask[..], hybrid, stats);
      if stat.Err? {
        return Err(stat.error);
      }
      var (testIdx, testVal) := stat.value;
      assert (testIdx, testVal) == Choose(ts, p.mask, hybrid, stats);
      var crit := CriticalValue(n - curr, alpha, stats.critical);
      if crit.Err? {
        return Err(crit.error);
      }
      if testVal > crit.value {
        numOutliers := curr;
      }
      testStatistics := testStatistics + [testIdx];
      mask[testIdx] := true;
      assert mask[..] == p.mask[testIdx := true];
      assert Progress(mask[..], testStatistics, numOutliers) == Step(ts, hybrid, alpha, stats, p, curr);
    }
    r := Ok(Truncate(testStatistics, numOutliers));
  }

  // ---------------------------------------------------------------------
  // The bookkeeping of the mask and the history

  function CountMasked(mask: seq<bool>): (c: nat)
    ensures c <= |mask|
  {
    if mask == [] then 0 else CountMasked(mask[..|mask| - 1]) + (if mask[|mask| - 1] then 1 else 0)
  }

  lemma {:induction false} CountMaskedNone(n: nat)
    ensures CountMasked(NoneMasked(n)) == 0
  {
    if n > 0 {
      assert NoneMasked(n)[..n - 1] == NoneMasked(n - 1);
      CountMaskedNone(n - 1);
    }
  }

  /** Masking an unmasked entry adds exactly one to the count. */
  lemma {:induction false} CountMaskedSet(mask: seq<bool>, i: nat)
    requires i < |mask| && !mask[i]
    ensures CountMasked(mask[i := true]) == CountMasked(mask) + 1
  {
    var last := |mask| - 1;
    var m' := mask[i := true];
    if i == last {
      assert m'[..last] == mask[..last];
    } else {
      assert m'[..last] == mask[..last][i := true];
      CountMaskedSet(mask[..last], i);
    }
  }

  /** A mask with fewer masked entries than entries leaves one unmasked. */
  lemma {:induction false} SomeUnmasked(mask: seq<bool>)
    requires CountMasked(mask) < |mask|
    ensures exists j :: 0 <= j < |mask| && !mask[j]
  {
    var last := |mask| - 1;
    if !mask[last] {
      assert !mask[last];
    } else {
      SomeUnmasked(mask[..last]);
      var j :| 0 <= j < last && !mask[..last][j];
      assert !mask[j];
    }
  }

  /** The mask marks exactly the history entries, which are distinct
      indices of the series, as many as the masked entries. */
  predicate Bookkept(mask: seq<bool>, history: seq<nat>)
  {
    && (forall i :: 0 <= i < |mask| ==> (mask[i] <==> i in history))
    && (forall j :: 0 <= j < |history| ==> history[j] < |mask|)
    && Distinct(history)
    && CountMasked(mask) == |history|
  }

  /** Masking a not yet masked index and appending it keeps the bookkeeping. */
  lemma MaskAndAppend(mask: seq<bool>, history: seq<nat>, idx: nat)
    requires Bookkept(mask, history) && idx < |mask| && !mask[idx]
    ensures Bookkept(mask[idx := true], history + [idx])
  {
    CountMaskedSet(mask, idx);
    var m, h := mask[idx := true], history + [idx];
    forall i | 0 <= i < |m|
      ensures m[i] <==> i in h
    {
      assert i in h <==> i in history || i == idx;
    }
  }

  /** After k rounds the masked entries are exactly the k history entries,
      which are distinct indices of the series. */
  lemma {:induction false} AfterInvariant(ts: seq<real>, hybrid: bool, alpha: real, stats: Stats, k: nat)
    requires k <= |ts|
    ensures var p := After(ts, hybrid, alpha, stats, k); Bookkept(p.mask, p.history)
  {
    if k == 0 {
      CountMaskedNone(|ts|);
    } else {
      var p := After(ts, hybrid, alpha, stats, k - 1);
      AfterInvariant(ts, hybrid, alpha, stats, k - 1);
      SomeUnmasked(p.mask);
      var u :| 0 <= u < |p.mask| && !p.mask[u];
      ChooseIsTopUnmasked(ts, p.mask, hybrid, stats, u);
      var idx := Choose(ts, p.mask, hybrid, stats).0;
      MaskAndAppend(p.mask, p.history, idx);
      var q := After(ts, hybrid, alpha, stats, k);
      assert q == Step(ts, hybrid, alpha, stats, p, k - 1);
      assert q.mask == p.mask[idx := true];
    }
  }

  /** The history only grows: the first j entries after k rounds are the
      history after j rounds. */
  lemma {:induction false} HistoryPrefix(ts: seq<real>, hybrid: bool, alpha: real, stats: Stats, j: nat, k: nat)
    requires j <= k <= |ts|
    ensures After(ts, hybrid, alpha, stats, j).history == After(ts, hybrid, alpha, stats, k).history[..j]
    decreases k
  {
    if j < k {
      HistoryPrefix(ts, hybrid, alpha, stats, j, k - 1);
      var h := After(ts, hybrid, alpha, stats, k - 1).history;
      assert After(ts, hybrid, alpha, stats, k).history[..k - 1] == h;
    }
  }

  /** The index recorded at round j was unmasked at that round, and it is the
      lowest index with the top score among the then unmasked entries. */
  lemma RecordedIsTopUnmasked(ts: seq<real>, hybrid: bool, alpha: real, stats: Stats, j: nat, k: nat)
    requires j < k <= |ts|
    ensures var m := After(ts, hybrid, alpha, stats, j).mask;
      IsFirstMaxUnmasked(Scores(ts, m, hybrid, stats), m, After(ts, hybrid, alpha, stats, k).history[j])
  {
    var p := After(ts, hybrid, alpha, stats, j);
    AfterInvariant(ts, hybrid, alpha, stats, j);
    SomeUnmasked(p.mask);
    var u :| 0 <= u < |p.mask| && !p.mask[u];
    ChooseIsTopUnmasked(ts, p.mask, hybrid, stats, u);
    HistoryPrefix(ts, hybrid, alpha, stats, j + 1, k);
    assert After(ts, hybrid, alpha, stats, k).history[j] == After(ts, hybrid, alpha, stats, j + 1).history[j];
  }

  /** Round k - 1 sets num_outliers to k - 1 when it passes and keeps it
      otherwise. */
  lemma NumOutliersStep(ts: seq<real>, hybrid: bool, alpha: real, stats: Stats, k: nat)
    requires 0 < k <= |ts|
    ensures After(ts, hybrid, alpha, stats, k).numOutliers
      == if Passes(ts, hybrid, alpha, stats, k - 1) then k - 1 else After(ts, hybrid, alpha, stats, k - 1).numOutliers
  {
    assert After(ts, hybrid, alpha, stats, k) == Step(ts, hybrid, alpha, stats, After(ts, hybrid, alpha, stats, k - 1), k - 1);
  }

  /** num_outliers after k rounds is the last passing round, or 0 when no
      round after round 0 passed. */
  lemma {:induction false} NumOutliersIsLastPass(ts: seq<real>, hybrid: bool, alpha: real, stats: Stats, k: nat)
    requires k <= |ts|
    ensures var no := After(ts, hybrid, alpha, stats, k).numOutliers;
      && 0 <= no && (k > 0 ==> no < k)
      && (no > 0 ==> Passes(ts, hybrid, alpha, stats, no))
      && (forall j :: no < j < k ==> !Passes(ts, hybrid, alpha, stats, j))
  {
    if k > 0 {
      NumOutliersIsLastPass(ts, hybrid, alpha, stats, k - 1);
      NumOutliersStep(ts, hybrid, alpha, stats, k);
    }
  }

  // ---------------------------------------------------------------------
  // What generalized_esd reports

  /** The reported indices are a prefix of the history of the whole run, at
      most max_anomalies long, distinct and within the series. */
  lemma AnomaliesArePrefix(ts: seq<real>, maxAnomalies: int, alpha: real, hybrid: bool, stats: Stats)
    requires Anomalies(ts, maxAnomalies, alpha, hybrid, stats).Ok?
    ensures var a := Anomalies(ts, maxAnomalies, alpha, hybrid, stats).value;
      var h := After(ts, hybrid, alpha, stats, RoundCount(maxAnomalies)).history;
      && a == h[..|a|]
      && |a| <= RoundCount(maxAnomalies)
      && Distinct(a)
      && (forall i :: 0 <= i < |a| ==> a[i] < |ts|)
  {
    AfterInvariant(ts, hybrid, alpha, stats, RoundCount(maxAnomalies));
  }

  /** Look back from the deepest pass: a non-empty report ends at a passing
      round after which no round passes, and the report is empty exactly when
      no round other than round 0 passes. The indices of failing rounds
      before the last pass are reported too. */
  lemma AnomaliesLookBack(ts: seq<real>, maxAnomalies: int, alpha: real, hybrid: bool, stats: Stats)
    requires Anomalies(ts, maxAnomalies, alpha, hybrid, stats).Ok?
    ensures var a := Anomalies(ts, maxAnomalies, alpha, hybrid, stats).value;
      var rounds := RoundCount(maxAnomalies);
      && (a == [] <==> forall j :: 0 < j < rounds ==> !Passes(ts, hybrid, alpha, stats, j))
      && (a != [] ==>
            && 2 <= |a| <= rounds
            && Passes(ts, hybrid, alpha, stats, |a| - 1)
            && forall j :: |a| - 1 < j < rounds ==> !Passes(ts, hybrid, alpha, stats, j))
  {
    NumOutliersIsLastPass(ts, hybrid, alpha, stats, RoundCount(maxAnomalies));
  }

  /** With a single round the sentinel num_outliers > 0 can never hold, so
      generalized_esd reports nothing even when that round passes; more
      generally a passing round 0 alone is never reported. */
  lemma OnlyRoundZeroPassingReportsNothing(ts: seq<real>, maxAnomalies: int, alpha: real, hybrid: bool, stats: Stats)
    requires 0 < |ts| && maxAnomalies <= |ts|
    requires forall j :: 0 < j < maxAnomalies ==> !Passes(ts, hybrid, alpha, stats, j)
    ensures Anomalies(ts, maxAnomalies, alpha, hybrid, stats) == Ok([])
  {
    AnomaliesLookBack(ts, maxAnomalies, alpha, hybrid, stats);
  }

  // ---------------------------------------------------------------------
  // The orchestrator

  /** The period handed to the decomposition: periodicity unless it is None
      or 0, else int(0.2 * len(ts)), that is a fifth of the length rounded
      down. */
  function Period(n: nat, periodicity: Option<int>): (p: int)
    ensures periodicity.Some? && periodicity.value != 0 ==> p == periodicity.value
    ensures periodicity.None? || periodicity == Some(0) ==> 0 <= 5 * p <= n < 5 * p + 5
  {
    match periodicity
    case Some(q) => if q != 0 then q else n / 5
    case None => n / 5
  }

  /** ts - seasonal - median, entry by entry: adding the seasonal component
      and the median back gives the series, so residual indices are the
      series' indices. */
  function Residual(ts: seq<real>, seasonal: seq<real>, median: real): (r: seq<real>)
    requires |seasonal| == |ts|
    ensures |r| == |ts|
    ensures forall i :: 0 <= i < |r| ==> r[i] + seasonal[i] + median == ts[i]
  {
    seq(|ts|, i requires 0 <= i < |ts| => ts[i] - seasonal[i] - median)
  }

  /** Under seasonal_esd's guard every round curr < max_anomalies runs at an
      active size of at least 3, so the t-distribution has at least one
      degree of freedom, the radicand of the critical value is positive, and
      for a significance level strictly between 0 and 1 the tail probability
      lies strictly between 1/2 and 1. */
  lemma GuardKeepsSizesValid(n: nat, maxAnomalies: int, curr: nat, alpha: real, t: real)
    requires 2 * maxAnomalies < n && curr < maxAnomalies
    ensures n - curr >= 3
    ensures DegreesOfFreedom(n - curr) >= 1
    ensures Radicand(n - curr, t) > 0.0
    ensures 0.0 < alpha < 1.0 ==> 0.5 < TailProbability(n - curr, alpha) < 1.0
  {
  }

  /** seasonal_esd. The decomposition (STL) and the median are supplied by
      the caller. The decomposition may reject its input (STL refuses a
      period below 2), which seasonal_esd does not catch; when it succeeds it
      returns one seasonal value per entry. */
  method SeasonalEsd(ts: seq<real>, periodicity: Option<int>, hybrid: bool, maxAnomalies: int, alpha: real,
                     decompose: (seq<real>, int) -> Option<seq<real>>, median: seq<real> -> real, stats: Stats)
    returns (r: Result<seq<nat>>)
    requires decompose(ts, Period(|ts|, periodicity)).Some? ==> |decompose(ts, Period(|ts|, periodicity)).value| == |ts|
    ensures 2 * maxAnomalies >= |ts| <==> r == Err(TooManyAnomalies)
    ensures 2 * maxAnomalies < |ts| && decompose(ts, Period(|ts|, periodicity)).None? ==> r == Err(DecompositionFailed)
    ensures 2 * maxAnomalies < |ts| && decompose(ts, Period(|ts|, periodicity)).Some? ==>
      r == Anomalies(Residual(ts, decompose(ts, Period(|ts|, periodicity)).value, median(ts)), maxAnomalies, alpha, hybrid, stats)
    ensures r.Ok? <==> 2 * maxAnomalies < |ts| && decompose(ts, Period(|ts|, periodicity)).Some?
    ensures r.Ok? ==>
      && |r.value| <= RoundCount(maxAnomalies)
      && Distinct(r.value)
      && (forall i :: 0 <= i < |r.value| ==> r.value[i] < |ts|)
    ensures r.Ok? ==> forall size :: |ts| - RoundCount(maxAnomalies) < size <= |ts| ==> DegreesOfFreedom(size) >= 1
    ensures r.Ok? ==> forall size, t :: |ts| - RoundCount(maxAnomalies) < size <= |ts| ==> Radicand(size, t) > 0.0
    ensures r.Ok? && 0.0 < alpha < 1.0 ==>
      forall size :: |ts| - RoundCount(maxAnomalies) < size <= |ts| ==> 0.5 < TailProbability(size, alpha) < 1.0
  {
    if 2 * maxAnomalies >= |ts| {
      return Err(TooManyAnomalies);
    }
    var period := Period(|ts|, periodicity);
    var seasonal := decompose(ts, period);
    if seasonal.None? {
      return Err(DecompositionFailed);
    }
    var residual := Residual(ts, seasonal.value, median(ts));
    r := GeneralizedEsd(residual, maxAnomalies, alpha, hybrid, stats);
    AnomaliesArePrefix(residual, maxAnomalies, alpha, hybrid, stats);
    forall size: int, t: real | |ts| - RoundCount(maxAnomalies) < size <= |ts|
      ensures DegreesOfFreedom(size) >= 1 && Radicand(size, t) > 0.0
      ensures 0.0 < alpha < 1.0 ==> 0.5 < TailProbability(size, alpha) < 1.0
    {
      GuardKeepsSizesValid(|ts|, maxAnomalies, |ts| - size, alpha, t);
    }
  }
}
