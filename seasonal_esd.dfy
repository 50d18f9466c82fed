/** The older ESD of seasonal_esd.py: each round removes the entry with the
    top absolute z-score from a working copy of the series instead of
    masking it, so the recorded indices refer to the shrunk copies; the
    report looks those indices up in the original series. */
module SeasonalEsd {
  import opened Grubbs

  /** The statistics the model leaves abstract: `zscore(ts, i)` is the signed
      z-score (mean and standard deviation with ddof = 1) of entry i within
      ts, and `critical` is Grubbs' critical value. */
  datatype ZStats = ZStats(zscore: (seq<real>, nat) -> real, critical: Critical)

  /** abs(stats.zscore(ts, ddof=1)), one score per entry. */
  function ZScores(ts: seq<real>, stats: ZStats): (s: seq<real>)
    ensures |s| == |ts|
    ensures forall i :: 0 <= i < |s| ==> s[i] >= 0.0
  {
    var s := seq(|ts|, i requires 0 <= i < |ts| => Abs(stats.zscore(ts, i)));
    assert forall i :: 0 <= i < |s| ==> s[i] == Abs(stats.zscore(ts, i));
    s
  }

  /** k is the lowest index holding the largest value of s. */
  predicate IsFirstMax(s: seq<real>, k: int)
  {
    && 0 <= k < |s|
    && (forall j :: 0 <= j < |s| ==> s[j] <= s[k])
    && (forall j :: 0 <= j < k ==> s[j] < s[k])
  }

  /** np.argmax of a non-empty array. */
  function ArgMax(s: seq<real>): (k: nat)
    requires |s| > 0
    ensures k < |s|
  {
    Scan(s, 0, 0)
  }

  /** The left-to-right scan behind ArgMax: `best` is the answer for the
      first i entries, and entry i replaces it only when strictly larger. */
  function Scan(s: seq<real>, i: nat, best: nat): (k: nat)
    requires |s| > 0 && i <= |s| && (best < i || best == 0)
    ensures k < |s|
    decreases |s| - i
  {
    if i == |s| then best
    else Scan(s, i + 1, if i == 0 || s[i] > s[best] then i else best)
  }

  /** What the scan knows after the first i > 0 entries: best is the first
      index of their largest value. */
  predicate ScanInvariant(s: seq<real>, i: nat, best: nat)
    requires i <= |s|
  {
    i > 0 ==>
      && best < i
      && (forall j :: 0 <= j < i ==> s[j] <= s[best])
      && (forall j :: 0 <= j < best ==> s[j] < s[best])
  }

  lemma {:induction false} ScanKeepsInvariant(s: seq<real>, i: nat, best: nat)
    requires |s| > 0 && i <= |s| && (best < i || best == 0)
    requires ScanInvariant(s, i, best)
    ensures ScanInvariant(s, |s|, Scan(s, i, best))
    decreases |s| - i
  {
    if i < |s| {
      ScanKeepsInvariant(s, i + 1, if i == 0 || s[i] > s[best] then i else best);
    }
  }

  lemma ArgMaxIsFirstMax(s: seq<real>)
    requires |s| > 0
    ensures IsFirstMax(s, ArgMax(s))
  {
    ScanKeepsInvariant(s, 0, 0);
  }

  /** The index and value of the top score of a non-empty series. */
  function Top(ts: seq<real>, stats: ZStats): (c: (nat, real))
    requires |ts| > 0
    ensures c.0 < |ts| && c.1 == ZScores(ts, stats)[c.0]
  {
    var s := ZScores(ts, stats);
    var k := ArgMax(s);
    (k, s[k])
  }

  lemma TopIsFirstMax(ts: seq<real>, stats: ZStats)
    requires |ts| > 0
    ensures IsFirstMax(ZScores(ts, stats), Top(ts, stats).0)
  {
    ArgMaxIsFirstMax(ZScores(ts, stats));
  }

  /** calculate_test_statistic: np.argmax raises on an empty array. */
  function TestStatistic(ts: seq<real>, stats: ZStats): (r: Result<(nat, real)>)
    ensures r.Err? <==> |ts| == 0
    ensures r.Err? ==> r.error == EmptySeries
    ensures r.Ok? ==>
      && r.value.0 < |ts| && r.value.1 == ZScores(ts, stats)[r.value.0]
      && IsFirstMax(ZScores(ts, stats), r.value.0)
    ensures r.Ok? ==> r.value == Top(ts, stats)
  {
    if |ts| == 0 then Err(EmptySeries)
    else
      TopIsFirstMax(ts, stats);
      Ok(Top(ts, stats))
  }

  /** np.delete(s, i): the series without entry i. */
  function Delete(s: seq<real>, i: nat): (r: seq<real>)
    requires i < |s|
    ensures |r| == |s| - 1
  {
    s[..i] + s[i + 1..]
  }

  /** Putting the deleted entry back at i gives the series again; entries
      before i keep their index and entries after it move down by one. */
  lemma DeleteReinsert(s: seq<real>, i: nat)
    requires i < |s|
    ensures var r := Delete(s, i);
      && r[..i] + [s[i]] + r[i..] == s
      && (forall j :: 0 <= j < i ==> r[j] == s[j])
      && (forall j :: i <= j < |r| ==> r[j] == s[j + 1])
  {
    var r := Delete(s, i);
    assert r[..i] == s[..i];
    assert r[i..] == s[i + 1..];
    assert s == s[..i] + [s[i]] + s[i + 1..];
  }

  /** The loop state of esd: the working copy, the chosen indices
      (test_statistics) and total_anomalies. */
  datatype Shrink = Shrink(ts: seq<real>, history: seq<nat>, total: int)

  /** Round `curr` of esd: pick the top z-score of the working copy, compare
      it with the critical value at the copy's current length, record the
      index and delete the entry. */
  function Round(p: Shrink, alpha: real, stats: ZStats, curr: nat): (q: Shrink)
    requires |p.ts| > 0
    ensures |q.ts| == |p.ts| - 1 && q.history == p.history + [Top(p.ts, stats).0]
    ensures q.total == if Top(p.ts, stats).1 > stats.critical(|p.ts|, alpha) then curr else p.total
  {
    var (idx, val) := Top(p.ts, stats);
    var crit := stats.critical(|p.ts|, alpha);
    Shrink(Delete(p.ts, idx), p.history + [idx], if val > crit then curr else p.total)
  }

  /** The state after the first k rounds of esd on timeseries (k <= its
      length, so that every round has an entry to pick). */
  function EsdAfter(timeseries: seq<real>, alpha: real, stats: ZStats, k: nat): (p: Shrink)
    requires k <= |timeseries|
    ensures |p.ts| == |timeseries| - k && |p.history| == k
  {
    if k == 0 then Shrink(timeseries, [], 0)
    else Round(EsdAfter(timeseries, alpha, stats, k - 1), alpha, stats, k - 1)
  }

  /** Round j (0-based) passes: its top z-score beats the critical value at
      size |timeseries| - j. */
  predicate EsdPasses(timeseries: seq<real>, alpha: real, stats: ZStats, j: nat)
    requires j < |timeseries|
  {
    Top(EsdAfter(timeseries, alpha, stats, j).ts, stats).1 > stats.critical(|timeseries| - j, alpha)
  }

  /** Every round shrinks the working copy by one, so the index recorded at
      round j addresses a copy of length |timeseries| - j; total_anomalies
      is a round number below k. */
  lemma {:induction false} EsdShape(timeseries: seq<real>, alpha: real, stats: ZStats, k: nat)
    requires k <= |timeseries|
    ensures var p := EsdAfter(timeseries, alpha, stats, k);
      && (forall j :: 0 <= j < k ==> p.history[j] < |timeseries| - j)
      && 0 <= p.total && (k > 0 ==> p.total < k)
  {
    if k > 0 {
      EsdShape(timeseries, alpha, stats, k - 1);
      var p := EsdAfter(timeseries, alpha, stats, k - 1);
      var q := EsdAfter(timeseries, alpha, stats, k);
      assert q == Round(p, alpha, stats, k - 1);
      assert q.history == p.history + [Top(p.ts, stats).0];
    }
  }

  /** The history only grows. */
  lemma {:induction false} EsdHistoryPrefix(timeseries: seq<real>, alpha: real, stats: ZStats, j: nat, k: nat)
    requires j <= k <= |timeseries|
    ensures EsdAfter(timeseries, alpha, stats, j).history == EsdAfter(timeseries, alpha, stats, k).history[..j]
    decreases k
  {
    if j < k {
      EsdHistoryPrefix(timeseries, alpha, stats, j, k - 1);
      assert EsdAfter(timeseries, alpha, stats, k).history[..k - 1] == EsdAfter(timeseries, alpha, stats, k - 1).history;
    }
  }

  /** The index recorded at round j is the lowest index of the top z-score in
      the working copy of that round. */
  lemma RecordedIsTop(timeseries: seq<real>, alpha: real, stats: ZStats, j: nat, k: nat)
    requires j < k <= |timeseries|
    ensures var w := EsdAfter(timeseries, alpha, stats, j).ts;
      IsFirstMax(ZScores(w, stats), EsdAfter(timeseries, alpha, stats, k).history[j])
  {
    TopIsFirstMax(EsdAfter(timeseries, alpha, stats, j).ts, stats);
    EsdHistoryPrefix(timeseries, alpha, stats, j + 1, k);
    assert EsdAfter(timeseries, alpha, stats, k).history[j] == EsdAfter(timeseries, alpha, stats, j + 1).history[j];
  }

  /** Round k - 1 sets total_anomalies to k - 1 when it passes and keeps
      it otherwise. */
  lemma TotalStep(timeseries: seq<real>, alpha: real, stats: ZStats, k: nat)
    requires 0 < k <= |timeseries|
    ensures EsdAfter(timeseries, alpha, stats, k).total
      == if EsdPasses(timeseries, alpha, stats, k - 1) then k - 1 else EsdAfter(timeseries, alpha, stats, k - 1).total
  {
    assert EsdAfter(timeseries, alpha, stats, k) == Round(EsdAfter(timeseries, alpha, stats, k - 1), alpha, stats, k - 1);
  }

  /** total_anomalies after k rounds is the last passing round, or 0 when no
      round after round 0 passed. */
  lemma {:induction false} TotalIsLastPass(timeseries: seq<real>, alpha: real, stats: ZStats, k: nat)
    requires k <= |timeseries|
    ensures var t := EsdAfter(timeseries, alpha, stats, k).total;
      && 0 <= t && (k > 0 ==> t < k)
      && (t > 0 ==> EsdPasses(timeseries, alpha, stats, t))
      && (forall j :: t < j < k ==> !EsdPasses(timeseries, alpha, stats, j))
  {
    if k > 0 {
      TotalIsLastPass(timeseries, alpha, stats, k - 1);
      TotalStep(timeseries, alpha, stats, k);
    }
  }

  /** The first total_anomalies + 1 recorded indices (fewer when there are
      fewer), looked up in the original series. */
  function Reported(timeseries: seq<real>, history: seq<nat>, total: int): (r: seq<real>)
    requires total >= 0
    requires forall j :: 0 <= j < |history| ==> history[j] < |timeseries|
    ensures |r| == Min(total + 1, |history|)
    ensures forall i :: 0 <= i < |r| ==> r[i] == timeseries[history[i]]
  {
    var pre := history[..Min(total + 1, |history|)];
    seq(|pre|, i requires 0 <= i < |pre| => timeseries[pre[i]])
  }

  /** What esd returns or raises: with more rounds than entries the round at
      curr == |timeseries| finds the copy empty and np.argmax raises. */
  function Outliers(timeseries: seq<real>, maxAnomalies: int, alpha: real, stats: ZStats): (r: Result<seq<real>>)
    ensures r.Ok? <==> maxAnomalies <= |timeseries|
    ensures r.Err? ==> r.error == EmptySeries
    ensures r.Ok? ==>
      var h := EsdAfter(timeseries, alpha, stats, RoundCount(maxAnomalies)).history;
      && |r.value| <= |h| == RoundCount(maxAnomalies)
      && (forall i :: 0 <= i < |r.value| ==> h[i] < |timeseries| && r.value[i] == timeseries[h[i]])
  {
    var rounds := RoundCount(maxAnomalies);
    if rounds > |timeseries| then Err(EmptySeries)
    else
      var p := EsdAfter(timeseries, alpha, stats, rounds);
      EsdShape(timeseries, alpha, stats, rounds);
      Ok(Reported(timeseries, p.history, p.total))
  }

  /** esd. The caller's array is read, never written (no modifies clause):
      the rounds work on a copy that is rebound to a shorter one each round. */
  method Esd(timeseries: array<real>, maxAnomalies: int, alpha: real, stats: ZStats) returns (r: Result<seq<real>>)
    ensures r == Outliers(timeseries[..], maxAnomalies, alpha, stats)
  {
    var original := timeseries[..];
    var ts := original;
    var testStatistics: seq<nat> := [];
    var totalAnomalies := 0;
    for curr := 0 to RoundCount(maxAnomalies)
      invariant curr <= |original|
      invariant EsdAfter(original, alpha, stats, curr) == Shrink(ts, testStatistics, totalAnomalies)
    {
      var stat := TestStatistic(ts, stats);
      if stat.Err? {
        return Err(stat.error);
      }
      var (testIdx, testVal) := stat.value;
      var criticalValue := CriticalValue(|ts|, alpha, stats.critical).value;
      if testVal > criticalValue {
        totalAnomalies := curr;
      }
      testStatistics := testStatistics + [testIdx];
      ts := Delete(ts, testIdx);
    }
    EsdShape(original, alpha, stats, RoundCount(maxAnomalies));
    var pre := testStatistics[..Min(totalAnomalies + 1, |testStatistics|)];
    r := Ok(seq(|pre|, i requires 0 <= i < |pre| => original[pre[i]]));
  }

  /** esd fails exactly when it has more rounds than entries; otherwise it
      reports total_anomalies + 1 values, so at least one whenever it runs a
      round, even if no round passed, and never more than it ran rounds. */
  lemma OutliersShape(timeseries: seq<real>, maxAnomalies: int, alpha: real, stats: ZStats)
    ensures Outliers(timeseries, maxAnomalies, alpha, stats).Ok? <==> maxAnomalies <= |timeseries|
    ensures var o := Outliers(timeseries, maxAnomalies, alpha, stats);
      var rounds := RoundCount(maxAnomalies);
      o.Ok? ==>
        && (rounds == 0 ==> o.value == [])
        && (rounds > 0 ==> |o.value| == EsdAfter(timeseries, alpha, stats, rounds).total + 1)
        && |o.value| <= rounds
  {
    var rounds := RoundCount(maxAnomalies);
    if rounds <= |timeseries| {
      EsdShape(timeseries, alpha, stats, rounds);
    }
  }

  /** Each reported value is the original series' entry at the index recorded
      in that round, and the last reported round is the last passing one. */
  lemma OutliersLookBack(timeseries: seq<real>, maxAnomalies: int, alpha: real, stats: ZStats)
    requires 0 < maxAnomalies <= |timeseries|
    ensures var o := Outliers(timeseries, maxAnomalies, alpha, stats).value;
      var h := EsdAfter(timeseries, alpha, stats, maxAnomalies).history;
      && |o| <= |h|
      && (forall j :: 0 <= j < |h| ==> h[j] < |timeseries|)
      && (forall j :: 0 <= j < |o| ==> o[j] == timeseries[h[j]])
      && (|o| > 1 ==> EsdPasses(timeseries, alpha, stats, |o| - 1))
      && (forall j :: |o| - 1 < j < maxAnomalies ==> !EsdPasses(timeseries, alpha, stats, j))
  {
    EsdShape(timeseries, alpha, stats, maxAnomalies);
    TotalIsLastPass(timeseries, alpha, stats, maxAnomalies);
    var p := EsdAfter(timeseries, alpha, stats, maxAnomalies);
    var o := Reported(timeseries, p.history, p.total);
    assert Outliers(timeseries, maxAnomalies, alpha, stats).value == o;
    assert |o| == p.total + 1;
    assert forall j :: 0 <= j < |o| ==> o[j] == timeseries[p.history[j]];
  }

  // ---------------------------------------------------------------------
  // The values the rounds actually remove

  /** The entry each of the first k rounds deleted from its working copy. */
  function Removed(timeseries: seq<real>, alpha: real, stats: ZStats, k: nat): (r: seq<real>)
    requires k <= |timeseries|
    ensures |r| == k
  {
    if k == 0 then []
    else
      var w := EsdAfter(timeseries, alpha, stats, k - 1).ts;
      Removed(timeseries, alpha, stats, k - 1) + [w[Top(w, stats).0]]
  }

  /** The working copy and the removed values together are the original
      series, as multisets. */
  predicate Conserved(rest: seq<real>, removed: seq<real>, orig: seq<real>)
  {
    multiset(rest) + multiset(removed) == multiset(orig)
  }

  /** Nothing is lost: after every round the working copy and the values
      removed so far make up the original series. */
  lemma {:induction false} RemovedAndRemaining(timeseries: seq<real>, alpha: real, stats: ZStats, k: nat)
    requires k <= |timeseries|
    ensures Conserved(EsdAfter(timeseries, alpha, stats, k).ts, Removed(timeseries, alpha, stats, k), timeseries)
  {
    if k > 0 {
      RemovedAndRemaining(timeseries, alpha, stats, k - 1);
      var p := EsdAfter(timeseries, alpha, stats, k - 1);
      var r0 := Removed(timeseries, alpha, stats, k - 1);
      RoundConserves(p, alpha, stats, k - 1, r0, timeseries);
      assert EsdAfter(timeseries, alpha, stats, k) == Round(p, alpha, stats, k - 1);
      assert Removed(timeseries, alpha, stats, k) == r0 + [p.ts[Top(p.ts, stats).0]];
    }
  }

  /** One round moves exactly the deleted value from the working copy to the
      removed values. */
  lemma RoundConserves(p: Shrink, alpha: real, stats: ZStats, curr: nat, removed: seq<real>, orig: seq<real>)
    requires |p.ts| > 0 && Conserved(p.ts, removed, orig)
    ensures Conserved(Round(p, alpha, stats, curr).ts, removed + [p.ts[Top(p.ts, stats).0]], orig)
  {
    var idx := Top(p.ts, stats).0;
    DeleteMultiset(p.ts, idx);
    ConservedStep(Round(p, alpha, stats, curr).ts, p.ts, removed, p.ts[idx], orig);
  }

  lemma ConservedStep(rest: seq<real>, prev: seq<real>, removed: seq<real>, x: real, orig: seq<real>)
    requires multiset(rest) + multiset{x} == multiset(prev)
    requires Conserved(prev, removed, orig)
    ensures Conserved(rest, removed + [x], orig)
  {
    assert multiset(removed + [x]) == multiset(removed) + multiset{x};
  }

  /** Deleting an entry removes exactly that one value from the multiset. */
  lemma DeleteMultiset(s: seq<real>, i: nat)
    requires i < |s|
    ensures multiset(Delete(s, i)) + multiset{s[i]} == multiset(s)
  {
    assert s == s[..i] + [s[i]] + s[i + 1..];
  }

  /** The report esd evidently intends: the values removed in rounds 0 to
      total_anomalies. */
  function RemovedOutliers(timeseries: seq<real>, maxAnomalies: int, alpha: real, stats: ZStats): (r: Result<seq<real>>)
    ensures r.Ok? <==> maxAnomalies <= |timeseries|
    ensures r.Ok? ==>
      && |r.value| <= RoundCount(maxAnomalies)
      && r.value == Removed(timeseries, alpha, stats, RoundCount(maxAnomalies))[..|r.value|]
    ensures r.Ok? && RoundCount(maxAnomalies) == 0 ==> r.value == []
    ensures r.Ok? && RoundCount(maxAnomalies) > 0 ==>
      |r.value| == EsdAfter(timeseries, alpha, stats, RoundCount(maxAnomalies)).total + 1
    ensures r.Ok? ==> multiset(r.value) <= multiset(timeseries)
  {
    var rounds := RoundCount(maxAnomalies);
    if rounds > |timeseries| then Err(EmptySeries)
    else
      var p := EsdAfter(timeseries, alpha, stats, rounds);
      var removed := Removed(timeseries, alpha, stats, rounds);
      EsdShape(timeseries, alpha, stats, rounds);
      var pre := removed[..Min(p.total + 1, rounds)];
      RemovedAndRemaining(timeseries, alpha, stats, rounds);
      assert removed == pre + removed[|pre|..];
      assert multiset(removed) == multiset(pre) + multiset(removed[|pre|..]);
      Ok(pre)
  }

  /** Each value of the intended report is the one its round deleted, which
      is the top z-score of that round's working copy. */
  lemma RemovedOutliersAreTop(timeseries: seq<real>, maxAnomalies: int, alpha: real, stats: ZStats, j: nat)
    requires 0 < maxAnomalies <= |timeseries|
    requires j < |RemovedOutliers(timeseries, maxAnomalies, alpha, stats).value|
    ensures var w := EsdAfter(timeseries, alpha, stats, j).ts;
      exists i :: IsFirstMax(ZScores(w, stats), i) && RemovedOutliers(timeseries, maxAnomalies, alpha, stats).value[j] == w[i]
  {
    RemovedAt(timeseries, alpha, stats, j, maxAnomalies);
    var w := EsdAfter(timeseries, alpha, stats, j).ts;
    TopIsFirstMax(w, stats);
  }

  lemma {:induction false} RemovedPrefix(timeseries: seq<real>, alpha: real, stats: ZStats, j: nat, k: nat)
    requires j <= k <= |timeseries|
    ensures Removed(timeseries, alpha, stats, j) == Removed(timeseries, alpha, stats, k)[..j]
    decreases k
  {
    if j < k {
      RemovedPrefix(timeseries, alpha, stats, j, k - 1);
      assert Removed(timeseries, alpha, stats, k)[..k - 1] == Removed(timeseries, alpha, stats, k - 1);
    }
  }

  lemma RemovedAt(timeseries: seq<real>, alpha: real, stats: ZStats, j: nat, k: nat)
    requires j < k <= |timeseries|
    ensures var w := EsdAfter(timeseries, alpha, stats, j).ts;
      Removed(timeseries, alpha, stats, k)[j] == w[Top(w, stats).0]
  {
    RemovedPrefix(timeseries, alpha, stats, j + 1, k);
    assert Removed(timeseries, alpha, stats, k)[j] == Removed(timeseries, alpha, stats, j + 1)[j];
  }

  /** The report looks shrunk-copy indices up in the original series: on
      [10, 0, 0, 5, 0] with two rounds, where round 0 removes the 10 and the
      5 moves from index 3 to index 2 before round 1 removes it, esd reports
      10 and timeseries[2] == 0 instead of 10 and 5. The scores are the
      deviations from the mean scaled by the length, which rank entries as
      the z-scores do; round 0 fails and round 1 passes. */
  lemma ShiftedIndexReportsWrongValue()
    ensures var ts := [10.0, 0.0, 0.0, 5.0, 0.0];
      && Outliers(ts, 2, 0.05, ExampleStats()) == Ok([10.0, 0.0])
      && RemovedOutliers(ts, 2, 0.05, ExampleStats()) == Ok([10.0, 5.0])
  {
    ExampleOutliers();
    ExampleRemovedOutliers();
  }

  lemma ExampleOutliers()
    ensures Outliers([10.0, 0.0, 0.0, 5.0, 0.0], 2, 0.05, ExampleStats()) == Ok([10.0, 0.0])
  {
    var ts := [10.0, 0.0, 0.0, 5.0, 0.0];
    var stats := ExampleStats();
    ExampleRounds();
    var p2 := EsdAfter(ts, 0.05, stats, 2);
    assert p2.history[..Min(p2.total + 1, |p2.history|)] == [0, 2];
    assert Reported(ts, p2.history, p2.total) == [10.0, 0.0];
    assert Outliers(ts, 2, 0.05, stats) == Ok(Reported(ts, p2.history, p2.total));
  }

  lemma ExampleRemovedOutliers()
    ensures RemovedOutliers([10.0, 0.0, 0.0, 5.0, 0.0], 2, 0.05, ExampleStats()) == Ok([10.0, 5.0])
  {
    var ts := [10.0, 0.0, 0.0, 5.0, 0.0];
    var stats := ExampleStats();
    ExampleRemoved();
    ExampleRounds();
    var p2 := EsdAfter(ts, 0.05, stats, 2);
    assert [10.0, 5.0][..Min(p2.total + 1, 2)] == [10.0, 5.0];
  }

  lemma ExampleRemoved()
    ensures Removed([10.0, 0.0, 0.0, 5.0, 0.0], 0.05, ExampleStats(), 2) == [10.0, 5.0]
  {
    var ts := [10.0, 0.0, 0.0, 5.0, 0.0];
    var stats := ExampleStats();
    ExampleRounds();
    var p1 := EsdAfter(ts, 0.05, stats, 1);
    assert Removed(ts, 0.05, stats, 1) == [10.0] by {
      assert Top(ts, stats) == (0, 35.0) by { ExampleTop0(); }
    }
    assert p1.ts == [0.0, 0.0, 5.0, 0.0];
    ExampleTop1();
  }

  lemma ExampleRounds()
    ensures var ts := [10.0, 0.0, 0.0, 5.0, 0.0];
      && EsdAfter(ts, 0.05, ExampleStats(), 1) == Shrink([0.0, 0.0, 5.0, 0.0], [0], 0)
      && EsdAfter(ts, 0.05, ExampleStats(), 2) == Shrink([0.0, 0.0, 0.0], [0, 2], 1)
  {
    var ts := [10.0, 0.0, 0.0, 5.0, 0.0];
    var stats := ExampleStats();
    ExampleTop0();
    var p1 := EsdAfter(ts, 0.05, stats, 1);
    assert p1 == Round(Shrink(ts, [], 0), 0.05, stats, 0);
    assert Delete(ts, 0) == [0.0, 0.0, 5.0, 0.0];
    assert p1 == Shrink([0.0, 0.0, 5.0, 0.0], [0], 0);
    ExampleTop1();
    var p2 := EsdAfter(ts, 0.05, stats, 2);
    assert p2 == Round(p1, 0.05, stats, 1);
    assert Delete(p1.ts, 2) == [0.0, 0.0, 0.0];
  }

  lemma ExampleTop0()
    ensures Top([10.0, 0.0, 0.0, 5.0, 0.0], ExampleStats()) == (0, 35.0)
  {
    var w := [10.0, 0.0, 0.0, 5.0, 0.0];
    var stats := ExampleStats();
    assert Sum(w) == 15.0 by {
      assert w[..4] == [10.0, 0.0, 0.0, 5.0];
      assert w[..4][..3] == [10.0, 0.0, 0.0];
      assert [10.0, 0.0, 0.0][..2] == [10.0, 0.0];
      assert [10.0, 0.0][..1] == [10.0];
      assert [10.0][..0] == [];
    }
    var s := ZScores(w, stats);
    assert s[0] == 35.0 && s[1] == 15.0 && s[2] == 15.0 && s[3] == 10.0 && s[4] == 15.0 by {
      assert stats.zscore(w, 0) == 35.0 && stats.zscore(w, 1) == -15.0 && stats.zscore(w, 2) == -15.0;
      assert stats.zscore(w, 3) == 10.0 && stats.zscore(w, 4) == -15.0;
    }
    ArgMaxIsFirstMax(s);
  }

  lemma ExampleTop1()
    ensures Top([0.0, 0.0, 5.0, 0.0], ExampleStats()) == (2, 15.0)
  {
    var w := [0.0, 0.0, 5.0, 0.0];
    var stats := ExampleStats();
    assert Sum(w) == 5.0 by {
      assert w[..3] == [0.0, 0.0, 5.0];
      assert w[..3][..2] == [0.0, 0.0];
      assert [0.0, 0.0][..1] == [0.0];
      assert [0.0][..0] == [];
    }
    var s := ZScores(w, stats);
    assert s[0] == 5.0 && s[1] == 5.0 && s[2] == 15.0 && s[3] == 5.0 by {
      assert stats.zscore(w, 0) == -5.0 && stats.zscore(w, 1) == -5.0;
      assert stats.zscore(w, 2) == 15.0 && stats.zscore(w, 3) == -5.0;
    }
    ArgMaxIsFirstMax(s);
  }

  function Sum(s: seq<real>): real
  {
    if s == [] then 0.0 else Sum(s[..|s| - 1]) + s[|s| - 1]
  }

  /** Scores for the example: |ts| * ts[i] - sum(ts), a positive multiple of
      the deviation from the mean; the critical value lets only size 4 pass. */
  function ExampleStats(): ZStats
  {
    ZStats((ts: seq<real>, i: nat) => if i < |ts| then (|ts| as real) * ts[i] - Sum(ts) else 0.0,
           (size: int, alpha: real) => if size == 4 then 0.0 else 1000.0)
  }

  /** seasonal_esd in this file is an empty stub: it returns None whatever
      it is given. */
  function SeasonalEsd(ts: seq<real>, seasonality: int, maxAnomalies: int, alpha: real): (r: Option<seq<real>>)
    ensures r == None
  {
    None
  }
}
