/** How far a bounded number of adversarial updates can move each aggregate. */
module AggregatorTheorems {
  import opened Collections
  import opened Aggregators

  // ---------- counting ----------

  function CountAtMost(s: seq<real>, x: real): (r: nat)
    ensures r <= |s|
  {
    if s == [] then 0 else CountAtMost(s[..|s| - 1], x) + if s[|s| - 1] <= x then 1 else 0
  }

  function PositionsAtMost(s: seq<real>, x: real): set<nat> {
    set i | i in Slots(|s|) && s[i] <= x
  }

  /** Counting by value and counting positions agree. */
  lemma {:induction false} CountIsPositions(s: seq<real>, x: real)
    ensures CountAtMost(s, x) == |PositionsAtMost(s, x)|
  {
    if s != [] {
      var front := s[..|s| - 1];
      CountIsPositions(front, x);
      assert PositionsAtMost(s, x)
          == PositionsAtMost(front, x) + if s[|s| - 1] <= x then {|s| - 1} else {};
    }
  }

  lemma {:induction false} CountInsert(v: real, s: seq<real>, x: real)
    requires Ascending(s)
    ensures CountAtMost(Insert(v, s), x) == CountAtMost(s, x) + if v <= x then 1 else 0
  {
    if s != [] {
      var r := Insert(v, s);
      if s[|s| - 1] <= v {
        assert r[..|s|] == s;
      } else {
        CountInsert(v, s[..|s| - 1], x);
        assert r[..|r| - 1] == Insert(v, s[..|s| - 1]);
      }
    } else {
      assert [v][..0] == [];
    }
  }

  lemma {:induction false} CountSort(s: seq<real>, x: real)
    ensures CountAtMost(Sort(s), x) == CountAtMost(s, x)
  {
    if s != [] {
      CountSort(s[..|s| - 1], x);
      CountInsert(s[|s| - 1], Sort(s[..|s| - 1]), x);
    }
  }

  /** In ascending order, the entries up to x are exactly a prefix. */
  lemma {:induction false} CountAscending(s: seq<real>, x: real, m: nat)
    requires Ascending(s) && m < |s|
    ensures s[m] <= x <==> CountAtMost(s, x) > m
  {
    var last := |s| - 1;
    if m < last {
      CountAscending(s[..last], x, m);
    } else if s[last] <= x {
      AllCounted(s, x);
    }
  }

  lemma {:induction false} AllCounted(s: seq<real>, x: real)
    requires forall i :: 0 <= i < |s| ==> s[i] <= x
    ensures CountAtMost(s, x) == |s|
  {
    if s != [] {
      AllCounted(s[..|s| - 1], x);
    }
  }

  /** The entry at rank m of the sorted values is at least the value of some position outside any set
      of at most m positions. */
  lemma RankAboveSome(s: seq<real>, m: nat, bad: set<nat>) returns (i: nat)
    requires m < |s| && |bad| <= m
    ensures i < |s| && i !in bad && s[i] <= Sort(s)[m]
  {
    var x := Sort(s)[m];
    CountAscending(Sort(s), x, m);
    CountSort(s, x);
    CountIsPositions(s, x);
    if PositionsAtMost(s, x) <= bad {
      SubsetSize(PositionsAtMost(s, x), bad);
    }
    i :| i in PositionsAtMost(s, x) && i !in bad;
  }

  /** And it is at most the value of some position outside any set of fewer than n-m positions. */
  lemma RankBelowSome(s: seq<real>, m: nat, bad: set<nat>) returns (i: nat)
    requires m < |s| && |bad| < |s| - m && bad <= Slots(|s|)
    ensures i < |s| && i !in bad && s[i] >= Sort(s)[m]
  {
    var x := Sort(s)[m];
    var good := Slots(|s|) - bad;
    assert |good| == |s| - |bad|;
    if forall j :: j in good ==> s[j] < x {
      var y := LargestBelow(s, good, x);
      CountAscending(Sort(s), y, m);
      CountSort(s, y);
      CountIsPositions(s, y);
      assert good <= PositionsAtMost(s, y);
      SubsetSize(good, PositionsAtMost(s, y));
    }
    i :| i in good && s[i] >= x;
  }

  lemma {:induction false} LargestBelow(s: seq<real>, good: set<nat>, x: real) returns (y: real)
    requires forall j :: j in good ==> j < |s| && s[j] < x
    ensures y < x && forall j :: j in good ==> s[j] <= y
    decreases |good|
  {
    if good == {} {
      y := x - 1.0;
    } else {
      var j :| j in good;
      y := LargestBelow(s, good - {j}, x);
      if s[j] > y { y := s[j]; }
    }
  }

  // ---------- trimmed mean ----------

  lemma {:induction false} SumBounds(s: seq<real>, low: real, high: real)
    requires forall i :: 0 <= i < |s| ==> low <= s[i] <= high
    ensures |s| as real * low <= Sum(s) <= |s| as real * high
  {
    if s != [] {
      SumBounds(s[..|s| - 1], low, high);
    }
  }

  function Times(n: nat, x: real): real {
    n as real * x
  }

  lemma SumAtMost(s: seq<real>, n: nat, high: real)
    requires |s| == n && forall i :: 0 <= i < n ==> 0.0 <= s[i] <= high
    ensures Sum(s) <= Times(n, high)
  {
    SumBounds(s, 0.0, high);
  }

  lemma MeanBounds(s: seq<real>, low: real, high: real)
    requires s != [] && forall i :: 0 <= i < |s| ==> low <= s[i] <= high
    ensures Mean(s).Number? && low <= Mean(s).value <= high
  {
    SumBounds(s, low, high);
    DivideBounds(Sum(s), |s| as real, low, high);
  }

  lemma DivideBounds(sum: real, n: real, low: real, high: real)
    requires n > 0.0 && n * low <= sum <= n * high
    ensures low <= sum / n <= high
  {
    var q := sum / n;
    assert q * n == sum;
    if q < low {
      NegativeTimesPositive(q - low, n);
    }
    if q > high {
      NegativeTimesPositive(high - q, n);
    }
  }

  lemma NegativeTimesPositive(a: real, b: real)
    requires a < 0.0 && b > 0.0
    ensures a * b < 0.0
  {}

  /** Below one half the two trims leave something in the middle. */
  lemma TrimLeavesSome(n: nat, fraction: real)
    requires n > 0 && fraction < 0.5
    ensures 2 * TrimCount(n, fraction) < n
  {
    var x := n as real * fraction;
    assert x < n as real * 0.5;
    if x >= 0.0 {
      assert x.Floor as real <= x;
    }
  }

  /** With at most k adversarial values the trimmed mean lies between two honest ones. */
  lemma TrimmedValuesRobust(values: seq<real>, k: nat, bad: set<nat>) returns (low: nat, high: nat)
    requires 2 * k < |values| && bad <= Slots(|values|) && |bad| <= k
    ensures low < |values| && high < |values| && low !in bad && high !in bad
    ensures var mean := Mean(Trim(Sort(values), k));
      mean.Number? && values[low] <= mean.value <= values[high]
  {
    hide Mean, Sum, Sort, Slots;
    var sorted := Sort(values);
    low := RankAboveSome(values, k, bad);
    high := RankBelowSome(values, |values| - k - 1, bad);
    MeanBounds(sorted[k..|values| - k], sorted[k], sorted[|values| - k - 1]);
    assert Trim(sorted, k) == sorted[k..|values| - k];
  }

  /** The plain mean lies between two of the values, so it is as robust as its worst contributor. */
  lemma FedAvgBetween(updates: seq<Update>, c: nat) returns (low: nat, high: nat)
    requires Aligned(updates) && updates != [] && c < |updates[0]|
    ensures low < |updates| && high < |updates|
    ensures updates[low][c] <= FedAvg(updates)[c] <= updates[high][c]
  {
    var values := Column(updates, c);
    low := RankAboveSome(values, 0, {});
    high := RankBelowSome(values, |values| - 1, {});
    forall i | 0 <= i < |values| ensures Sort(values)[0] <= values[i] <= Sort(values)[|values| - 1] {
      WithinRanks(values, i);
    }
    MeanBounds(values, Sort(values)[0], Sort(values)[|values| - 1]);
  }

  lemma WithinRanks(s: seq<real>, i: nat)
    requires i < |s|
    ensures Sort(s)[0] <= s[i] <= Sort(s)[|s| - 1]
  {
    assert s[i] in multiset(s);
    assert s[i] in multiset(Sort(s));
    var j :| 0 <= j < |s| && Sort(s)[j] == s[i];
  }

  lemma TrimmedMeanAt(updates: seq<Update>, fraction: real, c: nat)
    requires Aligned(updates) && updates != [] && c < |updates[0]|
    ensures |TrimmedMean(updates, fraction)| == |updates[0]|
    ensures TrimmedMean(updates, fraction)[c]
         == Mean(Trim(Sort(Column(updates, c)), TrimCount(|updates|, fraction)))
  {}

  /** With at most k adversarial updates and a fraction below one half, each coordinate lies between
      the values that two honest updates have there. */
  lemma TrimmedMeanRobust(updates: seq<Update>, fraction: real, bad: set<nat>, c: nat) returns (low: nat, high: nat)
    requires Aligned(updates) && updates != [] && c < |updates[0]|
    requires 0.0 <= fraction < 0.5
    requires bad <= Slots(|updates|) && |bad| <= TrimCount(|updates|, fraction)
    ensures low < |updates| && high < |updates| && low !in bad && high !in bad
    ensures TrimmedMean(updates, fraction)[c].Number?
    ensures updates[low][c] <= TrimmedMean(updates, fraction)[c].value <= updates[high][c]
  {
    var k: nat := TrimCount(|updates|, fraction);
    TrimLeavesSome(|updates|, fraction);
    TrimmedMeanAt(updates, fraction, c);
    hide Mean, Trim, Sort, Slots, TrimmedMean, TrimCount;
    low, high := TrimmedValuesRobust(Column(updates, c), k, bad);
  }

  // ---------- Krum ----------

  lemma {:induction false} SumNonNegative(s: seq<real>)
    requires forall j :: 0 <= j < |s| ==> s[j] >= 0.0
    ensures Sum(s) >= 0.0
  {
    if s != [] {
      SumNonNegative(s[..|s| - 1]);
    }
  }

  /** A sum of entries that are not negative bounds each of them. */
  lemma {:induction false} SumDominates(s: seq<real>, i: nat)
    requires i < |s| && forall j :: 0 <= j < |s| ==> s[j] >= 0.0
    ensures s[i] <= Sum(s)
  {
    var front := s[..|s| - 1];
    SumNonNegative(front);
    if i < |front| {
      SumDominates(front, i);
    }
  }

  lemma SortNonNegative(s: seq<real>)
    requires forall j :: 0 <= j < |s| ==> s[j] >= 0.0
    ensures forall m :: 0 <= m < |s| ==> Sort(s)[m] >= 0.0
  {
    forall m | 0 <= m < |s| ensures Sort(s)[m] >= 0.0 {
      var i := RankAboveSome(s, m, {});
    }
  }

  ghost predicate Clustered(updates: seq<Update>, honest: set<nat>, d2: real)
    requires Aligned(updates)
  {
    && (forall i :: i in honest ==> i < |updates|)
    && forall i, j :: i in honest && j in honest ==> Distance(updates[i], updates[j]) <= d2
  }

  lemma RanksWithin(row: seq<real>, k: nat, d2: real)
    requires k + 2 <= |row| && CountAtMost(row, d2) >= k + 2 && forall j :: 0 <= j < |row| ==> row[j] >= 0.0
    ensures forall m :: 1 <= m < k + 1 ==> 0.0 <= Sort(row)[m] <= d2
  {
    hide Sort, CountAtMost;
    CountSort(row, d2);
    SortNonNegative(row);
    forall m | 1 <= m < k + 1 ensures 0.0 <= Sort(row)[m] <= d2 {
      CountAscending(Sort(row), d2, m);
    }
  }

  /** A row with at least k+2 entries up to d2 scores at most k * d2. */
  lemma RowScoreBounded(row: seq<real>, k: nat, d2: real)
    requires k + 2 <= |row| && CountAtMost(row, d2) >= k + 2 && forall j :: 0 <= j < |row| ==> row[j] >= 0.0
    ensures RowScore(row, k) <= Times(k, d2)
  {
    hide Sort, CountAtMost, Sum, Times;
    RanksWithin(row, k, d2);
    SumAtMost(Sort(row)[1..k + 1], k, d2);
  }

  /** An honest update has at least n-f entries within d2, itself among them. */
  lemma HonestScore(updates: seq<Update>, f: nat, honest: set<nat>, d2: real, i: nat)
    requires Aligned(updates) && Clustered(updates, honest, d2) && i in honest
    requires |updates| >= 2 * f + 3 && |honest| + f >= |updates|
    ensures RowScore(Distances(updates, i), |updates| - f - 2) <= Times(|updates| - f - 2, d2)
  {
    hide RowScore;
    var row := Distances(updates, i);
    assert honest <= PositionsAtMost(row, d2);
    SubsetSize(honest, PositionsAtMost(row, d2));
    CountIsPositions(row, d2);
    RowScoreBounded(row, |updates| - f - 2, d2);
  }

  /** Whatever update wins, some honest update is within its score of it. */
  lemma HonestNearby(updates: seq<Update>, f: nat, honest: set<nat>, w: nat) returns (h: nat)
    requires Aligned(updates) && w < |updates| && honest <= Slots(|updates|)
    requires |updates| >= 2 * f + 3 && |honest| + f >= |updates|
    ensures h in honest && Distance(updates[w], updates[h]) <= RowScore(Distances(updates, w), |updates| - f - 2)
  {
    var row, k := Distances(updates, w), |updates| - f - 2;
    var sorted := Sort(row);
    var bad := Slots(|updates|) - honest;
    assert |bad| == |updates| - |honest|;
    h := RankAboveSome(row, k, bad);
    SortNonNegative(row);
    SumDominates(sorted[1..k + 1], k - 1);
  }

  /** Krum resilience: with n >= 2f+3 updates of which at least n-f are honest and lie within a squared
      distance d2 of each other, the selected update is within (n-f-2) * d2 of an honest one. */
  lemma KrumResilient(updates: seq<Update>, f: nat, honest: set<nat>, d2: real) returns (w: nat, h: nat)
    requires Aligned(updates) && Clustered(updates, honest, d2)
    requires |updates| >= 2 * f + 3 && |honest| + f >= |updates|
    ensures w < |updates| && KrumSpec(updates, f) == updates[w]
    ensures h in honest && Distance(updates[w], updates[h]) <= Times(|updates| - f - 2, d2)
  {
    hide Distance, RowScore;
    var scores := Scores(updates, |updates| - f - 2);
    w := ArgMin(scores);
    assert honest <= Slots(|updates|);
    h := HonestNearby(updates, f, honest, w);
    HonestScore(updates, f, honest, d2, h);
    assert scores[w] <= scores[h];
  }

  /** Below 2f+3 updates Krum is the plain mean, and one update can put any coordinate anywhere. */
  lemma FallbackUnprotected(updates: seq<Update>, f: nat, c: nat, target: real) returns (moved: seq<Update>)
    requires Aligned(updates) && 0 < |updates| < 2 * f + 3 && c < |updates[0]|
    ensures |moved| == |updates| && Aligned(moved) && |moved[0]| == |updates[0]|
    ensures forall i :: 0 <= i < |updates| - 1 ==> moved[i] == updates[i]
    ensures KrumSpec(moved, f)[c] == target
  {
    var last, n := |updates| - 1, |updates| as real;
    var others := Sum(Column(updates, c)[..last]);
    var value := target * n - others;
    moved := updates[last := updates[last][c := value]];
    assert Column(moved, c)[..last] == Column(updates, c)[..last];
    assert Sum(Column(moved, c)) == target * n;
    DivideBack(target, n);
  }

  lemma DivideBack(t: real, n: real)
    requires n > 0.0
    ensures t * n / n == t
  {}
}
