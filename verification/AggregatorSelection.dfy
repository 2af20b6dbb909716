/** What each aggregate is, in terms of the updates themselves: the mean is the point of least total
    squared distance, the trimmed mean is the mean of the middle values, and Krum selects the update whose
    nearest neighbours are nearest. */
module AggregatorSelection {
  import opened Collections
  import opened Aggregators
  import opened AggregatorTheorems

  // ---------- sums over positions ----------

  /** The sum of the entries at the given positions. */
  function SumOver(s: seq<real>, at: set<nat>): real {
    if s == [] then 0.0
    else
      var last := |s| - 1;
      SumOver(s[..last], at) + if last in at then s[last] else 0.0
  }

  lemma {:induction false} SumOverNone(s: seq<real>)
    ensures SumOver(s, {}) == 0.0
  {
    if s != [] {
      SumOverNone(s[..|s| - 1]);
    }
  }

  /** Positions in two parts. */
  lemma {:induction false} SumOverSplit(s: seq<real>, a: set<nat>, b: set<nat>)
    requires a !! b
    ensures SumOver(s, a + b) == SumOver(s, a) + SumOver(s, b)
  {
    if s != [] {
      SumOverSplit(s[..|s| - 1], a, b);
    }
  }

  lemma {:induction false} SumOverOne(s: seq<real>, i: nat)
    requires i < |s|
    ensures SumOver(s, {i}) == s[i]
  {
    var last := |s| - 1;
    if i < last {
      SumOverOne(s[..last], i);
    } else {
      SumOverBeyond(s[..last], {i});
    }
  }

  lemma {:induction false} SumOverBeyond(s: seq<real>, at: set<nat>)
    requires at !! Slots(|s|)
    ensures SumOver(s, at) == 0.0
  {
    if s != [] {
      SumOverBeyond(s[..|s| - 1], at);
    }
  }

  lemma {:induction false} SumOverAll(s: seq<real>)
    ensures SumOver(s, Slots(|s|)) == Sum(s)
  {
    if s != [] {
      var last := |s| - 1;
      SumOverAll(s[..last]);
      SumOverSplit(s[..last], Slots(last), {last});
      SumOverBeyond(s[..last], {last});
    }
  }

  /** The last position apart. */
  lemma PeelLast(s: seq<real>, at: set<nat>)
    requires s != [] && at <= Slots(|s|)
    ensures var last := |s| - 1;
      && at - {last} <= Slots(last)
      && |at| == |at - {last}| + (if last in at then 1 else 0)
      && SumOver(s, at) == SumOver(s[..last], at - {last}) + (if last in at then s[last] else 0.0)
  {
    hide SumOver;
    var last := |s| - 1;
    var below, own := at - {last}, at * {last};
    assert at == below + own;
    SumOverSplit(s[..last], below, own);
    SumOverBeyond(s[..last], own);
    SumOverLast(s, at);
    if last in at { assert own == {last}; } else { assert own == {}; }
  }

  lemma SumOverLast(s: seq<real>, at: set<nat>)
    requires s != []
    ensures SumOver(s, at) == SumOver(s[..|s| - 1], at) + (if |s| - 1 in at then s[|s| - 1] else 0.0)
  {}

  /** Entries of at least x sum to at least x each. */
  lemma {:induction false} SumOverAtLeast(s: seq<real>, at: set<nat>, x: real)
    requires at <= Slots(|s|) && forall i :: i in at ==> s[i] >= x
    ensures SumOver(s, at) >= Times(|at|, x)
  {
    hide SumOver, Slots, Times;
    if s == [] {
      SumsToNothing(s, at, x);
    } else {
      PeelLast(s, at);
      SumOverAtLeast(s[..|s| - 1], at - {|s| - 1}, x);
      OneMoreTime(|at - {|s| - 1}|, x);
    }
  }

  lemma {:induction false} SumOverAtMost(s: seq<real>, at: set<nat>, x: real)
    requires at <= Slots(|s|) && forall i :: i in at ==> s[i] <= x
    ensures SumOver(s, at) <= Times(|at|, x)
  {
    hide SumOver, Slots, Times;
    if s == [] {
      SumsToNothing(s, at, x);
    } else {
      PeelLast(s, at);
      SumOverAtMost(s[..|s| - 1], at - {|s| - 1}, x);
      OneMoreTime(|at - {|s| - 1}|, x);
    }
  }

  lemma SumsToNothing(s: seq<real>, at: set<nat>, x: real)
    requires s == [] && at <= Slots(0)
    ensures SumOver(s, at) == 0.0 == Times(|at|, x)
  {
    SubsetSize(at, {});
  }

  lemma OneMoreTime(n: nat, x: real)
    ensures Times(n + 1, x) == Times(n, x) + x
  {}

  /** Of two sets of equally many positions, one whose entries stay up to x sums to no more than one whose
      further entries start at x. */
  lemma Exchange(s: seq<real>, few: set<nat>, other: set<nat>, x: real)
    requires few <= Slots(|s|) && other <= Slots(|s|) && |few| == |other|
    requires (forall i :: i in few ==> s[i] <= x) && forall i :: i in other - few ==> s[i] >= x
    ensures SumOver(s, few) <= SumOver(s, other)
  {
    var common := few * other;
    assert few == common + (few - other) && other == common + (other - few);
    SumOverSplit(s, common, few - other);
    SumOverSplit(s, common, other - few);
    SumOverAtMost(s, few - other, x);
    SumOverAtLeast(s, other - few, x);
    assert |few - other| == |other - few|;
  }

  // ---------- ranks ----------

  /** The positions of the values in ascending order of value. */
  ghost predicate Ranking(s: seq<real>, order: seq<nat>) {
    && |order| == |s| && Distinct(order)
    && forall m :: 0 <= m < |s| ==> order[m] < |s| && s[order[m]] == Sort(s)[m]
  }

  function Elements(order: seq<nat>): set<nat> {
    set i | i in order
  }

  /** t with x put in at place j. */
  function PutAt<T>(t: seq<T>, j: nat, x: T): (r: seq<T>)
    requires j <= |t|
    ensures |r| == |t| + 1 && r[j] == x
    ensures forall m :: 0 <= m < |r| && m != j ==> r[m] == t[if m < j then m else m - 1]
  {
    t[..j] + [x] + t[j..]
  }

  lemma {:induction false} InsertPlace(x: real, s: seq<real>) returns (j: nat)
    requires Ascending(s)
    ensures j <= |s| && Insert(x, s) == PutAt(s, j, x)
  {
    if s == [] || s[|s| - 1] <= x {
      j := |s|;
    } else {
      var front := s[..|s| - 1];
      j := InsertPlace(x, front);
      assert s[..j] == front[..j] && s[j..] == front[j..] + [s[|s| - 1]];
    }
  }

  lemma {:induction false} RankingExists(s: seq<real>) returns (order: seq<nat>)
    ensures Ranking(s, order)
  {
    if s == [] {
      order := [];
    } else {
      var last := |s| - 1;
      var below := RankingExists(s[..last]);
      var j := InsertPlace(s[last], Sort(s[..last]));
      order := PutAt(below, j, last);
      RankingInsert(s, below, j);
    }
  }

  lemma RankingInsert(s: seq<real>, below: seq<nat>, j: nat)
    requires s != [] && Ranking(s[..|s| - 1], below) && j <= |s| - 1
    requires Sort(s) == PutAt(Sort(s[..|s| - 1]), j, s[|s| - 1])
    ensures Ranking(s, PutAt(below, j, |s| - 1))
  {
    hide Sort, PutAt;
    var order, last := PutAt(below, j, |s| - 1), |s| - 1;
    forall m | 0 <= m < |s| ensures order[m] < |s| && s[order[m]] == Sort(s)[m] {
      if m != j {
        var k := if m < j then m else m - 1;
        assert order[m] == below[k] && Sort(s)[m] == Sort(s[..last])[k] == s[..last][below[k]];
      }
    }
    PutDistinct(below, j, last);
  }

  lemma PutDistinct(below: seq<nat>, j: nat, last: nat)
    requires j <= |below| == last && Distinct(below) && forall m :: 0 <= m < last ==> below[m] < last
    ensures Distinct(PutAt(below, j, last))
  {
    hide PutAt;
  }

  /** Every position has a rank. */
  lemma RankOf(s: seq<real>, order: seq<nat>, i: nat) returns (m: nat)
    requires Ranking(s, order) && i < |s|
    ensures m < |s| && order[m] == i
  {
    hide Sort;
    RankedAll(order, |s|);
    assert i in Elements(order);
    m :| m < |order| && order[m] == i;
  }

  lemma RankedAll(order: seq<nat>, n: nat)
    requires |order| == n && Distinct(order) && forall m :: 0 <= m < n ==> order[m] < n
    ensures Elements(order) == Slots(n)
  {
    ElementCount(order);
    assert Elements(order) <= Slots(n);
    SubsetFull(Elements(order), Slots(n));
  }

  lemma SubsetFull<T>(a: set<T>, b: set<T>)
    requires a <= b && |a| == |b|
    ensures a == b
  {
    assert |b - a| == 0;
  }

  lemma {:induction false} ElementCount(order: seq<nat>)
    requires Distinct(order)
    ensures |Elements(order)| == |order|
  {
    if order != [] {
      var last := |order| - 1;
      ElementCount(order[..last]);
      assert Elements(order) == Elements(order[..last]) + {order[last]};
    }
  }

  /** The sum of a list of entries taken at distinct positions. */
  lemma {:induction false} SumPicked(s: seq<real>, picked: seq<real>, order: seq<nat>)
    requires Distinct(order) && |picked| == |order|
    requires forall m :: 0 <= m < |order| ==> order[m] < |s| && picked[m] == s[order[m]]
    ensures Sum(picked) == SumOver(s, Elements(order))
  {
    if order == [] {
      assert Elements(order) == {};
      SumOverNone(s);
    } else {
      var last := |order| - 1;
      SumPicked(s, picked[..last], order[..last]);
      assert Elements(order) == Elements(order[..last]) + {order[last]};
      SumOverSplit(s, Elements(order[..last]), {order[last]});
      SumOverOne(s, order[last]);
    }
  }

  lemma SumOfRanks(s: seq<real>, order: seq<nat>, a: nat, b: nat)
    requires Ranking(s, order) && a <= b <= |s|
    ensures Sum(Sort(s)[a..b]) == SumOver(s, Elements(order[a..b])) && |Elements(order[a..b])| == b - a
  {
    hide Sort, SumOver, Sum;
    ElementCount(order[a..b]);
    SumPicked(s, Sort(s)[a..b], order[a..b]);
  }

  lemma AtRank(order: seq<nat>, a: nat, b: nat, i: nat) returns (m: nat)
    requires a <= b <= |order| && i in Elements(order[a..b])
    ensures a <= m < b && order[m] == i
  {
    var j :| 0 <= j < b - a && order[a..b][j] == i;
    m := a + j;
  }

  // ---------- Krum ----------

  /** k positions of 0..n-1 other than i. */
  ghost predicate Others(at: set<nat>, i: nat, n: nat, k: int) {
    at <= Slots(n) - {i} && |at| == k
  }

  /** A ranking that puts the position of a smallest value first. */
  lemma RankedFirst(s: seq<real>, i: nat) returns (order: seq<nat>)
    requires i < |s| && forall j :: 0 <= j < |s| ==> s[i] <= s[j]
    ensures Ranking(s, order) && order[0] == i
  {
    hide Sort;
    var any := RankingExists(s);
    var m := RankOf(s, any, i);
    order := any[0 := i][m := any[0]];
    assert Sort(s)[0] <= Sort(s)[m];
  }

  /** A row with its smallest entry at i scores the least sum of k entries elsewhere. */
  lemma RowScoreIsLeast(row: seq<real>, k: nat, i: nat) returns (near: set<nat>)
    requires i < |row| && k + 1 <= |row| && forall j :: 0 <= j < |row| ==> row[i] <= row[j]
    ensures Others(near, i, |row|, k) && RowScore(row, k) == SumOver(row, near)
    ensures forall at :: Others(at, i, |row|, k) ==> RowScore(row, k) <= SumOver(row, at)
  {
    hide Sort, SumOver, Sum, RowScore;
    var order := RankedFirst(row, i);
    near := Elements(order[1..k + 1]);
    SumOfRanks(row, order, 1, k + 1);
    RowScoreSlice(row, k);
    forall m: nat | 1 <= m <= k ensures order[m] in near {
      assert order[1..k + 1][m - 1] == order[m];
    }
    forall j | j in near ensures j < |row| && j != i && row[j] <= Sort(row)[k] {
      var m := AtRank(order, 1, k + 1, j);
    }
    forall at | Others(at, i, |row|, k) ensures RowScore(row, k) <= SumOver(row, at) {
      forall j | j in at - near ensures row[j] >= Sort(row)[k] {
        var m := RankOf(row, order, j);
        assert m > k;
      }
      Exchange(row, near, at, Sort(row)[k]);
    }
  }

  lemma RowScoreSlice(row: seq<real>, k: nat)
    requires k + 1 <= |row|
    ensures RowScore(row, k) == Sum(Sort(row)[1..k + 1])
  {}

  lemma OwnDistance(updates: seq<Update>, i: nat)
    requires Aligned(updates) && i < |updates|
    ensures forall j :: 0 <= j < |updates| ==> Distances(updates, i)[i] <= Distances(updates, i)[j]
  {
    hide Distance;
    DistanceToSelf(updates[i]);
  }

  /** The total squared distance from update i to the updates at the given positions. */
  function DistanceTo(updates: seq<Update>, i: nat, at: set<nat>): real
    requires Aligned(updates) && i < |updates|
  {
    SumOver(Distances(updates, i), at)
  }

  lemma ScoreIsLeast(updates: seq<Update>, i: nat, k: nat) returns (near: set<nat>)
    requires Aligned(updates) && i < |updates| && k + 1 <= |updates|
    ensures Others(near, i, |updates|, k) && Scores(updates, k)[i] == DistanceTo(updates, i, near)
    ensures forall at :: Others(at, i, |updates|, k) ==> Scores(updates, k)[i] <= DistanceTo(updates, i, at)
  {
    hide RowScore, SumOver, Distances, Slots;
    OwnDistance(updates, i);
    near := RowScoreIsLeast(Distances(updates, i), k, i);
  }

  /** Krum's choice: the winner has n-f-2 other updates whose total squared distance from it is least, among
      all updates and all sets of n-f-2 others, and it is the first such winner. */
  lemma KrumSelects(updates: seq<Update>, f: nat) returns (w: nat, near: set<nat>)
    requires Aligned(updates) && |updates| >= 2 * f + 3
    ensures w < |updates| && KrumSpec(updates, f) == updates[w]
    ensures Others(near, w, |updates|, |updates| - f - 2)
    ensures forall i: nat, at :: i < |updates| && Others(at, i, |updates|, |updates| - f - 2) ==>
      DistanceTo(updates, w, near) <= DistanceTo(updates, i, at)
    ensures forall i: nat, at :: i < w && Others(at, i, |updates|, |updates| - f - 2) ==>
      DistanceTo(updates, w, near) < DistanceTo(updates, i, at)
  {
    hide DistanceTo, RowScore, Others;
    var k := |updates| - f - 2;
    var scores := Scores(updates, k);
    w := ArgMin(scores);
    near := ScoreIsLeast(updates, w, k);
    forall i: nat, at | i < |updates| && Others(at, i, |updates|, k)
      ensures scores[w] <= scores[i] <= DistanceTo(updates, i, at) && (i < w ==> scores[w] < scores[i])
    {
      var _ := ScoreIsLeast(updates, i, k);
    }
  }

  // ---------- the trimmed mean ----------

  /** Different positions, with no greater values in the first set than in the second. */
  ghost predicate Before(v: seq<real>, a: set<nat>, b: set<nat>) {
    forall i, j :: i in a && j in b ==> i < |v| && j < |v| && i != j && v[i] <= v[j]
  }

  /** All positions in three parts, in ascending order of value, the outer ones of k positions each. */
  ghost predicate Thirds(v: seq<real>, k: nat, low: set<nat>, kept: set<nat>, high: set<nat>) {
    && low + kept + high == Slots(|v|) && |low| == |high| == k && |kept| == |v| - 2 * k
    && Before(v, low, kept) && Before(v, kept, high) && Before(v, low, high)
  }

  lemma SplitRanking(v: seq<real>, order: seq<nat>, k: nat)
    requires Ranking(v, order) && 2 * k < |v|
    ensures Thirds(v, k, Elements(order[0..k]), Elements(order[k..|v| - k]), Elements(order[|v| - k..|v|]))
  {
    hide Sort, Elements, Before;
    var n := |v|;
    ElementCount(order[0..k]);
    ElementCount(order[k..n - k]);
    ElementCount(order[n - k..n]);
    RankedAll(order, n);
    ElementsCut(order, k, n - k);
    RanksOrdered(v, order, 0, k, k, n - k);
    RanksOrdered(v, order, k, n - k, n - k, n);
    RanksOrdered(v, order, 0, k, n - k, n);
  }

  lemma ElementsCut(order: seq<nat>, a: nat, b: nat)
    requires a <= b <= |order|
    ensures Elements(order) == Elements(order[0..a]) + Elements(order[a..b]) + Elements(order[b..|order|])
  {
    assert order == order[0..a] + order[a..b] + order[b..|order|];
  }

  /** Positions of lower rank come before those of higher rank. */
  lemma RanksOrdered(v: seq<real>, order: seq<nat>, a: nat, b: nat, c: nat, d: nat)
    requires Ranking(v, order) && a <= b <= c <= d <= |v|
    ensures Before(v, Elements(order[a..b]), Elements(order[c..d]))
  {
    hide Sort;
    forall i, j | i in Elements(order[a..b]) && j in Elements(order[c..d])
      ensures i < |v| && j < |v| && i != j && v[i] <= v[j]
    {
      var m := AtRank(order, a, b, i);
      var r := AtRank(order, c, d, j);
    }
  }

  lemma TrimmedValuesExactly(v: seq<real>, k: nat) returns (low: set<nat>, kept: set<nat>, high: set<nat>)
    requires 2 * k < |v|
    ensures Thirds(v, k, low, kept, high)
    ensures var mean := Mean(Trim(Sort(v), k));
      mean.Number? && SumOver(v, kept) == Times(|kept|, mean.value)
  {
    hide Sum, Sort, Elements, Before, Mean, SumOver, Times, Ranking, Slots;
    var n := |v|;
    var order := RankingExists(v);
    assert |order| == n by { RankingSize(v, order); }
    SplitRanking(v, order, k);
    low, kept, high := Elements(order[0..k]), Elements(order[k..n - k]), Elements(order[n - k..n]);
    SumOfRanks(v, order, k, n - k);
    assert Trim(Sort(v), k) == Sort(v)[k..n - k];
    MeanTimes(Sort(v)[k..n - k]);
  }

  lemma RankingSize(v: seq<real>, order: seq<nat>)
    requires Ranking(v, order)
    ensures |order| == |v|
  {}

  lemma TrimmedAway(v: seq<real>, k: int)
    requires v != []
    ensures Mean(Trim(Sort(v), k)).NaN? <==> 2 * Max(0, k) >= |v|
    ensures Trim(Sort(v), k) == Trim(Sort(v), Max(0, k))
  {
    hide Sort, Sum;
  }

  /** The trimmed mean, coordinate by coordinate: with k the whole part of n times the fraction, the mean of
      what remains once k lowest and k highest values are set aside, and not a number when nothing remains.
      A negative fraction sets nothing aside. */
  lemma TrimmedMeanExactly(updates: seq<Update>, fraction: real, c: nat)
    returns (k: nat, low: set<nat>, kept: set<nat>, high: set<nat>)
    requires Aligned(updates) && updates != [] && c < |updates[0]|
    ensures if fraction < 0.0 then k == 0 else k as real <= |updates| as real * fraction < (k + 1) as real
    ensures TrimmedMean(updates, fraction)[c].NaN? <==> 2 * k >= |updates|
    ensures 2 * k < |updates| ==>
      && Thirds(Column(updates, c), k, low, kept, high)
      && SumOver(Column(updates, c), kept) == Times(|kept|, TrimmedMean(updates, fraction)[c].value)
  {
    hide Sum, Sort, Mean, Trim, Thirds, SumOver, Times, TrimmedMean, Column;
    TrimmedMeanAt(updates, fraction, c);
    var v := Column(updates, c);
    low, kept, high := {}, {}, {};
    k := WholePart(|updates|, fraction);
    TrimmedAway(v, TrimCount(|updates|, fraction));
    if 2 * k < |updates| { low, kept, high := TrimmedValuesExactly(v, k); }
  }

  lemma WholePart(n: nat, fraction: real) returns (k: nat)
    requires n > 0
    ensures k == Max(0, TrimCount(n, fraction))
    ensures if fraction < 0.0 then k == 0 else k as real <= n as real * fraction < (k + 1) as real
  {
    k := Max(0, TrimCount(n, fraction));
    SameSign(n as real, fraction);
  }

  lemma SameSign(n: real, fraction: real)
    requires n > 0.0
    ensures fraction < 0.0 <==> n * fraction < 0.0
  {}

  lemma MeanTimes(s: seq<real>)
    requires s != []
    ensures Mean(s).Number? && Sum(s) == Times(|s|, Mean(s).value)
  {}

  // ---------- the mean ----------

  /** Updates of d coordinates. */
  predicate Sized(updates: seq<Update>, d: nat) {
    forall i :: 0 <= i < |updates| ==> |updates[i]| == d
  }

  /** The total squared distance of all updates from x. */
  function Spread(updates: seq<Update>, x: Update): real
    requires Sized(updates, |x|)
  {
    if updates == [] then 0.0
    else
      var last := |updates| - 1;
      Spread(updates[..last], x) + Distance(updates[last], x)
  }

  function Square(x: real): real {
    x * x
  }

  /** The same for one coordinate. */
  function Squares(v: seq<real>, x: real): real {
    if v == [] then 0.0
    else
      var last := |v| - 1;
      Squares(v[..last], x) + Square(v[last] - x)
  }

  function Cross(sum: real, n: real, m: real, x: real): real {
    2.0 * (m - x) * (sum - n * m) + n * Square(m - x)
  }

  lemma {:induction false} SquaresShift(v: seq<real>, m: real, x: real)
    ensures Squares(v, x) == Squares(v, m) + Cross(Sum(v), |v| as real, m, x)
  {
    hide Cross, Square;
    if v == [] {
      CrossNone(m, x);
    } else {
      var last := |v| - 1;
      SquaresShift(v[..last], m, x);
      CrossStep(Sum(v[..last]), last as real, m, x, v[last]);
    }
  }

  lemma CrossNone(m: real, x: real)
    ensures Cross(0.0, 0.0, m, x) == 0.0
  {}

  lemma CrossStep(sum: real, n: real, m: real, x: real, y: real)
    ensures Square(y - x) + Cross(sum, n, m, x) == Square(y - m) + Cross(sum + y, n + 1.0, m, x)
  {
    assert Square(y - x) == Square(y - m) + 2.0 * (m - x) * (y - m) + Square(m - x);
  }

  /** In one coordinate, moving away from the mean adds the square of the move for each value. */
  lemma MeanLeastSquares(v: seq<real>, x: real)
    requires v != []
    ensures var m := Sum(v) / |v| as real;
      Squares(v, x) == Squares(v, m) + Times(|v|, Square(x - m))
  {
    hide Squares, Sum, Square, Cross;
    var n, m := |v| as real, Sum(v) / |v| as real;
    SquaresShift(v, m, x);
    MultiplyBack(Sum(v), n);
    CrossAtMean(Sum(v), n, m, x);
  }

  lemma MultiplyBack(sum: real, n: real)
    requires n > 0.0
    ensures sum == n * (sum / n)
  {}

  lemma CrossAtMean(sum: real, n: real, m: real, x: real)
    requires sum == n * m
    ensures Cross(sum, n, m, x) == n * Square(x - m)
  {
    assert Square(m - x) == Square(x - m);
  }

  /** All but the last coordinate of every update. */
  function Fronts(updates: seq<Update>, d: nat): (r: seq<Update>)
    requires Sized(updates, d + 1)
    ensures |r| == |updates| && Sized(r, d)
  {
    seq(|updates|, i requires 0 <= i < |updates| => updates[i][..d])
  }

  /** The last coordinate of every update. */
  function Lasts(updates: seq<Update>, d: nat): (r: seq<real>)
    requires Sized(updates, d + 1)
    ensures |r| == |updates|
  {
    seq(|updates|, i requires 0 <= i < |updates| => updates[i][d])
  }

  lemma {:induction false} SpreadByCoordinate(updates: seq<Update>, x: Update, d: nat)
    requires |x| == d + 1 && Sized(updates, d + 1)
    ensures Spread(updates, x) == Spread(Fronts(updates, d), x[..d]) + Squares(Lasts(updates, d), x[d])
  {
    if updates != [] {
      var last := |updates| - 1;
      var front := updates[..last];
      SpreadByCoordinate(front, x, d);
      assert Fronts(updates, d)[..last] == Fronts(front, d);
      assert Lasts(updates, d)[..last] == Lasts(front, d);
      LastDistance(updates[last], x, d);
    }
  }

  lemma LastDistance(u: Update, x: Update, d: nat)
    requires |u| == |x| == d + 1
    ensures Distance(u, x) == Distance(u[..d], x[..d]) + Square(u[d] - x[d])
  {}

  lemma {:induction false} SpreadOfNothing(updates: seq<Update>)
    requires Sized(updates, 0)
    ensures Spread(updates, []) == 0.0
  {
    if updates != [] {
      SpreadOfNothing(updates[..|updates| - 1]);
    }
  }

  lemma FrontMean(updates: seq<Update>, d: nat)
    requires updates != [] && Sized(updates, d + 1)
    ensures Aligned(updates) && Aligned(Fronts(updates, d))
    ensures |FedAvg(updates)| == d + 1 && FedAvg(updates)[..d] == FedAvg(Fronts(updates, d))
    ensures FedAvg(updates)[d] == Sum(Lasts(updates, d)) / |updates| as real
  {
    hide Sum;
    forall c | 0 <= c < d ensures FedAvg(updates)[c] == FedAvg(Fronts(updates, d))[c] {
      assert Column(updates, c) == Column(Fronts(updates, d), c);
    }
    assert Column(updates, d) == Lasts(updates, d);
  }

  /** The mean is the one point of least total squared distance from the updates: any other point is further
      by its squared distance from the mean, once for each update. */
  lemma {:induction false} MeanIsLeast(updates: seq<Update>, x: Update)
    requires updates != [] && Sized(updates, |x|)
    ensures Aligned(updates) && |FedAvg(updates)| == |x|
    ensures Spread(updates, x) == Spread(updates, FedAvg(updates)) + Times(|updates|, Distance(x, FedAvg(updates)))
    decreases |x|
  {
    hide Sum, Squares, FedAvg, Spread, Distance, Times, Square, Fronts, Lasts;
    FedAvgSize(updates, |x|);
    var mean := FedAvg(updates);
    if x == [] {
      SpreadOfNothing(updates);
      NoDistance(|updates|);
      assert mean == [];
    } else {
      var d := |x| - 1;
      FrontMean(updates, d);
      MeanIsLeast(Fronts(updates, d), x[..d]);
      SpreadByCoordinate(updates, x, d);
      SpreadByCoordinate(updates, mean, d);
      MeanLeastSquares(Lasts(updates, d), x[d]);
      LastDistance(x, mean, d);
      TimesAdds(|updates|, Distance(x[..d], mean[..d]), Square(x[d] - mean[d]));
    }
  }

  lemma FedAvgSize(updates: seq<Update>, d: nat)
    requires updates != [] && Sized(updates, d)
    ensures Aligned(updates) && |FedAvg(updates)| == d
  {}

  lemma NoDistance(n: nat)
    ensures Times(n, Distance([], [])) == 0.0
  {}

  lemma TimesAdds(n: nat, a: real, b: real)
    ensures Times(n, a + b) == Times(n, a) + Times(n, b)
  {}
}
