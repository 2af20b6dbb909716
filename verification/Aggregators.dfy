/** Federated aggregation over exact reals: the mean, the coordinate-wise trimmed mean, and Krum.
    An update is the list of all its coordinates. */
module Aggregators {
  import opened Collections

  type Update = seq<real>

  datatype Maybe = NaN | Number(value: real)

  // ---------- sums and sorting ----------

  predicate Ascending(s: seq<real>) {
    forall i, j :: 0 <= i < j < |s| ==> s[i] <= s[j]
  }

  function Insert(x: real, s: seq<real>): (r: seq<real>)
    requires Ascending(s)
    ensures Ascending(r) && |r| == |s| + 1 && multiset(r) == multiset(s) + multiset{x}
  {
    if s == [] then [x]
    else
      var front, last := s[..|s| - 1], s[|s| - 1];
      assert s == front + [last];
      if last <= x then s + [x]
      else
        var r := Insert(x, front);
        StaysBelow(s, x, r);
        r + [last]
  }

  lemma StaysBelow(s: seq<real>, x: real, r: seq<real>)
    requires s != [] && Ascending(s) && x < s[|s| - 1] && multiset(r) == multiset(s[..|s| - 1]) + multiset{x}
    ensures forall i :: 0 <= i < |r| ==> r[i] <= s[|s| - 1]
  {
    forall i | 0 <= i < |r| ensures r[i] <= s[|s| - 1] {
      assert r[i] in multiset(r);
    }
  }

  /** The values in ascending order. */
  function Sort(s: seq<real>): (r: seq<real>)
    ensures Ascending(r) && |r| == |s| && multiset(r) == multiset(s)
  {
    if s == [] then []
    else
      assert s == s[..|s| - 1] + [s[|s| - 1]];
      Insert(s[|s| - 1], Sort(s[..|s| - 1]))
  }

  function Mean(s: seq<real>): Maybe {
    if s == [] then NaN else Number(Sum(s) / |s| as real)
  }

  // ---------- the aggregators ----------

  /** Updates of one common size. */
  predicate Aligned(updates: seq<Update>) {
    forall i :: 0 <= i < |updates| ==> |updates[i]| == |updates[0]|
  }

  /** The values of one coordinate across the updates. */
  function Column(updates: seq<Update>, c: nat): (r: seq<real>)
    requires Aligned(updates) && updates != [] && c < |updates[0]|
    ensures |r| == |updates|
  {
    seq(|updates|, i requires 0 <= i < |updates| => updates[i][c])
  }

  /** No update at all gives the empty result. */
  function FedAvg(updates: seq<Update>): Update
    requires Aligned(updates)
  {
    if updates == [] then []
    else seq(|updates[0]|, c requires 0 <= c < |updates[0]| => Sum(Column(updates, c)) / |updates| as real)
  }

  /** How many values go from each end. */
  function TrimCount(n: nat, fraction: real): int {
    Truncate(n as real * fraction)
  }

  /** sorted_vals[k : n - k], which is empty once the two ends meet. */
  function Trim(sorted: seq<real>, k: int): seq<real> {
    if k <= 0 then sorted
    else if 2 * k >= |sorted| then []
    else sorted[k..|sorted| - k]
  }

  function TrimmedMean(updates: seq<Update>, fraction: real): seq<Maybe>
    requires Aligned(updates)
  {
    if updates == [] then []
    else
      var k := TrimCount(|updates|, fraction);
      seq(|updates[0]|, c requires 0 <= c < |updates[0]| => Mean(Trim(Sort(Column(updates, c)), k)))
  }

  /** The squared distance of two updates. */
  function Distance(a: Update, b: Update): (r: real)
    requires |a| == |b|
    ensures r >= 0.0
  {
    if a == [] then 0.0
    else
      var last := |a| - 1;
      Distance(a[..last], b[..last]) + (a[last] - b[last]) * (a[last] - b[last])
  }

  function Distances(updates: seq<Update>, i: nat): (r: seq<real>)
    requires Aligned(updates) && i < |updates|
    ensures |r| == |updates|
  {
    seq(|updates|, j requires 0 <= j < |updates| => Distance(updates[i], updates[j]))
  }

  /** The sum of the k entries of a row that follow its smallest. */
  function RowScore(row: seq<real>, k: nat): real
    requires k + 1 <= |row|
  {
    Sum(Sort(row)[1..k + 1])
  }

  function Scores(updates: seq<Update>, k: nat): (r: seq<real>)
    requires Aligned(updates) && k + 1 <= |updates|
    ensures |r| == |updates|
  {
    seq(|updates|, i requires 0 <= i < |updates| => RowScore(Distances(updates, i), k))
  }

  /** The first position of the smallest value. */
  function ArgMin(s: seq<real>): (r: nat)
    requires s != []
    ensures r < |s| && (forall i :: 0 <= i < |s| ==> s[r] <= s[i]) && (forall i :: 0 <= i < r ==> s[r] < s[i])
  {
    if |s| == 1 then 0
    else
      var last := |s| - 1;
      var best := ArgMin(s[..last]);
      if s[last] < s[best] then last else best
  }

  function KrumSpec(updates: seq<Update>, f: nat): Update
    requires Aligned(updates)
  {
    if |updates| < 2 * f + 3 then FedAvg(updates)
    else updates[ArgMin(Scores(updates, |updates| - f - 2))]
  }

  lemma {:induction false} DistanceSymmetric(a: Update, b: Update)
    requires |a| == |b|
    ensures Distance(a, b) == Distance(b, a)
  {
    if a != [] {
      var last := |a| - 1;
      DistanceSymmetric(a[..last], b[..last]);
      var d := a[last] - b[last];
      assert d * d == (-d) * (-d);
    }
  }

  lemma {:induction false} DistanceToSelf(a: Update)
    ensures Distance(a, a) == 0.0
  {
    if a != [] {
      DistanceToSelf(a[..|a| - 1]);
    }
  }

  /** The entry of the distance matrix once the pairs before (i, j) of the upper triangle are done. */
  function Entry(updates: seq<Update>, i: nat, j: nat, a: nat, b: nat): real
    requires Aligned(updates) && a < |updates| && b < |updates|
  {
    var low, high := if a < b then a else b, if a < b then b else a;
    if low < i || (low == i && high < j) then Distance(updates[a], updates[b]) else 0.0
  }

  /** The upper triangle is computed, the lower one mirrored, the diagonal stays zero. */
  method DistanceMatrix(updates: seq<Update>) returns (matrix: array2<real>)
    requires Aligned(updates)
    ensures fresh(matrix) && matrix.Length0 == matrix.Length1 == |updates|
    ensures forall i, j :: 0 <= i < |updates| && 0 <= j < |updates| ==> matrix[i, j] == Distance(updates[i], updates[j])
  {
    var n := |updates|;
    matrix := new real[n, n]((i, j) => 0.0);
    for i := 0 to n
      invariant forall a, b :: 0 <= a < n && 0 <= b < n ==> matrix[a, b] == Entry(updates, i, i, a, b)
    {
      DistanceToSelf(updates[i]);
      hide Distance;
      for j := i + 1 to n
        invariant forall a, b :: 0 <= a < n && 0 <= b < n ==> matrix[a, b] == Entry(updates, i, j, a, b)
      {
        DistanceSymmetric(updates[i], updates[j]);
        var d := Distance(updates[i], updates[j]);
        matrix[i, j] := d;
        matrix[j, i] := d;
      }
    }
  }

  method ScoreRows(updates: seq<Update>, k: nat) returns (scores: seq<real>)
    requires Aligned(updates) && k + 1 <= |updates|
    ensures scores == Scores(updates, k)
  {
    var n := |updates|;
    var matrix := DistanceMatrix(updates);
    scores := [];
    for i := 0 to n
      invariant |scores| == i && forall a :: 0 <= a < i ==> scores[a] == Scores(updates, k)[a]
    {
      var row := seq(n, j requires 0 <= j < n reads matrix => matrix[i, j]);
      assert row == Distances(updates, i);
      scores := scores + [RowScore(row, k)];
    }
  }

  method FirstMinimum(s: seq<real>) returns (winner: nat)
    requires s != []
    ensures winner == ArgMin(s)
  {
    winner := 0;
    for i := 1 to |s|
      invariant winner < i
      invariant forall j :: 0 <= j < i ==> s[winner] <= s[j]
      invariant forall j :: 0 <= j < winner ==> s[winner] < s[j]
    {
      if s[i] < s[winner] { winner := i; }
    }
  }

  method Krum(updates: seq<Update>, f: nat) returns (r: Update)
    requires Aligned(updates)
    ensures r == KrumSpec(updates, f)
  {
    if |updates| < 2 * f + 3 { return FedAvg(updates); }
    var scores := ScoreRows(updates, |updates| - f - 2);
    var winner := FirstMinimum(scores);
    return updates[winner];
  }
}
