/**
 * The bootstrap difference test (test_bootstrap_difference): for every trailing coordinate k,
 * count over the pairs (i, j) how often b[j, k] - a[i, k] is >= 0 (s1) and how often it is <= 0
 * (s2), and report min(s1, s2) / (number of pairs).
 *
 * Ensembles are modelled already reshaped to [repeats, K]; the reshape of the result back to the
 * trailing shape keeps the flat order, so the result is modelled as its K flat entries.
 */
module DifferenceTest {
  import opened Wrappers

  /** An ensemble reshaped to [repeats, width]. */
  datatype Flat = Flat(rows: seq<seq<real>>, width: nat)

  /** A rectangular ensemble, as an ndarray always is. */
  type Samples = f: Flat | forall i :: 0 <= i < |f.rows| ==> |f.rows[i]| == f.width
    witness Flat([], 0)

  /** Why the call does not produce p-values. */
  datatype TestError =
    | EmptyEnsemble    // a or b has no repeats: reshape((0, -1)) cannot infer the width
    | IndexOutOfRange  // b has fewer repeats than the loop indexes
    | ShapeMismatch    // the rows of a and b cannot be subtracted

  function Min(x: nat, y: nat): nat
  {
    if x <= y then x else y
  }

  /** Column k of the first n repeats. */
  function Column(a: Samples, k: nat, n: nat): seq<real>
    requires k < a.width && n <= |a.rows|
  {
    seq(n, i requires 0 <= i < n => a.rows[i][k])
  }

  lemma ColumnPrefix(a: Samples, k: nat, n: nat)
    requires k < a.width && n < |a.rows|
    ensures Column(a, k, n + 1)[..n] == Column(a, k, n)
    ensures Column(a, k, n + 1)[n] == a.rows[n][k]
  {
  }

  /** The number of j with ys[j] - x >= 0. */
  function CountAtLeast(x: real, ys: seq<real>): (c: nat)
    ensures c <= |ys|
  {
    if ys == [] then 0
    else CountAtLeast(x, ys[..|ys| - 1]) + (if ys[|ys| - 1] - x >= 0.0 then 1 else 0)
  }

  /** The number of j with ys[j] - x <= 0. */
  function CountAtMost(x: real, ys: seq<real>): (c: nat)
    ensures c <= |ys|
  {
    if ys == [] then 0
    else CountAtMost(x, ys[..|ys| - 1]) + (if ys[|ys| - 1] - x <= 0.0 then 1 else 0)
  }

  /** One more row of w pairs keeps the count within rows * w. */
  lemma PairsBoundStep(rows: nat, w: nat)
    ensures rows * w + w == (rows + 1) * w
  {
  }

  /** s1: the number of pairs (i, j) with ys[j] - xs[i] >= 0. */
  function PairsAtLeast(xs: seq<real>, ys: seq<real>): (c: nat)
    ensures c <= |xs| * |ys|
  {
    if xs == [] then 0
    else
      PairsBoundStep(|xs| - 1, |ys|);
      PairsAtLeast(xs[..|xs| - 1], ys) + CountAtLeast(xs[|xs| - 1], ys)
  }

  /** s2: the number of pairs (i, j) with ys[j] - xs[i] <= 0. */
  function PairsAtMost(xs: seq<real>, ys: seq<real>): (c: nat)
    ensures c <= |xs| * |ys|
  {
    if xs == [] then 0
    else
      PairsBoundStep(|xs| - 1, |ys|);
      PairsAtMost(xs[..|xs| - 1], ys) + CountAtMost(xs[|xs| - 1], ys)
  }

  /** Every difference is strictly negative. */
  ghost predicate AllBelow(xs: seq<real>, ys: seq<real>)
  {
    forall i, j :: 0 <= i < |xs| && 0 <= j < |ys| ==> ys[j] - xs[i] < 0.0
  }

  /** Every difference is strictly positive. */
  ghost predicate AllAbove(xs: seq<real>, ys: seq<real>)
  {
    forall i, j :: 0 <= i < |xs| && 0 <= j < |ys| ==> ys[j] - xs[i] > 0.0
  }

  /** Each difference is >= 0 or <= 0, so one row's two counts cover the row. */
  lemma {:induction false} RowCountsCoverRow(x: real, ys: seq<real>)
    ensures CountAtLeast(x, ys) + CountAtMost(x, ys) >= |ys|
  {
    if ys != [] {
      RowCountsCoverRow(x, ys[..|ys| - 1]);
    }
  }

  /** s1 + s2 >= number of pairs. */
  lemma {:induction false} PairCountsCoverAllPairs(xs: seq<real>, ys: seq<real>)
    ensures PairsAtLeast(xs, ys) + PairsAtMost(xs, ys) >= |xs| * |ys|
  {
    if xs != [] {
      var n := |xs| - 1;
      PairCountsCoverAllPairs(xs[..n], ys);
      RowCountsCoverRow(xs[n], ys);
      assert |xs| * |ys| == n * |ys| + |ys|;
    }
  }

  lemma {:induction false} NoneAtLeast(x: real, ys: seq<real>)
    ensures CountAtLeast(x, ys) == 0 <==> forall j :: 0 <= j < |ys| ==> ys[j] - x < 0.0
  {
    if ys != [] {
      NoneAtLeast(x, ys[..|ys| - 1]);
    }
  }

  lemma {:induction false} NoneAtMost(x: real, ys: seq<real>)
    ensures CountAtMost(x, ys) == 0 <==> forall j :: 0 <= j < |ys| ==> ys[j] - x > 0.0
  {
    if ys != [] {
      NoneAtMost(x, ys[..|ys| - 1]);
    }
  }

  /** s1 is 0 exactly when every difference is negative. */
  lemma {:induction false} NoPairAtLeast(xs: seq<real>, ys: seq<real>)
    ensures PairsAtLeast(xs, ys) == 0 <==> AllBelow(xs, ys)
  {
    if xs != [] {
      var n := |xs| - 1;
      NoPairAtLeast(xs[..n], ys);
      NoneAtLeast(xs[n], ys);
      assert xs == xs[..n] + [xs[n]];
    }
  }

  /** s2 is 0 exactly when every difference is positive. */
  lemma {:induction false} NoPairAtMost(xs: seq<real>, ys: seq<real>)
    ensures PairsAtMost(xs, ys) == 0 <==> AllAbove(xs, ys)
  {
    if xs != [] {
      var n := |xs| - 1;
      NoPairAtMost(xs[..n], ys);
      NoneAtMost(xs[n], ys);
      assert xs == xs[..n] + [xs[n]];
    }
  }

  /** A count out of d pairs, as a fraction, lies in [0, 1]. */
  lemma FractionAtMostOne(x: nat, d: nat)
    requires 0 < d && x <= d
    ensures 0.0 <= (x as real) / (d as real) <= 1.0
  {
    var q := (x as real) / (d as real);
    assert q * (d as real) == x as real;
  }

  lemma FractionAtLeastHalf(x: nat, d: nat)
    requires 0 < d && d <= 2 * x
    ensures (x as real) / (d as real) >= 0.5
  {
    var q := (x as real) / (d as real);
    assert q * (d as real) == x as real;
  }

  /**
   * The p-value of one coordinate: min(s1, s2) over the number of pairs.  It lies in [0, 1]
   * and is 0 exactly when all differences have one strict sign.
   */
  function PValue(xs: seq<real>, ys: seq<real>): (p: real)
    requires |xs| > 0 && |ys| > 0
    ensures 0.0 <= p <= 1.0
    ensures p == 0.0 <==> AllBelow(xs, ys) || AllAbove(xs, ys)
  {
    var s1, s2 := PairsAtLeast(xs, ys), PairsAtMost(xs, ys);
    NoPairAtLeast(xs, ys);
    NoPairAtMost(xs, ys);
    FractionAtMostOne(Min(s1, s2), |xs| * |ys|);
    Min(s1, s2) as real / (|xs| * |ys|) as real
  }

  /** One more j in the inner loop adds the sign test of b[j, k] - a[i, k] to both counts. */
  lemma InnerStep(a: Samples, b: Samples, i: nat, j: nat, k: nat)
    requires i < |a.rows| && j < |b.rows| && k < a.width == b.width
    ensures CountAtLeast(a.rows[i][k], Column(b, k, j + 1))
         == CountAtLeast(a.rows[i][k], Column(b, k, j)) + (if b.rows[j][k] - a.rows[i][k] >= 0.0 then 1 else 0)
    ensures CountAtMost(a.rows[i][k], Column(b, k, j + 1))
         == CountAtMost(a.rows[i][k], Column(b, k, j)) + (if b.rows[j][k] - a.rows[i][k] <= 0.0 then 1 else 0)
  {
    ColumnPrefix(b, k, j);
  }

  /** One more i in the outer loop adds row i's counts to the pair counts. */
  lemma OuterStep(a: Samples, ys: seq<real>, i: nat, k: nat)
    requires i < |a.rows| && k < a.width
    ensures PairsAtLeast(Column(a, k, i + 1), ys) == PairsAtLeast(Column(a, k, i), ys) + CountAtLeast(a.rows[i][k], ys)
    ensures PairsAtMost(Column(a, k, i + 1), ys) == PairsAtMost(Column(a, k, i), ys) + CountAtMost(a.rows[i][k], ys)
  {
    ColumnPrefix(a, k, i);
  }

  /** The p-value of every coordinate over the first na repeats of a and the first nb of b. */
  function PValuesOver(a: Samples, b: Samples, na: nat, nb: nat): (ps: seq<real>)
    requires 0 < na <= |a.rows| && 0 < nb <= |b.rows| && a.width == b.width
    ensures |ps| == a.width
    ensures forall k :: 0 <= k < a.width ==> 0.0 <= ps[k] <= 1.0
    ensures forall k :: 0 <= k < a.width ==>
      (ps[k] == 0.0 <==> AllBelow(Column(a, k, na), Column(b, k, nb)) || AllAbove(Column(a, k, na), Column(b, k, nb)))
  {
    seq(a.width, k requires 0 <= k < a.width => PValue(Column(a, k, na), Column(b, k, nb)))
  }

  /** The p-values test_bootstrap_difference returns, with n taken from a alone. */
  function BootstrapPValues(a: Samples, b: Samples): (r: Result<seq<real>, TestError>)
    ensures r.Ok? <==> |a.rows| > 0 && b.width == a.width && |b.rows| >= |a.rows|
    ensures r.Ok? ==> |r.value| == a.width
  {
    var n := |a.rows|;
    if n == 0 then Err(EmptyEnsemble)
    else if |b.rows| == 0 then Err(EmptyEnsemble)
    else if b.width != a.width then Err(ShapeMismatch)
    else if |b.rows| < n then Err(IndexOutOfRange)
    else Ok(PValuesOver(a, b, n, n))
  }

  /**
   * Every p-value of test_bootstrap_difference lies in [0, 1] and is 0 exactly when all n*n
   * differences b[j, k] - a[i, k] (i, j < n = |a|) have one strict sign.
   */
  lemma BootstrapPValuesAreOneSidedFractions(a: Samples, b: Samples, k: nat)
    requires BootstrapPValues(a, b).Ok? && k < a.width
    ensures var p, xs, ys := BootstrapPValues(a, b).value[k], Column(a, k, |a.rows|), Column(b, k, |a.rows|);
      && 0.0 <= p <= 1.0
      && (p == 0.0 <==> AllBelow(xs, ys) || AllAbove(xs, ys))
  {
  }

  lemma BootstrapPValuesWhenDefined(a: Samples, b: Samples)
    requires 0 < |a.rows| <= |b.rows| && a.width == b.width
    ensures BootstrapPValues(a, b) == Ok(PValuesOver(a, b, |a.rows|, |a.rows|))
  {
  }

  /** t1 and t2 are s1 and s2 plus row i's counts against rows 0 .. j-1 of b, per coordinate. */
  ghost predicate RowCountsUpTo(a: Samples, b: Samples, i: nat, j: nat, s1: seq<nat>, s2: seq<nat>, t1: seq<nat>, t2: seq<nat>)
    requires i < |a.rows| && j <= |b.rows| && a.width == b.width
  {
    && |s1| == |s2| == |t1| == |t2| == a.width
    && forall k :: 0 <= k < a.width ==>
      t1[k] == s1[k] + CountAtLeast(a.rows[i][k], Column(b, k, j))
      && t2[k] == s2[k] + CountAtMost(a.rows[i][k], Column(b, k, j))
  }

  /** Before the first j nothing has been added. */
  lemma NoColumnsAdded(a: Samples, b: Samples, i: nat, s1: seq<nat>, s2: seq<nat>)
    requires i < |a.rows| && a.width == b.width && |s1| == |s2| == a.width
    ensures RowCountsUpTo(a, b, i, 0, s1, s2, s1, s2)
  {
    forall k | 0 <= k < a.width
      ensures Column(b, k, 0) == []
    {
    }
  }

  /** Adding the sign tests of b[j] - a[i] extends the counts from rows 0 .. j-1 of b to 0 .. j. */
  lemma SignsExtendRow(a: Samples, b: Samples, i: nat, j: nat, s1: seq<nat>, s2: seq<nat>,
                       t1: seq<nat>, t2: seq<nat>, u1: seq<nat>, u2: seq<nat>)
    requires i < |a.rows| && j < |b.rows| && a.width == b.width
    requires RowCountsUpTo(a, b, i, j, s1, s2, t1, t2) && |u1| == |u2| == a.width
    requires forall k :: 0 <= k < a.width ==>
      u1[k] == t1[k] + (if b.rows[j][k] - a.rows[i][k] >= 0.0 then 1 else 0)
      && u2[k] == t2[k] + (if b.rows[j][k] - a.rows[i][k] <= 0.0 then 1 else 0)
    ensures RowCountsUpTo(a, b, i, j + 1, s1, s2, u1, u2)
  {
    forall k | 0 <= k < a.width
      ensures u1[k] == s1[k] + CountAtLeast(a.rows[i][k], Column(b, k, j + 1))
      ensures u2[k] == s2[k] + CountAtMost(a.rows[i][k], Column(b, k, j + 1))
    {
      InnerStep(a, b, i, j, k);
    }
  }

  /**
   * The pairs (i, 0) .. (i, n-1) of the pair loop: adds, per coordinate k, how many of
   * b[j, k] - a[i, k] are >= 0 to s1 and how many are <= 0 to s2.
   */
  method AddRowSigns(a: Samples, b: Samples, i: nat, n: nat, s1: seq<nat>, s2: seq<nat>)
    returns (t1: seq<nat>, t2: seq<nat>)
    requires i < |a.rows| && n <= |b.rows| && a.width == b.width
    requires |s1| == a.width && |s2| == a.width
    ensures |t1| == a.width && |t2| == a.width
    ensures forall k :: 0 <= k < a.width ==>
      t1[k] == s1[k] + CountAtLeast(a.rows[i][k], Column(b, k, n))
      && t2[k] == s2[k] + CountAtMost(a.rows[i][k], Column(b, k, n))
  {
    var width := a.width;
    t1, t2 := s1, s2;
    NoColumnsAdded(a, b, i, s1, s2);
    var j := 0;
    while j < n
      invariant 0 <= j <= n
      invariant RowCountsUpTo(a, b, i, j, s1, s2, t1, t2)
    {
      var c := seq(width, k requires 0 <= k < width => b.rows[j][k] - a.rows[i][k]);
      var u1 := seq(width, k requires 0 <= k < width => t1[k] + (if c[k] >= 0.0 then 1 else 0));
      var u2 := seq(width, k requires 0 <= k < width => t2[k] + (if c[k] <= 0.0 then 1 else 0));
      SignsExtendRow(a, b, i, j, s1, s2, t1, t2, u1, u2);
      t1, t2, j := u1, u2, j + 1;
    }
  }

  /**
   * The loop over the pairs (i, j) of 0 .. n-1, in the order of the cartesian product, adding
   * c >= 0 to s1 and c <= 0 to s2 for c = b[j] - a[i], coordinate by coordinate.
   */
  method CountSigns(a: Samples, b: Samples, n: nat) returns (s1: seq<nat>, s2: seq<nat>)
    requires n <= |a.rows| && n <= |b.rows| && a.width == b.width
    ensures |s1| == a.width && |s2| == a.width
    ensures forall k :: 0 <= k < a.width ==>
      s1[k] == PairsAtLeast(Column(a, k, n), Column(b, k, n)) && s2[k] == PairsAtMost(Column(a, k, n), Column(b, k, n))
  {
    s1 := seq(a.width, k => 0);
    s2 := seq(a.width, k => 0);
    NoRowsNoPairs(a, b, n);
    var i := 0;
    while i < n
      invariant 0 <= i <= n
      invariant PairCountsUpTo(a, b, i, n, s1, s2)
    {
      var t1, t2 := AddRowSigns(a, b, i, n, s1, s2);
      RowSignsExtendPairs(a, b, i, n, s1, s2, t1, t2);
      s1, s2, i := t1, t2, i + 1;
    }
  }

  /** s1 and s2 hold, per coordinate, the pair counts over rows 0 .. i-1 of a and 0 .. n-1 of b. */
  ghost predicate PairCountsUpTo(a: Samples, b: Samples, i: nat, n: nat, s1: seq<nat>, s2: seq<nat>)
    requires i <= |a.rows| && n <= |b.rows| && a.width == b.width
  {
    && |s1| == |s2| == a.width
    && forall k :: 0 <= k < a.width ==>
      s1[k] == PairsAtLeast(Column(a, k, i), Column(b, k, n)) && s2[k] == PairsAtMost(Column(a, k, i), Column(b, k, n))
  }

  /** Before the first row both pair counts are zero in every coordinate. */
  lemma NoRowsNoPairs(a: Samples, b: Samples, n: nat)
    requires n <= |b.rows| && a.width == b.width
    ensures PairCountsUpTo(a, b, 0, n, seq(a.width, k => 0), seq(a.width, k => 0))
  {
    forall k | 0 <= k < a.width
      ensures Column(a, k, 0) == []
    {
    }
  }

  /** Adding row i's counts to the pair counts over rows 0 .. i-1 gives those over rows 0 .. i. */
  lemma RowSignsExtendPairs(a: Samples, b: Samples, i: nat, n: nat, s1: seq<nat>, s2: seq<nat>, t1: seq<nat>, t2: seq<nat>)
    requires i < |a.rows| && n <= |b.rows| && a.width == b.width
    requires PairCountsUpTo(a, b, i, n, s1, s2) && |t1| == |t2| == a.width
    requires forall k :: 0 <= k < a.width ==>
      t1[k] == s1[k] + CountAtLeast(a.rows[i][k], Column(b, k, n))
      && t2[k] == s2[k] + CountAtMost(a.rows[i][k], Column(b, k, n))
    ensures PairCountsUpTo(a, b, i + 1, n, t1, t2)
  {
    forall k | 0 <= k < a.width
      ensures t1[k] == PairsAtLeast(Column(a, k, i + 1), Column(b, k, n))
      ensures t2[k] == PairsAtMost(Column(a, k, i + 1), Column(b, k, n))
    {
      OuterStep(a, Column(b, k, n), i, k);
    }
  }

  /** test_bootstrap_difference: the pair loop accumulating s1 and s2 for all coordinates at once. */
  method TestBootstrapDifference(a: Samples, b: Samples) returns (r: Result<seq<real>, TestError>)
    ensures r == BootstrapPValues(a, b)
  {
    var n := |a.rows|;
    if n == 0 {
      return Err(EmptyEnsemble);
    }
    if |b.rows| == 0 {
      return Err(EmptyEnsemble);
    }
    if b.width != a.width {
      return Err(ShapeMismatch);
    }
    if |b.rows| < n {
      return Err(IndexOutOfRange);
    }
    var width := a.width;
    var s1, s2 := CountSigns(a, b, n);
    var p := seq(width, k requires 0 <= k < width => Min(s1[k], s2[k]) as real / (n * n) as real);
    forall k | 0 <= k < width
      ensures p[k] == PValue(Column(a, k, n), Column(b, k, n))
    {
      assert |Column(a, k, n)| == n && |Column(b, k, n)| == n;
    }
    assert p == PValuesOver(a, b, n, n);
    BootstrapPValuesWhenDefined(a, b);
    r := Ok(p);
  }

  /**
   * The test the documentation describes: every one of the |a| * |b| pairs, whatever the two
   * repeat counts.
   */
  function AllPairsPValues(a: Samples, b: Samples): (r: Result<seq<real>, TestError>)
    ensures r.Ok? <==> |a.rows| > 0 && |b.rows| > 0 && b.width == a.width
    ensures r.Ok? ==> |r.value| == a.width
    ensures r.Ok? ==> forall k :: 0 <= k < a.width ==>
      var xs, ys := Column(a, k, |a.rows|), Column(b, k, |b.rows|);
      && 0.0 <= r.value[k] <= 1.0
      && (r.value[k] == 0.0 <==> AllBelow(xs, ys) || AllAbove(xs, ys))
  {
    if |a.rows| == 0 || |b.rows| == 0 then Err(EmptyEnsemble)
    else if b.width != a.width then Err(ShapeMismatch)
    else Ok(PValuesOver(a, b, |a.rows|, |b.rows|))
  }

  /**
   * With n taken from a alone, the repeats of b beyond n are ignored: a = [[0]] against
   * b = [[1], [-1]] reports 0, where all pairs give 1/2.
   */
  lemma AsWrittenIgnoresRepeatsOfB()
    ensures BootstrapPValues(Flat([[0.0]], 1), Flat([[1.0], [-1.0]], 1)) == Ok([0.0])
    ensures AllPairsPValues(Flat([[0.0]], 1), Flat([[1.0], [-1.0]], 1)) == Ok([0.5])
  {
    var a: Samples := Flat([[0.0]], 1);
    var b: Samples := Flat([[1.0], [-1.0]], 1);
    assert Column(a, 0, 1) == [0.0];
    assert Column(b, 0, 1) == [1.0];
    assert Column(b, 0, 2) == [1.0, -1.0];
    assert [1.0, -1.0][..1] == [1.0];
    assert [0.0][..0] == [];
    assert CountAtLeast(0.0, [1.0, -1.0]) == 1 && CountAtMost(0.0, [1.0, -1.0]) == 1;
    assert PairsAtLeast([0.0], [1.0, -1.0]) == 1 && PairsAtMost([0.0], [1.0, -1.0]) == 1;
    assert PairsAtMost([0.0], [1.0]) == 0;
    assert PValue([0.0], [1.0]) == 0.0;
    assert PValue([0.0], [1.0, -1.0]) == 0.5;
    assert PValuesOver(a, b, 1, 1) == [0.0];
    BootstrapPValuesWhenDefined(a, b);
    assert PValuesOver(a, b, 1, 2) == [0.5];
  }

  /**
   * With n taken from a alone, a b with fewer repeats than a fails: a = [[0], [0]] against
   * b = [[1]] is an index error, where all pairs give 0.
   */
  lemma AsWrittenRejectsShorterB()
    ensures BootstrapPValues(Flat([[0.0], [0.0]], 1), Flat([[1.0]], 1)) == Err(IndexOutOfRange)
    ensures AllPairsPValues(Flat([[0.0], [0.0]], 1), Flat([[1.0]], 1)) == Ok([0.0])
  {
    var a: Samples := Flat([[0.0], [0.0]], 1);
    var b: Samples := Flat([[1.0]], 1);
    assert Column(a, 0, 2) == [0.0, 0.0];
    assert Column(b, 0, 1) == [1.0];
    assert AllAbove([0.0, 0.0], [1.0]);
    assert PValuesOver(a, b, 2, 1) == [0.0];
  }

  /** Appending x to the second argument adds, for each y, the pair count of x - y <= 0. */
  lemma {:induction false} PairsAtMostAppend(ys: seq<real>, zs: seq<real>, x: real)
    ensures PairsAtMost(ys, zs + [x]) == PairsAtMost(ys, zs) + CountAtLeast(x, ys)
  {
    if ys != [] {
      var n := |ys| - 1;
      PairsAtMostAppend(ys[..n], zs, x);
      assert (zs + [x])[..|zs|] == zs;
    }
  }

  lemma {:induction false} PairsAtMostEmpty(ys: seq<real>)
    ensures PairsAtMost(ys, []) == 0
  {
    if ys != [] {
      PairsAtMostEmpty(ys[..|ys| - 1]);
    }
  }

  /** Counting b - a >= 0 over the pairs equals counting a - b <= 0 with the roles swapped. */
  lemma {:induction false} PairsAtLeastTransposed(xs: seq<real>, ys: seq<real>)
    ensures PairsAtLeast(xs, ys) == PairsAtMost(ys, xs)
  {
    if xs == [] {
      PairsAtMostEmpty(ys);
    } else {
      var n := |xs| - 1;
      PairsAtLeastTransposed(xs[..n], ys);
      PairsAtMostAppend(ys, xs[..n], xs[n]);
      assert xs[..n] + [xs[n]] == xs;
    }
  }

  /** Comparing an ensemble with itself gives s1 == s2, so the p-value is at least 1/2. */
  lemma SelfComparisonIsAtLeastHalf(xs: seq<real>)
    requires |xs| > 0
    ensures PValue(xs, xs) >= 0.5
  {
    PairsAtLeastTransposed(xs, xs);
    PairCountsCoverAllPairs(xs, xs);
    var s := PairsAtLeast(xs, xs);
    var d := |xs| * |xs|;
    assert 2 * s >= d;
    FractionAtLeastHalf(s, d);
  }

  /**
   * a = [[0.1], [0.2], [0.3]] against b = a + 10: every difference is positive, so the
   * p-value is 0.
   */
  lemma ShiftedEnsembleGivesZero()
    ensures BootstrapPValues(Flat([[0.1], [0.2], [0.3]], 1), Flat([[10.1], [10.2], [10.3]], 1)) == Ok([0.0])
  {
    var a: Samples := Flat([[0.1], [0.2], [0.3]], 1);
    var b: Samples := Flat([[10.1], [10.2], [10.3]], 1);
    assert Column(a, 0, 3) == [0.1, 0.2, 0.3];
    assert Column(b, 0, 3) == [10.1, 10.2, 10.3];
    assert AllAbove(Column(a, 0, 3), Column(b, 0, 3));
    assert PValuesOver(a, b, 3, 3) == [0.0];
    BootstrapPValuesWhenDefined(a, b);
  }
}
