/**
 * Benjamini-Hochberg false discovery rate control (significance_fdr).
 *
 * The p-value array is modelled flattened (the reshape back to the input's shape is the identity
 * on the flat order).  The ascending sort np.argsort(p, axis=None) is a library call whose order
 * among equal values is not promised; it enters as the parameter `order`, constrained by
 * IsArgsort to be one of the orders that call may return.  Everything proved below holds for
 * every such order.
 */
module Fdr {

  /** One p-value as the array holds it: a number or NaN (floating-point rounding is not modelled). */
  datatype PValue = Num(v: real) | NaN

  /** Ascending order of np.argsort: numbers by value, NaN after every number. */
  predicate SortsBefore(a: PValue, b: PValue)
  {
    match a
    case NaN => b.NaN?
    case Num(x) => b.NaN? || x <= b.v
  }

  /** `order` lists every index 0 .. |order|-1 exactly once. */
  predicate IsPermutation(order: seq<nat>)
  {
    && (forall r :: 0 <= r < |order| ==> order[r] < |order|)
    && (forall r1, r2 :: 0 <= r1 < r2 < |order| ==> order[r1] != order[r2])
    && (forall x :: 0 <= x < |order| ==> x in order)
  }

  /** `order` is a result np.argsort(p, axis=None) may return. */
  predicate IsArgsort(p: seq<PValue>, order: seq<nat>)
    ensures IsArgsort(p, order) ==> |order| == |p| && IsPermutation(order)
  {
    && |order| == |p|
    && IsPermutation(order)
    && (forall r1, r2 :: 0 <= r1 < r2 < |order| ==> SortsBefore(p[order[r1]], p[order[r2]]))
  }

  /** The position of `x` in `order`. */
  function IndexOf(order: seq<nat>, x: nat): (r: nat)
    requires x in order
    ensures r < |order| && order[r] == x
  {
    if order[0] == x then 0 else 1 + IndexOf(order[1..], x)
  }

  /**
   * The rank array `j` after j.flat[i] = arange(1, size+1): the entry at the r-th sorted
   * position gets rank r+1, so the ranks are a permutation of 1 .. size.
   */
  function Ranks(order: seq<nat>): (j: seq<nat>)
    requires IsPermutation(order)
    ensures |j| == |order|
    ensures forall r :: 0 <= r < |order| ==> j[order[r]] == r + 1
    ensures forall x :: 0 <= x < |order| ==> 1 <= j[x] <= |order|
  {
    seq(|order|, x requires 0 <= x < |order| => IndexOf(order, x) + 1)
  }

  /** Entry x sits at sorted position rank-1: the ranks are the inverse of the sort order. */
  lemma RankPosition(order: seq<nat>, x: nat)
    requires IsPermutation(order) && x < |order|
    ensures order[Ranks(order)[x] - 1] == x
  {
  }

  /** The scatter j.flat[i] = arange(1, i.size+1), done in place on a fresh array. */
  method ScatterRanks(order: seq<nat>) returns (j: array<nat>)
    requires IsPermutation(order)
    ensures j[..] == Ranks(order)
  {
    j := new nat[|order|];
    var r := 0;
    while r < |order|
      invariant 0 <= r <= |order|
      invariant forall r' :: 0 <= r' < r ==> j[order[r']] == r' + 1
    {
      j[order[r]] := r + 1;
      r := r + 1;
    }
    forall x | 0 <= x < |order|
      ensures j[x] == Ranks(order)[x]
    {
      var r' := IndexOf(order, x);
      assert j[order[r']] == r' + 1;
    }
  }

  /** np.sum(np.isnan(p)). */
  function NanCount(p: seq<PValue>): (c: nat)
    ensures c <= |p|
    ensures c == 0 <==> forall x :: 0 <= x < |p| ==> p[x].Num?
    ensures c == |p| <==> forall x :: 0 <= x < |p| ==> p[x].NaN?
  {
    if p == [] then 0 else NanCount(p[..|p| - 1]) + (if p[|p| - 1].NaN? then 1 else 0)
  }

  /** m = i.size - np.sum(np.isnan(p)): the number of entries that are numbers. */
  function NumberCount(p: seq<PValue>): (m: nat)
    ensures m <= |p|
    ensures m == |p| <==> forall x :: 0 <= x < |p| ==> p[x].Num?
    ensures m == 0 <==> forall x :: 0 <= x < |p| ==> p[x].NaN?
  {
    |p| - NanCount(p)
  }

  /**
   * One entry of mask = p <= alpha*j/m.  A comparison with NaN is false; m is positive whenever
   * the entry is a number, so the division is defined exactly when it matters.
   */
  predicate Qualifies(v: PValue, rank: nat, m: int, alpha: real)
    ensures Qualifies(v, rank, m, alpha) ==> v.Num? && m > 0
  {
    v.Num? && m > 0 && v.v <= alpha * (rank as real) / (m as real)
  }

  /** np.max(j[mask]): the largest rank among the entries the mask selects. */
  function MaxRank(mask: seq<bool>, j: seq<nat>): (k: nat)
    requires |mask| == |j| && true in mask
    ensures exists x :: 0 <= x < |j| && mask[x] && j[x] == k
    ensures forall x :: 0 <= x < |j| && mask[x] ==> j[x] <= k
  {
    var n := |j| - 1;
    assert mask == mask[..n] + [mask[n]];
    if true !in mask[..n] then j[n]
    else
      var k' := MaxRank(mask[..n], j[..n]);
      if mask[n] && j[n] > k' then j[n] else k'
  }

  /** The body of significance_fdr once the ranks `j` are known. */
  function SignificantByRank(p: seq<PValue>, j: seq<nat>, alpha: real): (s: seq<bool>)
    requires |j| == |p|
    ensures |s| == |p|
  {
    var m := NumberCount(p);
    var mask := seq(|p|, x requires 0 <= x < |p| => Qualifies(p[x], j[x], m, alpha));
    if true !in mask then mask
    else
      var k := MaxRank(mask, j);
      seq(|p|, x requires 0 <= x < |p| => j[x] <= k)
  }

  /** The mask significance_fdr(p, alpha) returns when np.argsort yields `order`. */
  function FdrMask(p: seq<PValue>, order: seq<nat>, alpha: real): (s: seq<bool>)
    requires IsArgsort(p, order)
    ensures |s| == |p|
  {
    SignificantByRank(p, Ranks(order), alpha)
  }

  /** significance_fdr: scatter the ranks in place, then threshold them. */
  method SignificanceFdr(p: seq<PValue>, order: seq<nat>, alpha: real) returns (s: seq<bool>)
    requires IsArgsort(p, order)
    ensures |s| == |p|
    ensures s == FdrMask(p, order, alpha)
  {
    var j := ScatterRanks(order);
    s := SignificantByRank(p, j[..], alpha);
  }

  /**
   * The step-up rule of Benjamini and Hochberg, stated without a maximum: entry x is rejected
   * when some entry of rank at least x's rank passes its own threshold alpha*rank/m.
   */
  ghost predicate StepUpRejects(p: seq<PValue>, order: seq<nat>, alpha: real, x: nat)
    requires IsArgsort(p, order) && x < |p|
  {
    var j := Ranks(order);
    exists y :: 0 <= y < |p| && Qualifies(p[y], j[y], NumberCount(p), alpha) && j[x] <= j[y]
  }

  /** The mask is exactly the step-up rule: both directions, for every entry. */
  lemma {:induction false} FdrMaskIsStepUp(p: seq<PValue>, order: seq<nat>, alpha: real)
    requires IsArgsort(p, order)
    ensures forall x :: 0 <= x < |p| ==> (FdrMask(p, order, alpha)[x] <==> StepUpRejects(p, order, alpha, x))
  {
    var j := Ranks(order);
    var m := NumberCount(p);
    var mask := seq(|p|, x requires 0 <= x < |p| => Qualifies(p[x], j[x], m, alpha));
    var s := FdrMask(p, order, alpha);
    if true in mask {
      var k := MaxRank(mask, j);
      forall x | 0 <= x < |p|
        ensures s[x] <==> StepUpRejects(p, order, alpha, x)
      {
        var y :| 0 <= y < |j| && mask[y] && j[y] == k;
        assert s[x] <==> j[x] <= k;
        if s[x] {
          assert Qualifies(p[y], j[y], m, alpha);
        }
      }
    } else {
      forall y | 0 <= y < |p|
        ensures !Qualifies(p[y], j[y], m, alpha)
      {
        assert mask[y] in mask;
      }
      forall x | 0 <= x < |p|
        ensures !s[x] && !StepUpRejects(p, order, alpha, x)
      {
        assert s[x] == mask[x];
      }
    }
  }

  /** When no entry passes its threshold the mask is all false (the early return). */
  lemma NoQualifyingEntryMeansAllFalse(p: seq<PValue>, order: seq<nat>, alpha: real)
    requires IsArgsort(p, order)
    requires forall x :: 0 <= x < |p| ==> !Qualifies(p[x], Ranks(order)[x], NumberCount(p), alpha)
    ensures forall x :: 0 <= x < |p| ==> !FdrMask(p, order, alpha)[x]
  {
    FdrMaskIsStepUp(p, order, alpha);
  }

  /** Every entry that passes its own threshold is significant. */
  lemma QualifyingEntriesAreSignificant(p: seq<PValue>, order: seq<nat>, alpha: real, y: nat)
    requires IsArgsort(p, order) && y < |p|
    requires Qualifies(p[y], Ranks(order)[y], NumberCount(p), alpha)
    ensures FdrMask(p, order, alpha)[y]
  {
    FdrMaskIsStepUp(p, order, alpha);
  }

  /** The significant set is downward closed in rank. */
  lemma SignificantSetIsDownwardClosed(p: seq<PValue>, order: seq<nat>, alpha: real, x: nat, y: nat)
    requires IsArgsort(p, order) && x < |p| && y < |p|
    requires FdrMask(p, order, alpha)[x] && Ranks(order)[y] <= Ranks(order)[x]
    ensures FdrMask(p, order, alpha)[y]
  {
    FdrMaskIsStepUp(p, order, alpha);
    assert StepUpRejects(p, order, alpha, x);
  }

  /** Larger ranks never hold strictly smaller values: the ranks agree with ascending p order. */
  lemma RanksFollowAscendingOrder(p: seq<PValue>, order: seq<nat>, x: nat, y: nat)
    requires IsArgsort(p, order) && x < |p| && y < |p|
    requires Ranks(order)[x] < Ranks(order)[y]
    ensures SortsBefore(p[x], p[y])
  {
    RankPosition(order, x);
    RankPosition(order, y);
  }

  /** A strictly smaller p-value never loses to a significant larger one. */
  lemma SmallerPValueIsSignificant(p: seq<PValue>, order: seq<nat>, alpha: real, x: nat, y: nat)
    requires IsArgsort(p, order) && x < |p| && y < |p|
    requires FdrMask(p, order, alpha)[x]
    requires p[x].Num? && p[y].Num? && p[y].v < p[x].v
    ensures FdrMask(p, order, alpha)[y]
  {
    var j := Ranks(order);
    if j[x] < j[y] {
      RanksFollowAscendingOrder(p, order, x, y);
      assert false;
    }
    SignificantSetIsDownwardClosed(p, order, alpha, x, y);
  }

  /** NaN entries, which sort after every number, are never significant. */
  lemma NaNIsNeverSignificant(p: seq<PValue>, order: seq<nat>, alpha: real, x: nat)
    requires IsArgsort(p, order) && x < |p| && p[x].NaN?
    ensures !FdrMask(p, order, alpha)[x]
  {
    var j := Ranks(order);
    NanRanksFollowNumbers(p, order);
    forall y | 0 <= y < |p| && Qualifies(p[y], j[y], NumberCount(p), alpha)
      ensures j[y] < j[x]
    {
    }
    FdrMaskIsStepUp(p, order, alpha);
  }

  /** A threshold alpha*rank/m grows with alpha. */
  lemma QualifiesMonotoneInAlpha(v: PValue, rank: nat, m: int, alpha1: real, alpha2: real)
    requires alpha1 <= alpha2 && Qualifies(v, rank, m, alpha1)
    ensures Qualifies(v, rank, m, alpha2)
  {
    var q := (rank as real) / (m as real);
    ScaleThenDivide(alpha1, rank as real, m as real);
    ScaleThenDivide(alpha2, rank as real, m as real);
    ScaleMonotone(alpha1, alpha2, q);
  }

  /** Scaling then dividing is scaling by the quotient. */
  lemma ScaleThenDivide(a: real, r: real, m: real)
    requires m > 0.0
    ensures a * r / m == a * (r / m)
  {
    var q := r / m;
    assert q * m == r;
    assert (a * q) * m == a * r;
  }

  /** Multiplying by a non-negative factor keeps an inequality. */
  lemma ScaleMonotone(a: real, b: real, q: real)
    requires a <= b && q >= 0.0
    ensures a * q <= b * q
  {
    assert b * q - a * q == (b - a) * q;
  }

  /** For fixed p, raising alpha never shrinks the significant set. */
  lemma {:induction false} FdrMaskMonotoneInAlpha(p: seq<PValue>, order: seq<nat>, alpha1: real, alpha2: real)
    requires IsArgsort(p, order) && alpha1 <= alpha2
    ensures forall x :: 0 <= x < |p| && FdrMask(p, order, alpha1)[x] ==> FdrMask(p, order, alpha2)[x]
  {
    FdrMaskIsStepUp(p, order, alpha1);
    FdrMaskIsStepUp(p, order, alpha2);
    var j := Ranks(order);
    var m := NumberCount(p);
    forall x | 0 <= x < |p| && FdrMask(p, order, alpha1)[x]
      ensures FdrMask(p, order, alpha2)[x]
    {
      assert StepUpRejects(p, order, alpha1, x);
      var y :| 0 <= y < |p| && Qualifies(p[y], j[y], m, alpha1) && j[x] <= j[y];
      QualifiesMonotoneInAlpha(p[y], j[y], m, alpha1, alpha2);
      assert StepUpRejects(p, order, alpha2, x);
    }
  }

  /** The number of true entries of a mask (np.sum of a boolean array). */
  function CountTrue(s: seq<bool>): (c: nat)
    ensures c <= |s|
  {
    if s == [] then 0 else CountTrue(s[..|s| - 1]) + (if s[|s| - 1] then 1 else 0)
  }

  lemma {:induction false} CountTrueMonotone(s1: seq<bool>, s2: seq<bool>)
    requires |s1| == |s2|
    requires forall x :: 0 <= x < |s1| && s1[x] ==> s2[x]
    ensures CountTrue(s1) <= CountTrue(s2)
  {
    if s1 != [] {
      var n := |s1| - 1;
      CountTrueMonotone(s1[..n], s2[..n]);
    }
  }

  /** For fixed p, raising alpha never lowers the number of significant entries. */
  lemma FdrCountMonotoneInAlpha(p: seq<PValue>, order: seq<nat>, alpha1: real, alpha2: real)
    requires IsArgsort(p, order) && alpha1 <= alpha2
    ensures CountTrue(FdrMask(p, order, alpha1)) <= CountTrue(FdrMask(p, order, alpha2))
  {
    FdrMaskMonotoneInAlpha(p, order, alpha1, alpha2);
    CountTrueMonotone(FdrMask(p, order, alpha1), FdrMask(p, order, alpha2));
  }

  /** The indices of the NaN entries. */
  ghost function NanSet(p: seq<PValue>): set<nat>
  {
    set x: nat | x < |p| && p[x].NaN?
  }

  lemma {:induction false} NanCountIsNanSetSize(p: seq<PValue>)
    ensures NanCount(p) == |NanSet(p)|
  {
    if p != [] {
      var n := |p| - 1;
      NanCountIsNanSetSize(p[..n]);
      assert NanSet(p) == NanSet(p[..n]) + (if p[n].NaN? then {n} else {});
    }
  }

  /** The indices found at sorted positions lo .. hi-1. */
  ghost function Positions(order: seq<nat>, lo: nat, hi: nat): set<nat>
    requires hi <= |order|
  {
    set r: nat | lo <= r < hi :: order[r]
  }

  /** A permutation maps hi-lo sorted positions to hi-lo distinct indices. */
  lemma {:induction false} PositionsSize(order: seq<nat>, lo: nat, hi: nat)
    requires IsPermutation(order) && lo <= hi <= |order|
    ensures |Positions(order, lo, hi)| == hi - lo
    decreases hi - lo
  {
    if lo < hi {
      PositionsSize(order, lo, hi - 1);
      assert Positions(order, lo, hi) == Positions(order, lo, hi - 1) + {order[hi - 1]};
      assert order[hi - 1] !in Positions(order, lo, hi - 1);
    } else {
      assert Positions(order, lo, hi) == {};
    }
  }

  /** The first sorted position that holds NaN, at or after `from`; |order| when there is none. */
  ghost function FirstNanPosition(p: seq<PValue>, order: seq<nat>, from: nat): (c: nat)
    requires IsArgsort(p, order) && from <= |order|
    ensures from <= c <= |order|
    ensures forall r :: from <= r < c ==> p[order[r]].Num?
    ensures c < |order| ==> p[order[c]].NaN?
    decreases |order| - from
  {
    if from == |order| || p[order[from]].NaN? then from else FirstNanPosition(p, order, from + 1)
  }

  /**
   * NaN entries take exactly the ranks above m = size - #NaN, so the m numbers hold ranks
   * 1 .. m.
   */
  lemma NanRanksFollowNumbers(p: seq<PValue>, order: seq<nat>)
    requires IsArgsort(p, order)
    ensures forall x :: 0 <= x < |p| ==> (p[x].NaN? <==> Ranks(order)[x] > NumberCount(p))
  {
    var n := |p|;
    var j := Ranks(order);
    var c := FirstNanPosition(p, order, 0);
    forall r | c <= r < n
      ensures p[order[r]].NaN?
    {
      if r > c {
        assert SortsBefore(p[order[c]], p[order[r]]);
      }
    }
    forall x | x in NanSet(p)
      ensures x in Positions(order, c, n)
    {
      RankPosition(order, x);
    }
    assert NanSet(p) == Positions(order, c, n);
    NanCountIsNanSetSize(p);
    PositionsSize(order, c, n);
    assert NumberCount(p) == c;
    forall x | 0 <= x < n
      ensures p[x].NaN? <==> j[x] > c
    {
      RankPosition(order, x);
    }
  }

  /** With alpha >= 0 the threshold alpha*rank/m grows with the rank. */
  lemma ThresholdMonotoneInRank(alpha: real, r1: nat, r2: nat, m: int)
    requires 0.0 <= alpha && r1 <= r2 && m > 0
    ensures alpha * (r1 as real) / (m as real) <= alpha * (r2 as real) / (m as real)
  {
    ScaleThenDivide(alpha, r1 as real, m as real);
    ScaleThenDivide(alpha, r2 as real, m as real);
    ScaleMonotone(r1 as real / m as real, r2 as real / m as real, alpha);
    assert (r1 as real) / (m as real) <= (r2 as real) / (m as real);
  }

  /** With alpha >= 0, an entry that passes at one rank passes at every higher rank. */
  lemma QualifiesAtHigherRank(v: PValue, r1: nat, r2: nat, m: int, alpha: real)
    requires 0.0 <= alpha && r1 <= r2 && Qualifies(v, r1, m, alpha)
    ensures Qualifies(v, r2, m, alpha)
  {
    ThresholdMonotoneInRank(alpha, r1, r2, m);
  }

  /** With alpha >= 0, a number above alpha fails at every rank up to m. */
  lemma AboveAlphaNeverQualifies(v: PValue, rank: nat, m: int, alpha: real)
    requires 0.0 <= alpha && v.Num? && v.v > alpha && rank <= m
    ensures !Qualifies(v, rank, m, alpha)
  {
    if m > 0 {
      ThresholdMonotoneInRank(alpha, rank, m, m);
      assert alpha * (m as real) / (m as real) == alpha;
    }
  }

  /**
   * With alpha >= 0, equal p-values are significant together, whichever order np.argsort gave
   * the tie.
   */
  lemma TiedValuesShareSignificance(p: seq<PValue>, order: seq<nat>, alpha: real, x: nat, y: nat)
    requires IsArgsort(p, order) && x < |p| && y < |p| && 0.0 <= alpha
    requires p[x] == p[y] && FdrMask(p, order, alpha)[x]
    ensures FdrMask(p, order, alpha)[y]
  {
    var j := Ranks(order);
    if j[x] < j[y] {
      FdrMaskIsStepUp(p, order, alpha);
      assert StepUpRejects(p, order, alpha, x);
      var z :| 0 <= z < |p| && Qualifies(p[z], j[z], NumberCount(p), alpha) && j[x] <= j[z];
      if j[z] < j[y] {
        TieBelowQualifies(p, order, alpha, x, y, z);
        QualifyingEntriesAreSignificant(p, order, alpha, y);
      } else {
        assert StepUpRejects(p, order, alpha, y);
      }
    } else {
      SignificantSetIsDownwardClosed(p, order, alpha, x, y);
    }
  }

  /**
   * An entry z ranked between two tied entries x and y holds their value, so if z qualifies at its
   * rank then y qualifies at its higher rank.
   */
  lemma TieBelowQualifies(p: seq<PValue>, order: seq<nat>, alpha: real, x: nat, y: nat, z: nat)
    requires IsArgsort(p, order) && x < |p| && y < |p| && z < |p| && 0.0 <= alpha && p[x] == p[y]
    requires Ranks(order)[x] <= Ranks(order)[z] < Ranks(order)[y]
    requires Qualifies(p[z], Ranks(order)[z], NumberCount(p), alpha)
    ensures Qualifies(p[y], Ranks(order)[y], NumberCount(p), alpha)
  {
    var j := Ranks(order);
    if z != x {
      RanksFollowAscendingOrder(p, order, x, z);
    }
    RanksFollowAscendingOrder(p, order, z, y);
    assert p[z] == p[y];
    QualifiesAtHigherRank(p[y], j[z], j[y], NumberCount(p), alpha);
  }

  /** The numbers no larger than v. */
  ghost function AtMost(p: seq<PValue>, v: real): set<nat>
  {
    set x: nat | x < |p| && p[x].Num? && p[x].v <= v
  }

  /** A subset is no larger than its superset, and of equal size only when the two are equal. */
  lemma SubsetSize(s: set<nat>, t: set<nat>)
    requires s <= t
    ensures |s| <= |t|
    ensures |s| == |t| ==> s == t
  {
    assert t == s + (t - s);
  }

  /** Under any argsort, a number no larger than v ranks within the count of such numbers. */
  lemma RankWithinAtMost(p: seq<PValue>, order: seq<nat>, x: nat, v: real)
    requires IsArgsort(p, order) && x in AtMost(p, v)
    ensures Ranks(order)[x] <= |AtMost(p, v)|
  {
    var j := Ranks(order);
    RankPosition(order, x);
    forall z | z in Positions(order, 0, j[x])
      ensures z in AtMost(p, v)
    {
      var r :| 0 <= r < j[x] && order[r] == z;
      if r < j[x] - 1 {
        assert SortsBefore(p[order[r]], p[order[j[x] - 1]]);
      }
    }
    PositionsSize(order, 0, j[x]);
    SubsetSize(Positions(order, 0, j[x]), AtMost(p, v));
  }

  /** Under any argsort, the c numbers no larger than v take exactly the ranks 1 .. c. */
  lemma AtMostTakesLowestRanks(p: seq<PValue>, order: seq<nat>, v: real)
    requires IsArgsort(p, order)
    ensures |AtMost(p, v)| <= |p|
    ensures AtMost(p, v) == Positions(order, 0, |AtMost(p, v)|)
  {
    var s := AtMost(p, v);
    var j := Ranks(order);
    forall z | z in s
      ensures z in Positions(order, 0, |p|)
    {
      RankPosition(order, z);
    }
    PositionsSize(order, 0, |p|);
    SubsetSize(s, Positions(order, 0, |p|));
    var c := |s|;
    forall z | z in s
      ensures z in Positions(order, 0, c)
    {
      RankWithinAtMost(p, order, z, v);
      RankPosition(order, z);
    }
    PositionsSize(order, 0, c);
    SubsetSize(s, Positions(order, 0, c));
  }

  /** Under any argsort, the entry at rank c = #(numbers no larger than p[y]) holds the value p[y]. */
  lemma TieAtTopRank(p: seq<PValue>, order: seq<nat>, y: nat)
    requires IsArgsort(p, order) && y < |p| && p[y].Num?
    ensures var c := |AtMost(p, p[y].v)|;
      && 0 < c <= |p|
      && p[order[c - 1]] == p[y]
      && Ranks(order)[order[c - 1]] == c
  {
    var s := AtMost(p, p[y].v);
    var j := Ranks(order);
    assert y in s;
    RankWithinAtMost(p, order, y, p[y].v);
    AtMostTakesLowestRanks(p, order, p[y].v);
    var c := |s|;
    var z := order[c - 1];
    assert z in Positions(order, 0, c);
    if j[y] < c {
      RanksFollowAscendingOrder(p, order, y, z);
    } else {
      RankPosition(order, y);
    }
  }

  /**
   * A significant entry has a qualifying witness y whose rank does not exceed the number of
   * numbers no larger than p[y], and the entry itself is one of those numbers.
   */
  lemma SignificantHasQualifyingTie(p: seq<PValue>, order: seq<nat>, alpha: real, x: nat) returns (y: nat)
    requires IsArgsort(p, order) && x < |p| && FdrMask(p, order, alpha)[x]
    ensures y < |p| && Qualifies(p[y], Ranks(order)[y], NumberCount(p), alpha)
    ensures x in AtMost(p, p[y].v) && Ranks(order)[y] <= |AtMost(p, p[y].v)|
  {
    var j := Ranks(order);
    FdrMaskIsStepUp(p, order, alpha);
    assert StepUpRejects(p, order, alpha, x);
    y :| 0 <= y < |p| && Qualifies(p[y], j[y], NumberCount(p), alpha) && j[x] <= j[y];
    if j[x] < j[y] {
      RanksFollowAscendingOrder(p, order, x, y);
    } else {
      RankPosition(order, x);
      RankPosition(order, y);
    }
    assert y in AtMost(p, p[y].v);
    RankWithinAtMost(p, order, y, p[y].v);
  }

  /**
   * With alpha >= 0, if p[y] qualifies at some rank r no larger than the number of numbers
   * no larger than p[y], then under any argsort every such number is significant.
   */
  lemma QualifyingTieMarksAtMost(p: seq<PValue>, order: seq<nat>, alpha: real, y: nat, r: nat, x: nat)
    requires IsArgsort(p, order) && y < |p| && 0.0 <= alpha
    requires Qualifies(p[y], r, NumberCount(p), alpha) && r <= |AtMost(p, p[y].v)|
    requires x in AtMost(p, p[y].v)
    ensures FdrMask(p, order, alpha)[x]
  {
    var c := |AtMost(p, p[y].v)|;
    TieAtTopRank(p, order, y);
    RankWithinAtMost(p, order, x, p[y].v);
    var z := order[c - 1];
    QualifiesAtHigherRank(p[z], r, c, NumberCount(p), alpha);
    QualifyingEntriesAreSignificant(p, order, alpha, z);
    SignificantSetIsDownwardClosed(p, order, alpha, z, x);
  }

  /** With alpha >= 0, an entry significant under one argsort is significant under any other. */
  lemma SignificantUnderAnyArgsort(p: seq<PValue>, o1: seq<nat>, o2: seq<nat>, alpha: real, x: nat)
    requires IsArgsort(p, o1) && IsArgsort(p, o2) && x < |p| && 0.0 <= alpha
    requires FdrMask(p, o1, alpha)[x]
    ensures FdrMask(p, o2, alpha)[x]
  {
    var y := SignificantHasQualifyingTie(p, o1, alpha, x);
    QualifyingTieMarksAtMost(p, o2, alpha, y, Ranks(o1)[y], x);
  }

  /**
   * With alpha >= 0 the result does not depend on how np.argsort orders ties: any two valid
   * sort orders give the same mask.
   */
  lemma FdrMaskIgnoresTieOrder(p: seq<PValue>, o1: seq<nat>, o2: seq<nat>, alpha: real)
    requires IsArgsort(p, o1) && IsArgsort(p, o2) && 0.0 <= alpha
    ensures FdrMask(p, o1, alpha) == FdrMask(p, o2, alpha)
  {
    forall x | 0 <= x < |p|
      ensures FdrMask(p, o1, alpha)[x] == FdrMask(p, o2, alpha)[x]
    {
      if FdrMask(p, o1, alpha)[x] {
        SignificantUnderAnyArgsort(p, o1, o2, alpha, x);
      }
      if FdrMask(p, o2, alpha)[x] {
        SignificantUnderAnyArgsort(p, o2, o1, alpha, x);
      }
    }
  }

  /** With alpha >= 0, when every number exceeds alpha nothing is significant. */
  lemma PValuesAboveAlphaAreNeverSignificant(p: seq<PValue>, order: seq<nat>, alpha: real)
    requires IsArgsort(p, order) && 0.0 <= alpha
    requires forall x :: 0 <= x < |p| && p[x].Num? ==> p[x].v > alpha
    ensures forall x :: 0 <= x < |p| ==> !FdrMask(p, order, alpha)[x]
  {
    var j := Ranks(order);
    var m := NumberCount(p);
    NanRanksFollowNumbers(p, order);
    forall y | 0 <= y < |p|
      ensures !Qualifies(p[y], j[y], m, alpha)
    {
      if p[y].Num? {
        AboveAlphaNeverQualifies(p[y], j[y], m, alpha);
      }
    }
    NoQualifyingEntryMeansAllFalse(p, order, alpha);
  }

  /** p = [0.01, 0.02, 0.03, 0.5, 0.7] at alpha 0.05: ranks 1-3 pass 0.05*rank/5, rank 4 does not. */
  lemma ThreeOfFiveAreSignificant()
    ensures var p := [Num(0.01), Num(0.02), Num(0.03), Num(0.5), Num(0.7)];
            IsArgsort(p, [0, 1, 2, 3, 4])
            && FdrMask(p, [0, 1, 2, 3, 4], 0.05) == [true, true, true, false, false]
  {
    var p := [Num(0.01), Num(0.02), Num(0.03), Num(0.5), Num(0.7)];
    AscendingFiveRanks(p);
    NanCountIsNanSetSize(p);
    assert NanSet(p) == {};
    ThreeOfFiveByRank(p);
  }

  /**
   * Below zero the tie order matters: with alpha = -1 two equal p-values of -0.6 qualify only at
   * rank 1, so whichever of them np.argsort puts first is the only significant one.
   */
  lemma TieOrderMattersForNegativeAlpha()
    ensures var p := [Num(-0.6), Num(-0.6)];
            IsArgsort(p, [0, 1]) && IsArgsort(p, [1, 0])
            && FdrMask(p, [0, 1], -1.0) != FdrMask(p, [1, 0], -1.0)
  {
    var p := [Num(-0.6), Num(-0.6)];
    TwoTiesSortEitherWay(p);
    FdrMaskIsStepUp(p, [0, 1], -1.0);
    assert !Qualifies(p[0], 2, 2, -1.0) && !Qualifies(p[1], 2, 2, -1.0);
    assert !StepUpRejects(p, [0, 1], -1.0, 1);
    assert Qualifies(p[1], 1, 2, -1.0);
    QualifyingEntriesAreSignificant(p, [1, 0], -1.0, 1);
  }

  /** Two equal numbers: both orders are argsorts, with the ranks they list. */
  lemma TwoTiesSortEitherWay(p: seq<PValue>)
    requires p == [Num(-0.6), Num(-0.6)]
    ensures IsArgsort(p, [0, 1]) && IsArgsort(p, [1, 0]) && NumberCount(p) == 2
    ensures Ranks([0, 1]) == [1, 2] && Ranks([1, 0]) == [2, 1]
  {
    TwoNumbersCount(p);
    SwapRanks();
  }

  /** Both orders of two positions are permutations, and each ranks its first entry 1. */
  lemma SwapRanks()
    ensures IsPermutation([0, 1]) && IsPermutation([1, 0])
    ensures Ranks([0, 1]) == [1, 2] && Ranks([1, 0]) == [2, 1]
  {
    assert IndexOf([1, 0], 1) == 0;
  }

  /** Two numbers and no NaN: m is 2. */
  lemma TwoNumbersCount(p: seq<PValue>)
    requires |p| == 2 && p[0].Num? && p[1].Num?
    ensures NumberCount(p) == 2
  {
    assert NanCount(p[..1]) == NanCount(p[..1][..0]);
    assert p[..1][..0] == [];
  }

  /** Already ascending values: the identity order sorts them and ranks them 1 to 5. */
  lemma AscendingFiveRanks(p: seq<PValue>)
    requires p == [Num(0.01), Num(0.02), Num(0.03), Num(0.5), Num(0.7)]
    ensures IsArgsort(p, [0, 1, 2, 3, 4]) && Ranks([0, 1, 2, 3, 4]) == [1, 2, 3, 4, 5]
  {
    assert Identity(5) == [0, 1, 2, 3, 4];
    IdentitySortsAscending(p);
  }

  /** The positions 0 .. n-1 in order. */
  function Identity(n: nat): (order: seq<nat>)
    ensures |order| == n && forall r :: 0 <= r < n ==> order[r] == r
  {
    seq(n, r requires 0 <= r < n => r)
  }

  /** For values already in ascending order, the identity is an argsort and ranks position x as x+1. */
  lemma IdentitySortsAscending(p: seq<PValue>)
    requires forall x1, x2 :: 0 <= x1 < x2 < |p| ==> SortsBefore(p[x1], p[x2])
    ensures IsArgsort(p, Identity(|p|))
    ensures Ranks(Identity(|p|)) == seq(|p|, x requires 0 <= x < |p| => x + 1)
  {
    var order := Identity(|p|);
    forall x | 0 <= x < |p|
      ensures x in order
    {
      assert order[x] == x;
    }
    var j := Ranks(order);
    forall x | 0 <= x < |p|
      ensures j[x] == x + 1
    {
      assert order[x] == x;
    }
  }

  lemma ThreeOfFiveByRank(p: seq<PValue>)
    requires p == [Num(0.01), Num(0.02), Num(0.03), Num(0.5), Num(0.7)] && NumberCount(p) == 5
    ensures SignificantByRank(p, [1, 2, 3, 4, 5], 0.05) == [true, true, true, false, false]
  {
    var j: seq<nat> := [1, 2, 3, 4, 5];
    var mask := seq(5, x requires 0 <= x < 5 => Qualifies(p[x], j[x], 5, 0.05));
    assert Qualifies(Num(0.01), 1, 5, 0.05) && Qualifies(Num(0.02), 2, 5, 0.05);
    assert Qualifies(Num(0.03), 3, 5, 0.05);
    assert !Qualifies(Num(0.5), 4, 5, 0.05) && !Qualifies(Num(0.7), 5, 5, 0.05);
    assert mask == [true, true, true, false, false];
    var k := MaxRank(mask, j);
    assert mask[2] && j[2] <= k;
    assert k == 3;
  }
}
