/**
 * Index bookkeeping of the resampling estimators: which trials each jackknife estimate keeps,
 * how many jackknife estimates there are, and which trials a bootstrap estimate draws.
 */
module Resampling {
  import opened Wrappers

  // ---------------------------------------------------------------------------------------------
  // Jackknife blocks
  // ---------------------------------------------------------------------------------------------

  /** Why the number of jackknife blocks cannot be computed: t / leaveout with leaveout == 0. */
  datatype BlockError = ZeroLeaveout

  /**
   * The block length actually used for an integer leaveout: a value below 1 is read as a
   * fraction of the t trials and becomes leaveout * t.
   */
  function BlockLength(leaveout: int, t: nat): (l: int)
    ensures leaveout >= 1 ==> l == leaveout
    ensures l > 0 <==> leaveout >= 1
    ensures l == 0 <==> (leaveout == 0 || (leaveout < 1 && t == 0))
  {
    if leaveout < 1 then leaveout * t else leaveout
  }

  /**
   * num_blocks = int(t / leaveout): the quotient truncated toward zero, and range() of a
   * negative count is empty, so a negative block length gives no blocks at all.
   */
  function NumBlocks(leaveout: int, t: nat): (r: Result<nat, BlockError>)
    ensures r.Err? <==> BlockLength(leaveout, t) == 0
    ensures r.Ok? && leaveout >= 1 ==> r.value * leaveout <= t < (r.value + 1) * leaveout
    ensures r.Ok? && leaveout < 1 ==> r.value == 0
  {
    var l := BlockLength(leaveout, t);
    if l == 0 then Err(ZeroLeaveout)
    else if l < 0 then Ok(0)
    else
      assert l == leaveout;
      var q := t / l;
      DivisionBrackets(t, l);
      Ok(q)
  }

  /** The quotient q = t / l is the one count with q*l <= t < (q+1)*l. */
  lemma DivisionBrackets(t: nat, l: int)
    requires l > 0
    ensures (t / l) * l <= t < (t / l + 1) * l
  {
    assert t == (t / l) * l + t % l;
  }

  /** Multiplying by a non-negative factor keeps an inequality. */
  lemma MulMonotone(x: int, y: int, l: int)
    requires x <= y && l >= 0
    ensures x * l <= y * l
  {
    assert y * l - x * l == (y - x) * l;
  }

  /** A trial stays in a jackknife estimate unless it lies in the omitted block [lo, hi). */
  predicate Kept(i: int, lo: int, hi: int)
  {
    i < lo || i >= hi
  }

  /** The mask [i for i in range(t) if i < lo or i >= hi]. */
  function KeptTrials(t: nat, lo: int, hi: int): (mask: seq<nat>)
    ensures forall q :: 0 <= q < |mask| ==> mask[q] < t && Kept(mask[q], lo, hi)
    ensures forall q, q' :: 0 <= q < q' < |mask| ==> mask[q] < mask[q']
  {
    if t == 0 then []
    else
      var prefix := KeptTrials(t - 1, lo, hi);
      if Kept(t - 1, lo, hi) then prefix + [t - 1] else prefix
  }

  /** The mask holds exactly the trials outside [lo, hi). */
  lemma {:induction false} KeptTrialsExactly(t: nat, lo: int, hi: int)
    ensures forall i: nat :: i in KeptTrials(t, lo, hi) <==> i < t && Kept(i, lo, hi)
  {
    if t > 0 {
      KeptTrialsExactly(t - 1, lo, hi);
    }
  }

  /** The indices lo, lo+1, ..., hi-1 in order. */
  function Range(lo: nat, hi: nat): (r: seq<nat>)
    requires lo <= hi
    ensures |r| == hi - lo
    ensures forall q :: 0 <= q < |r| ==> r[q] == lo + q
    decreases hi - lo
  {
    if lo == hi then [] else [lo] + Range(lo + 1, hi)
  }

  /** Range(lo, hi + 1) extends Range(lo, hi) by hi. */
  lemma RangeSnoc(lo: nat, hi: nat)
    requires lo <= hi
    ensures Range(lo, hi + 1) == Range(lo, hi) + [hi]
  {
  }

  /**
   * When the omitted block lies inside the trials, the mask is every trial before it followed by
   * every trial after it.
   */
  lemma {:induction false} KeptTrialsAroundBlock(t: nat, lo: nat, hi: nat)
    requires lo <= hi <= t
    ensures KeptTrials(t, lo, hi) == Range(0, lo) + Range(hi, t)
  {
    if t == hi {
      KeptTrialsBelow(t, lo, hi);
    } else {
      KeptTrialsAroundBlock(t - 1, lo, hi);
      RangeSnoc(hi, t - 1);
      assert Kept(t - 1, lo, hi);
      calc {
        KeptTrials(t, lo, hi);
        KeptTrials(t - 1, lo, hi) + [t - 1];
        (Range(0, lo) + Range(hi, t - 1)) + [t - 1];
        Range(0, lo) + (Range(hi, t - 1) + [t - 1]);
      }
    }
  }

  /** Up to the end of the block, only the trials before it are kept. */
  lemma {:induction false} KeptTrialsBelow(t: nat, lo: nat, hi: nat)
    requires lo <= hi && t <= hi
    ensures KeptTrials(t, lo, hi) == Range(0, if t < lo then t else lo)
  {
    if t > 0 {
      KeptTrialsBelow(t - 1, lo, hi);
      if t - 1 < lo {
        RangeSnoc(0, t - 1);
      }
    }
  }

  /** The trials kept by jackknife estimate b with block length l. */
  function BlockMask(t: nat, l: nat, b: nat): (mask: seq<nat>)
    ensures forall i: nat :: i in mask <==> i < t && Kept(i, b * l, (b + 1) * l)
  {
    KeptTrialsExactly(t, b * l, (b + 1) * l);
    KeptTrials(t, b * l, (b + 1) * l)
  }

  /** Every block b < t / l lies inside the t trials. */
  lemma BlockInside(t: nat, l: nat, b: nat)
    requires l > 0 && b < t / l
    ensures (b + 1) * l <= t
  {
    DivisionBrackets(t, l);
    MulMonotone(b + 1, t / l, l);
  }

  /** Jackknife estimate b (one of the num_blocks) leaves out exactly l trials. */
  lemma BlockMaskLength(t: nat, l: nat, b: nat)
    requires (b + 1) * l <= t
    ensures |BlockMask(t, l, b)| == t - l
    ensures BlockMask(t, l, b) == Range(0, b * l) + Range((b + 1) * l, t)
  {
    var lo, hi := b * l, (b + 1) * l;
    assert hi == lo + l;
    KeptTrialsAroundBlock(t, lo, hi);
  }

  /** Trial i is left out of jackknife estimate b. */
  predicate Omits(t: nat, l: nat, b: nat, i: nat)
  {
    i < t && i !in BlockMask(t, l, b)
  }

  /**
   * Every trial below num_blocks * l is left out by exactly one estimate, the one of block
   * i / l, and a trial at or above it is never left out.
   */
  lemma OmittedExactlyOnce(t: nat, l: nat, i: nat)
    requires l > 0 && i < t
    ensures i < (t / l) * l ==> i / l < t / l && forall b: nat :: b < t / l ==> (Omits(t, l, b, i) <==> b == i / l)
    ensures i >= (t / l) * l ==> forall b: nat :: b < t / l ==> !Omits(t, l, b, i)
  {
    DivisionBrackets(i, l);
    forall b: nat | b < t / l
      ensures Omits(t, l, b, i) <==> b * l <= i < (b + 1) * l
    {
      KeptTrialsExactly(t, b * l, (b + 1) * l);
    }
    if i < (t / l) * l {
      if t / l <= i / l {
        MulMonotone(t / l, i / l, l);
      }
      forall b: nat | b < t / l
        ensures b * l <= i < (b + 1) * l <==> b == i / l
      {
        if b < i / l {
          MulMonotone(b + 1, i / l, l);
        } else if b > i / l {
          MulMonotone(i / l + 1, b, l);
        }
      }
    } else {
      forall b: nat | b < t / l
        ensures !(b * l <= i < (b + 1) * l)
      {
        MulMonotone(b + 1, t / l, l);
      }
    }
  }

  // ---------------------------------------------------------------------------------------------
  // Selecting trials, and the bootstrap draws
  // ---------------------------------------------------------------------------------------------

  /** data[:, :, mask]: the trials at the given indices, in mask order and with repetitions. */
  function SelectTrials<T>(data: seq<T>, mask: seq<nat>): (r: seq<T>)
    requires forall q :: 0 <= q < |mask| ==> mask[q] < |data|
    ensures |r| == |mask|
  {
    seq(|mask|, q requires 0 <= q < |mask| => data[mask[q]])
  }

  /** Selecting an index range is slicing. */
  lemma SelectRange<T>(data: seq<T>, lo: nat, hi: nat)
    requires lo <= hi <= |data|
    ensures SelectTrials(data, Range(lo, hi)) == data[lo..hi]
  {
  }

  /** Selecting a concatenation of masks concatenates the selections. */
  lemma SelectAppend<T>(data: seq<T>, m1: seq<nat>, m2: seq<nat>)
    requires forall q :: 0 <= q < |m1| ==> m1[q] < |data|
    requires forall q :: 0 <= q < |m2| ==> m2[q] < |data|
    ensures SelectTrials(data, m1 + m2) == SelectTrials(data, m1) + SelectTrials(data, m2)
  {
  }

  /** The data of jackknife estimate b is the data with block b cut out. */
  lemma JackknifeDataCutsBlock<T>(data: seq<T>, l: nat, b: nat)
    requires l > 0 && b < |data| / l
    ensures (b + 1) * l <= |data|
    ensures SelectTrials(data, BlockMask(|data|, l, b)) == data[..b * l] + data[(b + 1) * l..]
  {
    var t := |data|;
    BlockInside(t, l, b);
    BlockMaskLength(t, l, b);
    MulMonotone(b, b + 1, l);
    SelectAppend(data, Range(0, b * l), Range((b + 1) * l, t));
    SelectRange(data, 0, b * l);
    SelectRange(data, (b + 1) * l, t);
  }

  /** Why np.random.random_integers refuses: an empty interval or a negative size. */
  datatype DrawError = EmptyInterval | NegativeSize

  /**
   * np.random.random_integers(low, high, size): size integers drawn from [low, high] inclusive.
   * The random source is the parameter word (the generator's output for draw q); only its
   * range reduction is modelled, not its distribution.
   */
  function RandomIntegers(low: int, high: int, size: int, word: nat -> nat): (r: Result<seq<int>, DrawError>)
    ensures r.Ok? <==> low <= high && size >= 0
    ensures r.Ok? ==> |r.value| == size && forall q :: 0 <= q < |r.value| ==> low <= r.value[q] <= high
  {
    if high < low then Err(EmptyInterval)
    else if size < 0 then Err(NegativeSize)
    else Ok(seq(size, q requires 0 <= q < size => low + word(q) % (high - low + 1)))
  }

  /** The trial indices of one bootstrap estimate: random_integers(0, t-1, num_samples). */
  function BootstrapMask(t: nat, numSamples: int, word: nat -> nat): (r: Result<seq<nat>, DrawError>)
    ensures r.Ok? <==> t > 0 && numSamples >= 0
    ensures r.Ok? ==> |r.value| == numSamples && forall q :: 0 <= q < |r.value| ==> r.value[q] < t
  {
    match RandomIntegers(0, t - 1, numSamples, word)
    case Err(e) => Err(e)
    case Ok(indices) => Ok(seq(|indices|, q requires 0 <= q < |indices| => indices[q] as nat))
  }
}
