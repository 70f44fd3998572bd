/**
 * The three resampling estimators of connectivity: surrogate data by phase randomisation,
 * jackknife over blocks of trials, and bootstrap over trials drawn with replacement.
 *
 * Each refits a VAR model once per repetition, computes the connectivity measures from the
 * fitted coefficients and residual covariance, and aggregates the per-repetition results.
 * The fit, the connectivity computation, the phase randomisation and the random draws are
 * parameters of the model: only the drivers' bookkeeping is modelled.
 */
module Estimators {
  import opened Wrappers
  import opened Aggregate
  import opened Resampling

  /** One trial: n_samples rows of n_channels values. */
  type Trial = seq<seq<real>>

  /** The data set as a sequence of trials: element i is data[:, :, i]. */
  type Data = seq<Trial>

  /** var.coef: the VAR coefficient matrix. */
  type Coefficients = seq<seq<real>>

  /** var.rescov: the covariance of the residuals. */
  type Covariance = seq<seq<real>>

  /** The outcome of one least-squares fit. */
  datatype Fitted = Fitted(coef: Coefficients, rescov: Covariance)

  /**
   * A VAR model object: fit(data) overwrites its coefficients and residual covariance.
   * The ghost history records every data set it was fitted to, so that the drivers can promise
   * one fit per repetition.
   */
  class VarModel {
    const estimate: Data -> Fitted
    var coef: Coefficients
    var rescov: Covariance
    ghost var fitted: seq<Data>

    constructor (estimate: Data -> Fitted)
      ensures this.estimate == estimate
      ensures coef == [] && rescov == [] && fitted == []
    {
      this.estimate := estimate;
      coef := [];
      rescov := [];
      fitted := [];
    }

    /** var.fit(data): the model now holds the fit of data, and that fit is on record. */
    method Fit(data: Data)
      modifies this
      ensures coef == estimate(data).coef && rescov == estimate(data).rescov
      ensures fitted == old(fitted) + [data]
    {
      var f := estimate(data);
      coef := f.coef;
      rescov := f.rescov;
      fitted := fitted + [data];
    }
  }

  /** connectivity(measure_names, var.coef, var.rescov, nfft) after fitting input. */
  function MeasureOf<A>(estimate: Data -> Fitted, connectivity: (Measures, Coefficients, Covariance, int) -> Estimate<A>,
                        measures: Measures, nfft: int, input: Data): (e: Estimate<A>)
    ensures e == connectivity(measures, estimate(input).coef, estimate(input).rescov, nfft)
  {
    connectivity(measures, estimate(input).coef, estimate(input).rescov, nfft)
  }

  /**
   * One repetition of a driver: var.fit(input), then connectivity of the coefficients and
   * residual covariance the fit left in the model.
   */
  method FitAndMeasure<A>(model: VarModel, connectivity: (Measures, Coefficients, Covariance, int) -> Estimate<A>,
                          measures: Measures, nfft: int, input: Data) returns (c: Estimate<A>)
    modifies model
    ensures c == MeasureOf(model.estimate, connectivity, measures, nfft, input)
    ensures model.fitted == old(model.fitted) + [input]
  {
    model.Fit(input);
    c := connectivity(measures, model.coef, model.rescov, nfft);
  }

  /** The per-repetition results, one for each data set fitted. */
  function Outputs<A>(estimate: Data -> Fitted, connectivity: (Measures, Coefficients, Covariance, int) -> Estimate<A>,
                      measures: Measures, nfft: int, inputs: seq<Data>): (out: seq<Estimate<A>>)
    ensures |out| == |inputs|
    ensures forall r :: 0 <= r < |inputs| ==> out[r] == MeasureOf(estimate, connectivity, measures, nfft, inputs[r])
  {
    seq(|inputs|, r requires 0 <= r < |inputs| => MeasureOf(estimate, connectivity, measures, nfft, inputs[r]))
  }

  /** range(repeats) has this many elements: none for a negative count. */
  function Repetitions(repeats: int): (n: nat)
    ensures n == 0 <==> repeats <= 0
    ensures n > 0 ==> n == repeats
  {
    if repeats < 0 then 0 else repeats
  }

  /** Why an estimator fails. */
  datatype DriverError =
    | BadBlocks(blocks: BlockError)        // jackknife: t / leaveout divides by zero
    | BadDraw(draw: DrawError)             // bootstrap: random_integers refuses its arguments
    | Unconvertible(convert: ConvertError) // aggregation: a requested measure is missing

  /** convert_output_(output, measure_names), its error lifted into the estimator's error. */
  function Finish<A>(output: seq<Estimate<A>>, measures: Measures): (r: Result<Ensemble<A>, DriverError>)
    ensures r.Ok? <==> ConvertOutput(output, measures).Ok?
    ensures r.Ok? ==> r.value == ConvertOutput(output, measures).value && HasRepeats(r.value, |output|)
  {
    match ConvertOutput(output, measures)
    case Err(e) => Err(Unconvertible(e))
    case Ok(ensemble) => Ok(ensemble)
  }

  // ---------------------------------------------------------------------------------------------
  // surrogate_connectivity
  // ---------------------------------------------------------------------------------------------

  /** The surrogate data sets: phase(data, r) is the phase randomisation of repetition r. */
  function SurrogateInputs(data: Data, phase: (Data, nat) -> Data, n: nat): (inputs: seq<Data>)
    ensures |inputs| == n
    ensures forall r :: 0 <= r < n ==> inputs[r] == phase(data, r)
  {
    seq(n, r requires 0 <= r < n => phase(data, r))
  }

  /**
   * surrogate_connectivity: exactly repeats refits, repetition r on the r-th phase-randomised
   * surrogate, and an ensemble of the repeats connectivity results in order.
   */
  method SurrogateConnectivity<A>(measures: Measures, data: Data, model: VarModel, nfft: int, repeats: int,
                                  phase: (Data, nat) -> Data,
                                  connectivity: (Measures, Coefficients, Covariance, int) -> Estimate<A>)
    returns (r: Result<Ensemble<A>, DriverError>)
    modifies model
    ensures model.fitted == old(model.fitted) + SurrogateInputs(data, phase, Repetitions(repeats))
    ensures r == Finish(Outputs(model.estimate, connectivity, measures, nfft,
                                SurrogateInputs(data, phase, Repetitions(repeats))), measures)
    ensures r.Ok? ==> HasRepeats(r.value, Repetitions(repeats))
  {
    ghost var inputs := SurrogateInputs(data, phase, Repetitions(repeats));
    ghost var outputs := Outputs(model.estimate, connectivity, measures, nfft, inputs);
    var output: seq<Estimate<A>> := [];
    var rep := 0;
    while rep < repeats
      invariant 0 <= rep <= Repetitions(repeats)
      invariant model.fitted == old(model.fitted) + inputs[..rep]
      invariant output == outputs[..rep]
    {
      var surrogate := phase(data, rep);
      var c := FitAndMeasure(model, connectivity, measures, nfft, surrogate);
      assert inputs[..rep + 1] == inputs[..rep] + [surrogate];
      assert outputs[..rep + 1] == outputs[..rep] + [c];
      output := output + [c];
      rep := rep + 1;
    }
    assert inputs[..rep] == inputs && outputs[..rep] == outputs;
    r := Finish(output, measures);
  }

  // ---------------------------------------------------------------------------------------------
  // jackknife_connectivity
  // ---------------------------------------------------------------------------------------------

  /** The data of jackknife estimate b: every trial outside block b, in order. */
  function JackknifeInputs(data: Data, l: nat, n: nat): (inputs: seq<Data>)
    ensures |inputs| == n
  {
    seq(n, b requires 0 <= b < n => SelectTrials(data, BlockMask(|data|, l, b)))
  }

  /** Jackknife estimate b is fitted on the data with the trials of block b cut out. */
  lemma JackknifeInputsCutBlocks(data: Data, leaveout: nat)
    requires leaveout > 0
    ensures forall b :: 0 <= b < |data| / leaveout ==>
      && (b + 1) * leaveout <= |data|
      && JackknifeInputs(data, leaveout, |data| / leaveout)[b] == data[..b * leaveout] + data[(b + 1) * leaveout..]
  {
    forall b | 0 <= b < |data| / leaveout
      ensures (b + 1) * leaveout <= |data|
      ensures JackknifeInputs(data, leaveout, |data| / leaveout)[b] == data[..b * leaveout] + data[(b + 1) * leaveout..]
    {
      JackknifeDataCutsBlock(data, leaveout, b);
    }
  }

  /**
   * jackknife_connectivity: t / leaveout estimates (none when leaveout is negative, an error when
   * it is 0), estimate b refitted on the data with the trials of block b removed.
   */
  method JackknifeConnectivity<A>(measures: Measures, data: Data, model: VarModel, nfft: int, leaveout: int,
                                  connectivity: (Measures, Coefficients, Covariance, int) -> Estimate<A>)
    returns (r: Result<Ensemble<A>, DriverError>)
    modifies model
    ensures NumBlocks(leaveout, |data|).Err? ==> r == Err(BadBlocks(ZeroLeaveout)) && model.fitted == old(model.fitted)
    ensures NumBlocks(leaveout, |data|).Ok? ==>
      var inputs := JackknifeInputs(data, Repetitions(leaveout), NumBlocks(leaveout, |data|).value);
      && model.fitted == old(model.fitted) + inputs
      && r == Finish(Outputs(model.estimate, connectivity, measures, nfft, inputs), measures)
    ensures r.Ok? ==> HasRepeats(r.value, NumBlocks(leaveout, |data|).value)
  {
    var t := |data|;
    var blocks := NumBlocks(leaveout, t);
    if blocks.Err? {
      return Err(BadBlocks(blocks.error));
    }
    var n := blocks.value;
    var l := Repetitions(BlockLength(leaveout, t));
    assert l == Repetitions(leaveout);
    ghost var inputs := JackknifeInputs(data, l, n);
    ghost var outputs := Outputs(model.estimate, connectivity, measures, nfft, inputs);
    var output: seq<Estimate<A>> := [];
    var b := 0;
    while b < n
      invariant 0 <= b <= n
      invariant model.fitted == old(model.fitted) + inputs[..b]
      invariant output == outputs[..b]
    {
      var mask := BlockMask(t, l, b);
      var used := SelectTrials(data, mask);
      var c := FitAndMeasure(model, connectivity, measures, nfft, used);
      assert inputs[..b + 1] == inputs[..b] + [used];
      assert outputs[..b + 1] == outputs[..b] + [c];
      output := output + [c];
      b := b + 1;
    }
    assert inputs[..b] == inputs && outputs[..b] == outputs;
    r := Finish(output, measures);
  }

  // ---------------------------------------------------------------------------------------------
  // bootstrap_connectivity
  // ---------------------------------------------------------------------------------------------

  /** num_samples, defaulting to the number of trials. */
  function SampleCount(numSamples: Option<int>, t: nat): (n: int)
    ensures numSamples.None? ==> n == t
    ensures numSamples.Some? ==> n == numSamples.value
  {
    if numSamples.None? then t else numSamples.value
  }

  /**
   * The bootstrap data sets: repetition r takes the trials at the num_samples indices drawn from
   * the generator's words draw(r, 0), draw(r, 1), ...
   */
  function BootstrapInputs(data: Data, samples: int, draw: (nat, nat) -> nat, n: nat): (inputs: seq<Data>)
    requires |data| > 0 && samples >= 0
    ensures |inputs| == n
    ensures forall r :: 0 <= r < n ==> |inputs[r]| == samples
  {
    seq(n, r requires 0 <= r < n => SelectTrials(data, BootstrapMask(|data|, samples, pos => draw(r, pos)).value))
  }

  /** Every trial of every bootstrap data set is a trial of the data. */
  lemma BootstrapInputsDrawFromData(data: Data, samples: int, draw: (nat, nat) -> nat, n: nat)
    requires |data| > 0 && samples >= 0
    ensures forall r, q :: 0 <= r < n && 0 <= q < samples ==> BootstrapInputs(data, samples, draw, n)[r][q] in data
  {
    var inputs := BootstrapInputs(data, samples, draw, n);
    forall r, q | 0 <= r < n && 0 <= q < samples
      ensures inputs[r][q] in data
    {
      var mask := BootstrapMask(|data|, samples, pos => draw(r, pos)).value;
      assert inputs[r] == SelectTrials(data, mask);
      assert inputs[r][q] == data[mask[q]];
    }
  }

  /**
   * bootstrap_connectivity: repeats refits, each on num_samples trials drawn with replacement,
   * and an ensemble of repeats results; a draw that random_integers refuses (no trials, or a
   * negative sample count) fails at the first repetition, before any fit.
   */
  method BootstrapConnectivity<A>(measures: Measures, data: Data, model: VarModel, nfft: int, repeats: int,
                                  numSamples: Option<int>, draw: (nat, nat) -> nat,
                                  connectivity: (Measures, Coefficients, Covariance, int) -> Estimate<A>)
    returns (r: Result<Ensemble<A>, DriverError>)
    modifies model
    ensures Repetitions(repeats) > 0 && !(|data| > 0 && SampleCount(numSamples, |data|) >= 0) ==>
      r.Err? && r.error.BadDraw? && model.fitted == old(model.fitted)
    ensures Repetitions(repeats) == 0 ==> model.fitted == old(model.fitted) && r == Finish([], measures)
    ensures Repetitions(repeats) > 0 && |data| > 0 && SampleCount(numSamples, |data|) >= 0 ==>
      var inputs := BootstrapInputs(data, SampleCount(numSamples, |data|), draw, Repetitions(repeats));
      && model.fitted == old(model.fitted) + inputs
      && r == Finish(Outputs(model.estimate, connectivity, measures, nfft, inputs), measures)
      && (r.Ok? ==> HasRepeats(r.value, Repetitions(repeats)))
  {
    var t := |data|;
    var samples := SampleCount(numSamples, t);
    ghost var inputs: seq<Data> := if t > 0 && samples >= 0 then BootstrapInputs(data, samples, draw, Repetitions(repeats)) else [];
    ghost var outputs := Outputs(model.estimate, connectivity, measures, nfft, inputs);
    var output: seq<Estimate<A>> := [];
    var rep := 0;
    while rep < repeats
      invariant 0 <= rep <= |inputs| <= Repetitions(repeats)
      invariant model.fitted == old(model.fitted) + inputs[..rep]
      invariant output == outputs[..rep]
    {
      var mask := BootstrapMask(t, samples, pos => draw(rep, pos));
      if mask.Err? {
        return Err(BadDraw(mask.error));
      }
      var used := SelectTrials(data, mask.value);
      BootstrapInputAt(data, samples, draw, Repetitions(repeats), rep);
      var c := FitAndMeasure(model, connectivity, measures, nfft, used);
      TakeOneMore(inputs, rep);
      TakeOneMore(outputs, rep);
      output := output + [c];
      rep := rep + 1;
    }
    assert inputs[..rep] == inputs && outputs[..rep] == outputs;
    r := Finish(output, measures);
  }

  /** Repetition r of the bootstrap fits the trials drawn from the generator's words for r. */
  lemma BootstrapInputAt(data: Data, samples: int, draw: (nat, nat) -> nat, n: nat, r: nat)
    requires |data| > 0 && samples >= 0 && r < n
    ensures BootstrapInputs(data, samples, draw, n)[r]
            == SelectTrials(data, BootstrapMask(|data|, samples, pos => draw(r, pos)).value)
  {
  }

  /** The first i + 1 elements are the first i followed by element i. */
  lemma TakeOneMore<T>(s: seq<T>, i: nat)
    requires i < |s|
    ensures s[..i + 1] == s[..i] + [s[i]]
  {
  }
}
