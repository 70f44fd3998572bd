/**
 * The output aggregation of the estimators (convert_output_): the per-repetition results of the
 * connectivity computation become one ensemble, stacked along a new leading axis.
 *
 * Which shape is produced depends on how the measures were requested: one name gives one stacked
 * array, a list of names gives a dictionary with one stacked array per name.  That choice is
 * modelled by the tagged variant Measures.
 */
module Aggregate {
  import opened Wrappers

  /** measure_names: one name (a str) or a list of names. */
  datatype Measures = Single(name: string) | Several(names: seq<string>)

  /** What one connectivity(...) call returns: one array, or a dictionary of arrays by name. */
  datatype Estimate<A> = Array(value: A) | Named(byName: map<string, A>)

  /**
   * The ensemble: the results stacked along a new leading axis (np.array of the list), or a
   * dictionary from name to the stacked arrays of that measure.
   */
  datatype Ensemble<A> = Stacked(items: seq<Estimate<A>>) | ByName(table: map<string, seq<A>>)

  /** output[r][m] fails (a missing key, or a string index into an array): result r holds no measure m. */
  datatype ConvertError = MissingMeasure(name: string)

  /** The first requested name that some result lacks. */
  function FirstMissing<A>(output: seq<Estimate<A>>, names: seq<string>): (r: Option<string>)
    ensures r.None? <==> forall m, q :: m in names && 0 <= q < |output| ==> output[q].Named? && m in output[q].byName
    ensures r.Some? ==> r.value in names && exists q :: 0 <= q < |output| && !(output[q].Named? && r.value in output[q].byName)
  {
    if names == [] then None
    else if forall q :: 0 <= q < |output| ==> output[q].Named? && names[0] in output[q].byName then
      assert forall m :: m in names ==> m == names[0] || m in names[1..];
      assert forall m :: m in names[1..] ==> m in names;
      FirstMissing(output, names[1..])
    else
      assert names[0] in names;
      Some(names[0])
  }

  /**
   * convert_output_(output, measures): one name stacks the arrays in repetition order; several
   * names give, for each name m, the arrays output[r][m] in repetition order.
   */
  function ConvertOutput<A>(output: seq<Estimate<A>>, measures: Measures): (r: Result<Ensemble<A>, ConvertError>)
    ensures measures.Single? ==> r == Ok(Stacked(output))
    ensures measures.Several? ==>
      (r.Ok? <==> forall m, q :: m in measures.names && 0 <= q < |output| ==> output[q].Named? && m in output[q].byName)
    ensures measures.Several? && r.Err? ==>
      r.error.name in measures.names && exists q :: 0 <= q < |output| && !(output[q].Named? && r.error.name in output[q].byName)
    ensures measures.Several? && r.Ok? ==>
      && r.value.ByName?
      && r.value.table.Keys == set m | m in measures.names
      && forall m :: m in measures.names ==>
           && m in r.value.table
           && |r.value.table[m]| == |output|
           && forall q :: 0 <= q < |output| ==> r.value.table[m][q] == output[q].byName[m]
  {
    match measures
    case Single(_) => Ok(Stacked(output))
    case Several(names) =>
      match FirstMissing(output, names)
      case Some(m) => Err(MissingMeasure(m))
      case None =>
        Ok(ByName(map m | m in names :: seq(|output|, q requires 0 <= q < |output| => output[q].byName[m])))
  }

  /** Every array of the ensemble has n repetitions along its leading axis. */
  predicate HasRepeats<A>(e: Ensemble<A>, n: nat)
  {
    match e
    case Stacked(items) => |items| == n
    case ByName(table) => forall m :: m in table ==> |table[m]| == n
  }

  /** The result of repetition q read back out of the ensemble: entry q of every stacked array. */
  function Unstack<A>(e: Ensemble<A>, n: nat, q: nat): Estimate<A>
    requires HasRepeats(e, n) && q < n
  {
    match e
    case Stacked(items) => items[q]
    case ByName(table) => Named(map m | m in table :: table[m][q])
  }

  /**
   * Aggregation loses nothing that was asked for: the ensemble has one entry per repetition,
   * and reading repetition q back gives output[q] (restricted to the requested names).
   */
  lemma ConvertOutputRoundTrip<A>(output: seq<Estimate<A>>, measures: Measures, q: nat)
    requires ConvertOutput(output, measures).Ok? && q < |output|
    ensures HasRepeats(ConvertOutput(output, measures).value, |output|)
    ensures measures.Single? ==> Unstack(ConvertOutput(output, measures).value, |output|, q) == output[q]
    ensures measures.Several? ==>
      Unstack(ConvertOutput(output, measures).value, |output|, q)
      == Named(map m | m in measures.names :: output[q].byName[m])
  {
  }
}
