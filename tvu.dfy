/**
 * TvuCheck, the Total Vertical Uncertainty check, as it stands in this file:
 * a stub that looks up its two parameters, processes no tile, merges only
 * the start time and always reports failure.
 */
module Tvu {
  import opened Wrappers
  import opened GridCheck

  const Id := "b5c0469c-6559-4aea-bf9c-d0b337550e89"
  const Name := "Total Vertical Uncertainty Check"
  const Version := "1"

  const DepthErrorName := "Constant Depth Error"
  const DepthErrorFactorName := "Factor of Depth Dependent Errors"

  /** The parameters the check advertises, with their default values. */
  const DefaultParams := [Param(DepthErrorName, 1.0), Param(DepthErrorFactorName, 1.0)]

  /** The advertised defaults are found by name. */
  lemma DefaultErrors()
    ensures GetParam(DefaultParams, DepthErrorName) == Found(1.0)
    ensures GetParam(DefaultParams, DepthErrorFactorName) == Found(1.0)
  {
    assert DefaultParams[1].name != DefaultParams[0].name;
    GetParamFindsUnique(DefaultParams, 0);
    GetParamFindsUnique(DefaultParams, 1);
  }

  /** The report the stub gives for any execution record. */
  function TvuOutputs(e: Execution): (out: Outputs<()>)
    ensures out.checkState == Fail
    ensures out.messages == [TvuNotImplemented]
    ensures out.data == None && out.execution == e
  {
    Outputs(e, [TvuNotImplemented], None, Fail)
  }

  class TvuCheck {
    const inputParams: seq<Param>
    const depthError: Option<real>
    const depthErrorFactor: Option<real>
    var execution: Execution

    /** Looks up both parameters; a non-empty list lacking one of them raises. */
    constructor (params: seq<Param>)
      requires GetParam(params, DepthErrorName) != NoMatch
      requires GetParam(params, DepthErrorFactorName) != NoMatch
      ensures inputParams == params && execution == NotStarted
      ensures depthError == ParamValue(GetParam(params, DepthErrorName))
      ensures depthErrorFactor == ParamValue(GetParam(params, DepthErrorFactorName))
    {
      inputParams := params;
      depthError := ParamValue(GetParam(params, DepthErrorName));
      depthErrorFactor := ParamValue(GetParam(params, DepthErrorFactorName));
      execution := NotStarted;
    }

    method CheckStarted(now: Timestamp)
      modifies this`execution
      ensures execution == Started(old(execution), now)
    {
      execution := Started(execution, now);
    }

    method CheckEnded(now: Timestamp)
      modifies this`execution
      ensures execution == Ended(old(execution), now)
    {
      execution := Ended(execution, now);
    }

    /** `run` is not implemented yet: a tile changes nothing. */
    method Run(ifd: InputFileDetails, tile: Tile, depth: seq<seq<Option<real>>>,
               density: seq<seq<Option<int>>>, uncertainty: seq<seq<Option<real>>>)
      ensures unchanged(this)
    {
    }

    /** `merge_results` only takes the other check's start time. */
    method MergeResults(other: TvuCheck)
      modifies this`execution
      ensures execution == old(execution).(startTime := old(other.execution.startTime))
    {
      execution := execution.(startTime := other.execution.startTime);
    }

    /** `get_outputs`: always a failure saying the check is not implemented. */
    method GetOutputs() returns (out: Outputs<()>)
      ensures out == TvuOutputs(execution)
      ensures out.checkState == Fail && out.messages == [TvuNotImplemented] && out.data == None
    {
      out := Outputs(execution, [TvuNotImplemented], None, Fail);
    }
  }
}
