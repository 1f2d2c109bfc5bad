/**
 * What every grid check shares: the execution record a check keeps while it
 * is started once per tile and ended after the last tile, the lookup of its
 * named input parameters, and the shape of the outputs it reports.
 */
module GridCheck {
  import opened Wrappers

  /** A `%Y-%m-%dT%H:%M:%S.%f` timestamp; the clock is read by the caller and passed in. */
  type Timestamp = string

  /** `execution_status`: 'draft', 'running' or 'completed'. */
  datatype Status = Draft | Running | Completed

  /** The fields the base class keeps about one execution of a check. */
  datatype Execution = Execution(
    startTime: Option<Timestamp>,
    endTime: Option<Timestamp>,
    status: Status,
    errorMessage: Option<string>)

  /** The state a freshly constructed check starts in. */
  const NotStarted := Execution(None, None, Draft, None)

  /** `GridCheckState`: the verdict of a check. */
  datatype CheckState = Pass | Warning | Fail

  /** The messages the checks in this file report. */
  datatype Message =
    | NoCountsExtracted
    | MinimumSoundingCount(lowest: int, occurrences: int)
    | PercentageUnderThreshold(percentage: real, atCount: real, required: real)
    | TvuNotImplemented

  /** Pixel bounds of one tile of the input grid. */
  datatype Tile = Tile(minX: int, minY: int, maxX: int, maxY: int)

  /** What is known about the raster the tiles come from. */
  datatype InputFileDetails = InputFileDetails(geotransform: seq<real>, projection: string)

  /**
   * One entry appended to the footprint MultiPolygon's coordinates, as the
   * polygonising step produces it: rings of (longitude, latitude) positions.
   */
  datatype Polygon = Polygon(rings: seq<seq<(real, real)>>)

  /** The report of a check: execution record, messages, check-specific data and verdict. */
  datatype Outputs<D> = Outputs(execution: Execution, messages: seq<Message>, data: Option<D>, checkState: CheckState)

  /** A named input parameter with its numeric value. */
  datatype Param = Param(name: string, value: real)

  /**
   * Outcome of looking a parameter up: no parameters at all (None is
   * returned), the first match's value, or a non-empty list without a match
   * (the generator is exhausted and the lookup raises).
   */
  datatype ParamLookup = NoParams | Found(value: real) | NoMatch

  /**
   * `check_started`: the start time is only set the first time, as the
   * check is started again for every tile; the status becomes running.
   */
  function Started(e: Execution, now: Timestamp): (r: Execution)
    ensures r.status == Running
    ensures r.startTime.Some?
    ensures e.startTime.Some? ==> r.startTime == e.startTime
    ensures e.startTime.None? ==> r.startTime == Some(now)
    ensures r.endTime == e.endTime && r.errorMessage == e.errorMessage
  {
    if e.startTime.None? then e.(startTime := Some(now), status := Running)
    else e.(status := Running)
  }

  /**
   * `check_ended`: the end time is always refreshed, a running check
   * completes and any other status is kept.
   */
  function Ended(e: Execution, now: Timestamp): (r: Execution)
    ensures r.endTime == Some(now)
    ensures e.status == Running ==> r.status == Completed
    ensures e.status != Running ==> r.status == e.status
    ensures r.startTime == e.startTime && r.errorMessage == e.errorMessage
  {
    e.(endTime := Some(now), status := if e.status == Running then Completed else e.status)
  }

  /** Starting again, at any later time, changes nothing. */
  lemma StartedIdempotent(e: Execution, t1: Timestamp, t2: Timestamp)
    ensures Started(Started(e, t1), t2) == Started(e, t1)
  {
  }

  /**
   * The check is started once per tile, in order: after at least one tile it
   * is running; it keeps an existing start time, otherwise takes the first
   * tile's; the end time and error are untouched.
   */
  function StartedOnTiles(e: Execution, times: seq<Timestamp>): (r: Execution)
    ensures times != [] ==> r.status == Running
    ensures times == [] ==> r == e
    ensures e.startTime.Some? ==> r.startTime == e.startTime
    ensures e.startTime.None? && times != [] ==> r.startTime == Some(times[0])
    ensures r.endTime == e.endTime && r.errorMessage == e.errorMessage
    decreases times
  {
    if times == [] then e else StartedOnTiles(Started(e, times[0]), times[1..])
  }

  /**
   * Over a whole run (started on each of at least one tile, then ended) a
   * fresh check records the first tile's start time, the end time, and
   * completes without an error.
   */
  lemma {:induction false} RunLifecycle(times: seq<Timestamp>, finish: Timestamp)
    requires times != []
    ensures Ended(StartedOnTiles(NotStarted, times), finish)
         == Execution(Some(times[0]), Some(finish), Completed, None)
  {
    StartedOnTilesKeeps(Started(NotStarted, times[0]), times[1..]);
  }

  /** Once started, further starts keep the start time and the running status. */
  lemma {:induction false} StartedOnTilesKeeps(e: Execution, times: seq<Timestamp>)
    requires e.startTime.Some? && e.status == Running
    ensures StartedOnTiles(e, times) == e
    decreases times
  {
    if times != [] {
      StartedOnTilesKeeps(Started(e, times[0]), times[1..]);
    }
  }

  /** Ending a check that was never started leaves it a draft, with only its end time set. */
  lemma EndedWithoutStart(now: Timestamp)
    ensures Ended(NotStarted, now) == Execution(None, Some(now), Draft, None)
  {
  }

  /** Starting a completed check again sets it running, keeping its first start time. */
  lemma RestartAfterEnd(e: Execution, t1: Timestamp, t2: Timestamp, t3: Timestamp)
    ensures Started(Ended(Started(e, t1), t2), t3).status == Running
    ensures Started(Ended(Started(e, t1), t2), t3).startTime == Started(e, t1).startTime
  {
  }

  /** Index of the first parameter named `name`, if any. */
  function FirstMatch(params: seq<Param>, name: string): (r: Option<nat>)
    ensures r.Some? ==> r.value < |params| && params[r.value].name == name
    ensures r.Some? ==> forall j :: 0 <= j < r.value ==> params[j].name != name
    ensures r.None? ==> forall j :: 0 <= j < |params| ==> params[j].name != name
  {
    if params == [] then None
    else if params[0].name == name then Some(0)
    else match FirstMatch(params[1..], name)
      case None => None
      case Some(i) => Some(i + 1)
  }

  /**
   * `get_param`: None for an empty list; otherwise the value of the first
   * parameter with the name, or a failure when no parameter has it.
   */
  function GetParam(params: seq<Param>, name: string): (r: ParamLookup)
    ensures r == NoParams <==> params == []
    ensures r == NoMatch <==> params != [] && forall j :: 0 <= j < |params| ==> params[j].name != name
    ensures r.Found? ==> exists i :: 0 <= i < |params| && params[i] == Param(name, r.value)
                                  && forall j :: 0 <= j < i ==> params[j].name != name
  {
    if params == [] then NoParams
    else match FirstMatch(params, name)
      case None => NoMatch
      case Some(i) =>
        assert params[i] == Param(name, params[i].value);
        Found(params[i].value)
  }

  /** The attribute a constructor stores: the value found, or None. */
  function ParamValue(r: ParamLookup): (v: Option<real>)
    requires r != NoMatch
    ensures v.Some? <==> r.Found?
    ensures v.Some? ==> v.value == r.value
  {
    if r.Found? then Some(r.value) else None
  }

  /** Parameters with distinct names: the lookup finds the one with that name. */
  lemma GetParamFindsUnique(params: seq<Param>, i: int)
    requires 0 <= i < |params|
    requires forall j, k :: 0 <= j < k < |params| ==> params[j].name != params[k].name
    ensures GetParam(params, params[i].name) == Found(params[i].value)
  {
    var p := params[i];
    var r := GetParam(params, p.name);
    assert !r.NoMatch?;
    var m :| 0 <= m < |params| && params[m] == Param(p.name, r.value)
           && forall j :: 0 <= j < m ==> params[j].name != p.name;
  }
}
