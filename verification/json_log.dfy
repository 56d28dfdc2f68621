/**
  The in-memory side of `JsonController` in `temp_sensor_json_controller.py`:
  the dictionary written for each sensor when the log is created, and the
  update applied to the loaded list after each reading. Reading and writing
  the file is left out; the list is a parameter and a result.
*/
module JsonLog {
  import opened Wrappers
  import opened W1Record
  import opened Classification
  import opened TempSensorModel

  /** `{"Timestamp": ..., "Temp (in Fahrenheit)": ...}`. */
  datatype JsonTemp = JsonTemp(timestamp: Option<Timestamp>, tempInFahrenheit: Option<int>)

  /** `"Allowed Temp Range"`, the text `"lo-hi"`, kept as its two numbers. */
  datatype AllowedRange = AllowedRange(lo: int, hi: int)

  /** `"Sensor Data"`. */
  datatype SensorData = SensorData(
    recorded: seq<JsonTemp>,
    targetTemp: int,
    allowedRange: AllowedRange,
    highest: Option<int>,
    lowest: Option<int>,
    pctAbove: Option<int>,
    pctWithin: Option<int>,
    pctBelow: Option<int>,
    pctError: Option<int>)

  /** One element of the logged list. */
  datatype SensorDict = SensorDict(name: string, position: int, id: string, data: SensorData)

  function ToJson(t: TempData): JsonTemp {
    JsonTemp(t.datetime, t.tempInFahrenheit)
  }

  /** A sensor's readings as they appear under `"Recorded Temp Data"`. */
  function Project(ts: seq<TempData>): (r: seq<JsonTemp>)
    ensures |r| == |ts|
  {
    seq(|ts|, i requires 0 <= i < |ts| => ToJson(ts[i]))
  }

  lemma ProjectAppend(ts: seq<TempData>, t: TempData)
    ensures Project(ts + [t]) == Project(ts) + [ToJson(t)]
  {
  }

  /** The logged range: `target - negative allowance` to `target + positive allowance`. */
  function RangeOf(c: TargetRange): AllowedRange {
    AllowedRange(LowerBound(c), UpperBound(c))
  }

  /** The logged range is exactly the band a nonzero reading must fall in to count as within range. */
  lemma AllowedRangeIsWithinBand(c: TargetRange, t: int)
    requires t != 0
    ensures Classify(t, c) == Within <==> RangeOf(c).lo <= t <= RangeOf(c).hi
  {
  }

  /** The log entry agrees with the sensor on everything it records. */
  predicate Mirrors(d: SensorDict, s: Sensor) {
    && d.name == s.name && d.position == s.position && d.id == s.id
    && d.data.recorded == Project(s.recorded)
    && d.data.targetTemp == s.range.target && d.data.allowedRange == RangeOf(s.range)
    && d.data.highest == s.highest && d.data.lowest == s.lowest
    && d.data.pctAbove == s.pctAbove && d.data.pctWithin == s.pctWithin
    && d.data.pctBelow == s.pctBelow && d.data.pctError == s.pctError
  }

  /** `__set_initial_serializable_sensor_dict`: the sensor's identity, target and range, and an empty reading list. */
  function InitialSensorDict(s: Sensor): (d: SensorDict)
    ensures d.data.recorded == []
    ensures |s.recorded| == 0 ==> Mirrors(d, s)
  {
    SensorDict(s.name, s.position, s.id,
      SensorData([], s.range.target, RangeOf(s.range), s.highest, s.lowest,
        s.pctAbove, s.pctWithin, s.pctBelow, s.pctError))
  }

  /** `__create_file`, without the write: one dictionary per sensor, in sensor order. */
  method CreateFile(sensors: seq<Sensor>) returns (data: seq<SensorDict>)
    ensures |data| == |sensors|
    ensures forall i :: 0 <= i < |data| ==> data[i] == InitialSensorDict(sensors[i])
  {
    data := [];
    for i := 0 to |sensors|
      invariant |data| == i
      invariant forall j :: 0 <= j < i ==> data[j] == InitialSensorDict(sensors[j])
    {
      data := data + [InitialSensorDict(sensors[i])];
    }
  }

  /** A freshly created log mirrors freshly created sensors, position by position. */
  lemma NewLogMirrorsSensors(sensors: seq<Sensor>, data: seq<SensorDict>)
    requires |data| == |sensors|
    requires forall i :: 0 <= i < |data| ==> data[i] == InitialSensorDict(sensors[i])
    requires forall i :: 0 <= i < |sensors| ==> |sensors[i].recorded| == 0
    ensures forall i :: 0 <= i < |data| ==> Mirrors(data[i], sensors[i]) && data[i].data.recorded == []
  {
  }

  /** The body of the `if` in `update_sensor_data`: append the latest reading, overwrite the statistics. */
  function UpdateDict(d: SensorDict, s: Sensor): (r: SensorDict)
    ensures r.name == d.name && r.position == d.position && r.id == d.id
    ensures r.data.targetTemp == d.data.targetTemp && r.data.allowedRange == d.data.allowedRange
  {
    d.(data := d.data.(
      recorded := d.data.recorded + [ToJson(GetLatestRecordedTempData(s))],
      highest := s.highest, lowest := s.lowest,
      pctAbove := s.pctAbove, pctWithin := s.pctWithin,
      pctBelow := s.pctBelow, pctError := s.pctError))
  }

  /**
    `update_sensor_data`, without the read and write: every dictionary named
    like the sensor gets its latest reading and current statistics; the others,
    and the length and order of the list, stay as they are.
  */
  method UpdateSensorData(data: seq<SensorDict>, s: Sensor) returns (updated: seq<SensorDict>)
    ensures |updated| == |data|
    ensures forall i :: 0 <= i < |data| && data[i].name != s.name ==> updated[i] == data[i]
    ensures forall i :: 0 <= i < |data| && data[i].name == s.name ==> updated[i] == UpdateDict(data[i], s)
  {
    updated := data;
    for i := 0 to |data|
      invariant |updated| == |data|
      invariant forall j :: 0 <= j < i && data[j].name != s.name ==> updated[j] == data[j]
      invariant forall j :: 0 <= j < i && data[j].name == s.name ==> updated[j] == UpdateDict(data[j], s)
      invariant forall j :: i <= j < |data| ==> updated[j] == data[j]
    {
      if data[i].name == s.name {
        updated := updated[i := UpdateDict(data[i], s)];
      }
    }
  }

  /** Logging after every successful poll keeps the log entry a faithful copy of the sensor. */
  lemma UpdateAfterPollMirrors(d: SensorDict, s: Sensor, timestamp: Timestamp, dev: Device)
    requires Mirrors(d, s)
    requires GetTempAt(s, timestamp, dev).Success?
    ensures Mirrors(UpdateDict(d, GetTempAt(s, timestamp, dev).value), GetTempAt(s, timestamp, dev).value)
  {
    var s' := GetTempAt(s, timestamp, dev).value;
    var last := s'.recorded[|s.recorded|];
    assert s'.recorded == s.recorded + [last];
    ProjectAppend(s.recorded, last);
  }
}
