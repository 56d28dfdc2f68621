/**
  `TempSensor` of `models/temp_sensor.py`: one probe's read -> retry ->
  decode -> classify -> accumulate state machine. A sensor is an immutable
  record; each poll (`get_temp_at`) is a function from the old record, the
  poll's timestamp and the probe file's read outcomes to the new record, or to
  the Python exception that escapes.
*/
module TempSensorModel {
  import opened Wrappers
  import opened Rounding
  import opened W1Record
  import opened Classification
  import opened Extrema
  import opened Led

  /** The class constants whose names end up in `ERROR`. */
  datatype ErrorKind = FileNotFound | NoSuccessfulTemp | FileEmpty

  function ErrorName(k: ErrorKind): string {
    match k
    case FileNotFound => "FILE NOT FOUND"
    case NoSuccessfulTemp => "NO SUCCESSFUL TEMP READING"
    case FileEmpty => "FILE EMPTY"
  }

  /** `__set_error`: the message stored in `ERROR`. */
  function SetError(k: ErrorKind): string {
    "File error: " + ErrorName(k) + ".\nPlease check connections for this sensor."
  }

  /** Different error kinds give different messages, so `ERROR` is kept as the kind. */
  lemma SetErrorInjective(a: ErrorKind, b: ErrorKind)
    ensures SetError(a) == SetError(b) ==> a == b
  {
    if a != b {
      assert SetError(a)[12] != SetError(b)[12] || SetError(a)[17] != SetError(b)[17];
    }
  }

  /** `max_tries`: re-reads allowed after a first read whose CRC flag is not `YES`. */
  const MaxTries: nat := 5

  /** 110.00 F: converted readings at or above it are treated as probe faults. */
  const ErrorCeiling: int := 11000

  datatype Sensor = Sensor(
    name: string,
    position: int,
    id: string,
    error: Option<ErrorKind>,
    range: TargetRange,
    highest: Option<int>,
    lowest: Option<int>,
    above: seq<int>,
    within: seq<int>,
    below: seq<int>,
    inError: seq<int>,
    pctAbove: Option<int>,
    pctWithin: Option<int>,
    pctBelow: Option<int>,
    pctError: Option<int>,
    recorded: seq<TempData>,
    led: Option<Rgb>)

  /** `__init__`: nothing recorded, no error, and a green LED when pins are given. */
  function NewSensor(name: string, position: int, id: string, range: TargetRange, hasLed: bool): (s: Sensor)
    ensures Valid(s) && |s.recorded| == 0 && s.error.None?
    ensures s.name == name && s.position == position && s.id == id && s.range == range
    ensures s.led.Some? <==> hasLed
  {
    Sensor(name, position, id, None, range, None, None, [], [], [], [], None, None, None, None, [],
      if hasLed then Some(SetupPins()) else None)
  }

  // ---------------------------------------------------------------- reading

  /** `__read_file`: a successful open clears the error; an IOError sets FILE NOT FOUND and yields no lines. */
  function ReadFile(o: ReadOutcome): (seq<string>, Option<ErrorKind>) {
    match o
    case Missing => ([], Some(FileNotFound))
    case Lines(ls) => (ls, None)
  }

  /** What `__get_raw_temp_data` returns (line 2, the empty list, or an exception), the `ERROR` it leaves, and how many reads it made. */
  datatype RawRead = RawRead(line: Result<Option<string>, Fault>, error: Option<ErrorKind>, readCount: nat)

  /** The raw result of a read that ends the retry loop. */
  function Settle(o: ReadOutcome): (Result<Option<string>, Fault>, Option<ErrorKind>)
    requires !CrcFailed(o)
  {
    match o
    case Missing => (Success(None), Some(FileNotFound))
    case Lines(ls) =>
      if |ls| == 0 then (Success(None), Some(FileEmpty))
      else if |ls| >= 2 then (Success(Some(ls[1])), None)
      else (Failure(IndexError), None)
  }

  /**
    The bounded retry, read by read: starting at read `from`, every read but the
    last reported a failed CRC; the last one either settles the outcome, or it
    is the sixth read and it failed too.
  */
  ghost predicate RetrySpec(dev: Device, from: nat, r: RawRead) {
    && from < r.readCount <= MaxTries + 1
    && (forall k :: from <= k < r.readCount - 1 ==> CrcFailed(dev(k)))
    && if CrcFailed(dev(r.readCount - 1)) then
         r.readCount == MaxTries + 1 && r.line == Success(None) && r.error == Some(NoSuccessfulTemp)
       else
         (r.line, r.error) == Settle(dev(r.readCount - 1))
  }

  /** `return lines[1]` once line 1 reports `YES`. */
  function SecondLine(lines: seq<string>, err: Option<ErrorKind>, readCount: nat): RawRead {
    if |lines| >= 2 then RawRead(Success(Some(lines[1])), err, readCount) else RawRead(Failure(IndexError), err, readCount)
  }

  /** The `while tries <= max_tries` loop; `tries` is also the index of the read it makes. */
  function Retry(err: Option<ErrorKind>, dev: Device, tries: nat): RawRead
    requires 1 <= tries <= MaxTries + 1
    decreases MaxTries + 1 - tries
  {
    if tries <= MaxTries then
      var (lines, err') := ReadFile(dev(tries));
      if |lines| > 0 then
        if !ReportsYes(lines[0]) then Retry(err', dev, tries + 1)
        else SecondLine(lines, err', tries + 1)
      else RawRead(Success(None), if err'.None? then Some(FileEmpty) else err', tries + 1)
    else
      RawRead(Success(None), if err.None? then Some(NoSuccessfulTemp) else err, tries)
  }

  /** One read of the retry loop, unfolded: the read settles the outcome, or the loop goes on. */
  lemma RetryStep(dev: Device, tries: nat)
    requires 1 <= tries <= MaxTries
    ensures !CrcFailed(dev(tries)) ==>
      var r := Retry(None, dev, tries);
      r.readCount == tries + 1 && (r.line, r.error) == Settle(dev(tries))
    ensures CrcFailed(dev(tries)) ==> Retry(None, dev, tries) == Retry(None, dev, tries + 1)
  {
    var o := dev(tries);
    if o.Lines? && |o.lines| == 0 {
      assert o == Lines([]);
    }
  }

  /** The loop meets the read-by-read retry specification. */
  lemma {:induction false} RetryMeetsSpec(dev: Device, tries: nat)
    requires 1 <= tries <= MaxTries + 1
    requires CrcFailed(dev(tries - 1))
    ensures RetrySpec(dev, tries - 1, Retry(None, dev, tries))
    decreases MaxTries + 1 - tries
  {
    if tries == MaxTries + 1 {
      RetryGivesUp(dev);
    } else if CrcFailed(dev(tries)) {
      RetryStep(dev, tries);
      RetryMeetsSpec(dev, tries + 1);
      RetrySpecExtend(dev, tries - 1, Retry(None, dev, tries + 1));
    } else {
      RetrySettles(dev, tries);
    }
  }

  /** After the fifth failed re-read the loop gives up. */
  lemma RetryGivesUp(dev: Device)
    requires CrcFailed(dev(MaxTries))
    ensures RetrySpec(dev, MaxTries, Retry(None, dev, MaxTries + 1))
  {
    assert Retry(None, dev, MaxTries + 1) == RawRead(Success(None), Some(NoSuccessfulTemp), MaxTries + 1);
  }

  /** A re-read that is not a failed CRC ends the loop with its own outcome. */
  lemma RetrySettles(dev: Device, tries: nat)
    requires 1 <= tries <= MaxTries
    requires CrcFailed(dev(tries - 1)) && !CrcFailed(dev(tries))
    ensures RetrySpec(dev, tries - 1, Retry(None, dev, tries))
  {
    RetryStep(dev, tries);
  }

  /** A failed CRC read in front of a run that meets the specification. */
  lemma RetrySpecExtend(dev: Device, from: nat, r: RawRead)
    requires RetrySpec(dev, from + 1, r) && CrcFailed(dev(from))
    ensures RetrySpec(dev, from, r)
  {
  }

  /** `__get_raw_temp_data`: a first read, then at most `MaxTries` re-reads while the CRC flag is not `YES`. */
  function GetRawTempData(dev: Device): (r: RawRead)
    ensures RetrySpec(dev, 0, r)
  {
    var (lines, err) := ReadFile(dev(0));
    var r := if |lines| > 0 then
      if !ReportsYes(lines[0]) then Retry(err, dev, 1)
      else SecondLine(lines, err, 1)
    else RawRead(Success(None), if err.None? then Some(FileEmpty) else err, 1);
    assert RetrySpec(dev, 0, r) by {
      var o := dev(0);
      if CrcFailed(o) {
        RetryMeetsSpec(dev, 1);
      } else if o.Lines? && |o.lines| == 0 {
        assert o == Lines([]);
      }
    }
    r
  }

  /** A probe that never reports `YES` is read exactly six times and then given up on. */
  lemma StuckProbeGivesUp(dev: Device)
    requires forall k :: CrcFailed(dev(k))
    ensures GetRawTempData(dev).readCount == MaxTries + 1
    ensures GetRawTempData(dev).line == Success(None)
    ensures GetRawTempData(dev).error == Some(NoSuccessfulTemp)
  {
  }

  /**
    Error precedence of the raw reader: FILE NOT FOUND exactly when the last
    read found no file, FILE EMPTY exactly when it found an empty file (never
    on top of a missing one), NO SUCCESSFUL TEMP exactly when the retries ran out.
  */
  lemma RawReadErrorPrecedence(dev: Device)
    ensures var r := GetRawTempData(dev);
      && (r.error == Some(FileNotFound) <==> dev(r.readCount - 1).Missing?)
      && (r.error == Some(FileEmpty) <==> dev(r.readCount - 1) == Lines([]))
      && (r.error == Some(NoSuccessfulTemp) <==> CrcFailed(dev(r.readCount - 1)))
      && (r.error.None? <==> dev(r.readCount - 1).Lines? && |dev(r.readCount - 1).lines| > 0 && ReportsYes(dev(r.readCount - 1).lines[0]))
  {
    var r := GetRawTempData(dev);
    var o := dev(r.readCount - 1);
    if o.Lines? && |o.lines| == 0 {
      assert o == Lines([]);
    }
  }

  // --------------------------------------------------------------- accumulation

  /** `__update_highest_and_lowest_temps`. */
  function UpdateHighestAndLowestTemps(s: Sensor, latest: int): Sensor {
    var (h, l) := UpdateHighestAndLowest(s.highest, s.lowest, latest);
    s.(highest := h, lowest := l)
  }

  /** `__try_update_led`: only a sensor with an LED changes its output. */
  function TryUpdateLed(s: Sensor, color: string): Sensor {
    if s.led.Some? then s.(led := Some(UpdateColor(color))) else s
  }

  /** `__update_percentage_spent_lists`: classify, grow one class list, signal the LED, recompute the four percentages. */
  function UpdatePercentageSpentLists(s: Sensor, latest: int): Sensor
    requires |s.recorded| > 0
  {
    var total := |s.recorded|;
    var status := Classify(latest, s.range);
    var s1 := match status
      case Error => s.(inError := s.inError + [latest])
      case Below => s.(below := s.below + [latest])
      case Above => s.(above := s.above + [latest])
      case Within => s.(within := s.within + [latest]);
    var s2 := TryUpdateLed(s1, StatusName(status));
    s2.(
      pctBelow := Some(PercentHundredths(|s2.below|, total)),
      pctAbove := Some(PercentHundredths(|s2.above|, total)),
      pctWithin := Some(PercentHundredths(|s2.within|, total)),
      pctError := Some(PercentHundredths(|s2.inError|, total)))
  }

  /** `__update_recorded_temp_data`: append, classify, and update the extrema for non-sentinel values. */
  function UpdateRecordedTempData(s: Sensor, timestamp: Timestamp, t: int): (r: Sensor)
    ensures r.recorded == s.recorded + [TempData(Some(timestamp), Some(t))]
    ensures r.name == s.name && r.position == s.position && r.id == s.id
    ensures r.range == s.range && r.error == s.error && r.led.Some? == s.led.Some?
  {
    var s1 := s.(recorded := s.recorded + [TempData(Some(timestamp), Some(t))]);
    var s2 := UpdatePercentageSpentLists(s1, t);
    if t != 0 then UpdateHighestAndLowestTemps(s2, t) else s2
  }

  /** The converted reading `get_temp_at` keeps: line 2 decoded, below 110 F and not 0.0. */
  function AcceptedReading(line: Result<Option<string>, Fault>): Option<int> {
    if line.Success? && DecodeRaw(line.value).Reading?
       && DecodeRaw(line.value).centiF < ErrorCeiling && DecodeRaw(line.value).centiF != 0
    then Some(DecodeRaw(line.value).centiF)
    else None
  }

  /** The temperature a poll records: the accepted reading, or the 0.0 sentinel. */
  function PolledValue(dev: Device): int {
    match AcceptedReading(GetRawTempData(dev).line)
    case Some(f) => f
    case None => 0
  }

  /**
    `get_temp_at`: exactly one reading with the poll's timestamp is appended;
    its value is the converted temperature when line 2 carries a `t=` payload
    below 110 F other than 0.0, and the 0.0 sentinel otherwise. The poll fails
    only with the exception the source lets escape.
  */
  function GetTempAt(s: Sensor, timestamp: Timestamp, dev: Device): (r: Result<Sensor, Fault>)
    ensures var line := GetRawTempData(dev).line;
      r.Failure? <==> line.Failure? || DecodeRaw(line.value).Unparsable?
    ensures r.Success? ==>
      && |r.value.recorded| == |s.recorded| + 1
      && r.value.recorded[..|s.recorded|] == s.recorded
      && r.value.recorded[|s.recorded|].datetime == Some(timestamp)
      && r.value.recorded[|s.recorded|].tempInFahrenheit
         == Some(PolledValue(dev))
    ensures r.Success? ==>
      && r.value.name == s.name && r.value.position == s.position
      && r.value.id == s.id && r.value.range == s.range
  {
    var raw := GetRawTempData(dev);
    match raw.line
    case Failure(f) => Failure(f)
    case Success(line) =>
      var s1 := s.(error := raw.error);
      match DecodeRaw(line)
      case Unparsable => Failure(ValueError)
      case Unmarked => Success(UpdateRecordedTempData(s1, timestamp, 0))
      case Reading(f) =>
        if f < ErrorCeiling && f != 0 then Success(UpdateRecordedTempData(s1, timestamp, f))
        else Success(UpdateRecordedTempData(s1.(error := Some(NoSuccessfulTemp)), timestamp, 0))
  }

  /** `get_latest_recorded_temp_data`: the last reading, or a `TempData` with both fields `None`. */
  function GetLatestRecordedTempData(s: Sensor): TempData {
    if |s.recorded| > 0 then s.recorded[|s.recorded| - 1] else EmptyTempData
  }

  /** After a poll the latest reading is the one just taken: the poll's timestamp and the value it recorded. */
  lemma LatestIsLastPoll(s: Sensor, timestamp: Timestamp, dev: Device)
    requires GetTempAt(s, timestamp, dev).Success?
    ensures GetLatestRecordedTempData(GetTempAt(s, timestamp, dev).value) == TempData(Some(timestamp), Some(PolledValue(dev)))
  {
  }

  /** With nothing recorded the latest reading is empty. */
  lemma LatestOfFreshSensor(s: Sensor)
    requires |s.recorded| == 0
    ensures GetLatestRecordedTempData(s) == EmptyTempData
  {
  }

  // ---------------------------------------------------------------- invariant

  ghost predicate Complete(rs: seq<TempData>) {
    forall i :: 0 <= i < |rs| ==> rs[i].datetime.Some? && rs[i].tempInFahrenheit.Some?
  }

  /** The recorded temperatures, oldest first. */
  function Temps(rs: seq<TempData>): (ts: seq<int>)
    requires forall i :: 0 <= i < |rs| ==> rs[i].tempInFahrenheit.Some?
    ensures |ts| == |rs|
  {
    seq(|rs|, i requires 0 <= i < |rs| => rs[i].tempInFahrenheit.value)
  }

  ghost predicate PercentagesCurrent(s: Sensor) {
    var total := |s.recorded|;
    if total == 0 then
      s.pctBelow.None? && s.pctAbove.None? && s.pctWithin.None? && s.pctError.None?
    else
      && s.pctBelow == Some(PercentHundredths(|s.below|, total))
      && s.pctAbove == Some(PercentHundredths(|s.above|, total))
      && s.pctWithin == Some(PercentHundredths(|s.within|, total))
      && s.pctError == Some(PercentHundredths(|s.inError|, total))
  }

  /**
    What the sensor's fields mean: each class list holds exactly the recorded
    values of its class in recording order, the percentages are those of the
    current counts, the running extrema are those of the non-sentinel
    readings, and the LED shows the latest classification.
  */
  ghost predicate Valid(s: Sensor) {
    && Complete(s.recorded)
    && var ts := Temps(s.recorded);
    && s.inError == Sel(ts, Error, s.range)
    && s.below == Sel(ts, Below, s.range)
    && s.above == Sel(ts, Above, s.range)
    && s.within == Sel(ts, Within, s.range)
    && PercentagesCurrent(s)
    && IsHighest(ts, s.highest)
    && IsLowest(ts, s.lowest)
    && (s.led.Some? ==>
          s.led.value == if |ts| == 0 then SetupPins() else UpdateColor(StatusName(Classify(ts[|ts| - 1], s.range))))
  }

  /** Field by field, what appending one reading does to a sensor. */
  lemma UpdateRecordedFields(s: Sensor, timestamp: Timestamp, t: int)
    ensures var r := UpdateRecordedTempData(s, timestamp, t);
      var st := Classify(t, s.range);
      && r.inError == s.inError + (if st == Error then [t] else [])
      && r.below == s.below + (if st == Below then [t] else [])
      && r.above == s.above + (if st == Above then [t] else [])
      && r.within == s.within + (if st == Within then [t] else [])
      && r.pctBelow == Some(PercentHundredths(|r.below|, |r.recorded|))
      && r.pctAbove == Some(PercentHundredths(|r.above|, |r.recorded|))
      && r.pctWithin == Some(PercentHundredths(|r.within|, |r.recorded|))
      && r.pctError == Some(PercentHundredths(|r.inError|, |r.recorded|))
      && (r.highest, r.lowest) == (if t != 0 then UpdateHighestAndLowest(s.highest, s.lowest, t) else (s.highest, s.lowest))
      && r.led == (if s.led.Some? then Some(UpdateColor(StatusName(st))) else None)
  {
    var s1 := s.(recorded := s.recorded + [TempData(Some(timestamp), Some(t))]);
    PercentageSpentFields(s1, t);
  }

  /** What classifying one reading does: one class list and the LED change, and the percentages are recomputed. */
  lemma PercentageSpentFields(s: Sensor, latest: int)
    requires |s.recorded| > 0
    ensures var r := UpdatePercentageSpentLists(s, latest);
      var st := Classify(latest, s.range);
      && r.recorded == s.recorded && r.range == s.range
      && r.highest == s.highest && r.lowest == s.lowest
      && r.inError == s.inError + (if st == Error then [latest] else [])
      && r.below == s.below + (if st == Below then [latest] else [])
      && r.above == s.above + (if st == Above then [latest] else [])
      && r.within == s.within + (if st == Within then [latest] else [])
      && r.pctBelow == Some(PercentHundredths(|r.below|, |r.recorded|))
      && r.pctAbove == Some(PercentHundredths(|r.above|, |r.recorded|))
      && r.pctWithin == Some(PercentHundredths(|r.within|, |r.recorded|))
      && r.pctError == Some(PercentHundredths(|r.inError|, |r.recorded|))
      && r.led == (if s.led.Some? then Some(UpdateColor(StatusName(st))) else None)
  {
  }

  /** The recorded temperatures after one more reading. */
  lemma TempsAppend(rs: seq<TempData>, x: TempData)
    requires Complete(rs) && x.datetime.Some? && x.tempInFahrenheit.Some?
    ensures Complete(rs + [x])
    ensures Temps(rs + [x]) == Temps(rs) + [x.tempInFahrenheit.value]
  {
    assert Temps(rs + [x]) == Temps(rs) + [x.tempInFahrenheit.value];
  }

  /** The invariant step, stated over the fields an append produces rather than over the append itself. */
  lemma AppendKeepsValid(s: Sensor, r: Sensor, t: int)
    requires Valid(s)
    requires r.range == s.range
    requires Complete(r.recorded) && Temps(r.recorded) == Temps(s.recorded) + [t]
    requires var st := Classify(t, s.range);
      && r.inError == s.inError + (if st == Error then [t] else [])
      && r.below == s.below + (if st == Below then [t] else [])
      && r.above == s.above + (if st == Above then [t] else [])
      && r.within == s.within + (if st == Within then [t] else [])
      && r.led == (if s.led.Some? then Some(UpdateColor(StatusName(st))) else None)
    requires r.pctBelow == Some(PercentHundredths(|r.below|, |r.recorded|))
    requires r.pctAbove == Some(PercentHundredths(|r.above|, |r.recorded|))
    requires r.pctWithin == Some(PercentHundredths(|r.within|, |r.recorded|))
    requires r.pctError == Some(PercentHundredths(|r.inError|, |r.recorded|))
    requires (r.highest, r.lowest) == (if t != 0 then UpdateHighestAndLowest(s.highest, s.lowest, t) else (s.highest, s.lowest))
    ensures Valid(r)
  {
    var ts := Temps(s.recorded);
    SelAppend(ts, t, Error, s.range);
    SelAppend(ts, t, Below, s.range);
    SelAppend(ts, t, Above, s.range);
    SelAppend(ts, t, Within, s.range);
    if t != 0 {
      UpdateTracksExtrema(ts, s.highest, s.lowest, t);
    } else {
      SentinelKeepsExtrema(ts, s.highest, s.lowest);
    }
    assert |r.recorded| > 0;
  }

  /** Appending one reading keeps every field consistent with the history. */
  lemma RecordPreservesValid(s: Sensor, timestamp: Timestamp, t: int)
    requires Valid(s)
    ensures Valid(UpdateRecordedTempData(s, timestamp, t))
  {
    var r := UpdateRecordedTempData(s, timestamp, t);
    UpdateRecordedFields(s, timestamp, t);
    TempsAppend(s.recorded, TempData(Some(timestamp), Some(t)));
    AppendKeepsValid(s, r, t);
  }

  /** The last error is not part of the invariant. */
  lemma ValidIgnoresError(s: Sensor, e: Option<ErrorKind>)
    requires Valid(s)
    ensures Valid(s.(error := e))
  {
    var s' := s.(error := e);
    assert s'.recorded == s.recorded && s'.range == s.range;
  }

  /** A successful poll is one append of the accepted value (or the sentinel) to the sensor with its new error. */
  lemma GetTempAtAppends(s: Sensor, timestamp: Timestamp, dev: Device)
    requires GetTempAt(s, timestamp, dev).Success?
    ensures exists e :: GetTempAt(s, timestamp, dev).value == UpdateRecordedTempData(s.(error := e), timestamp, PolledValue(dev))
  {
    var raw := GetRawTempData(dev);
    var d := DecodeRaw(raw.line.value);
    if d.Reading? && AcceptedReading(raw.line).None? {
      assert GetTempAt(s, timestamp, dev).value == UpdateRecordedTempData(s.(error := Some(NoSuccessfulTemp)), timestamp, 0);
    } else {
      assert GetTempAt(s, timestamp, dev).value
        == UpdateRecordedTempData(s.(error := raw.error), timestamp, PolledValue(dev));
    }
  }

  /** Every successful poll keeps the sensor valid. */
  lemma GetTempAtPreservesValid(s: Sensor, timestamp: Timestamp, dev: Device)
    requires Valid(s)
    requires GetTempAt(s, timestamp, dev).Success?
    ensures Valid(GetTempAt(s, timestamp, dev).value)
  {
    GetTempAtAppends(s, timestamp, dev);
    var e :| GetTempAt(s, timestamp, dev).value
      == UpdateRecordedTempData(s.(error := e), timestamp, PolledValue(dev));
    ValidIgnoresError(s, e);
    RecordPreservesValid(s.(error := e), timestamp, PolledValue(dev));
  }

  /** The class list a status is counted in. */
  function ClassList(s: Sensor, st: Status): seq<int> {
    match st
    case Error => s.inError
    case Below => s.below
    case Above => s.above
    case Within => s.within
  }

  /** Each append grows exactly one class list, that of the recorded value, by that value; the total grows by one. */
  lemma OneClassGrows(s: Sensor, timestamp: Timestamp, t: int)
    ensures var r := UpdateRecordedTempData(s, timestamp, t);
      && ClassList(r, Classify(t, s.range)) == ClassList(s, Classify(t, s.range)) + [t]
      && (forall st: Status :: st != Classify(t, s.range) ==> ClassList(r, st) == ClassList(s, st))
      && |r.inError| + |r.below| + |r.above| + |r.within| == |s.inError| + |s.below| + |s.above| + |s.within| + 1
  {
    UpdateRecordedFields(s, timestamp, t);
  }

  /** The number of readings is the sum of the four class counts. */
  lemma CountsMatchReadings(s: Sensor)
    requires Valid(s)
    ensures |s.recorded| == |s.inError| + |s.below| + |s.above| + |s.within|
  {
    CountsAddUp(Temps(s.recorded), s.range);
  }

  /** Rounded to hundredths, the four percentages still add up to 100 within 0.02. */
  lemma PercentagesSumTo100(s: Sensor)
    requires Valid(s) && |s.recorded| > 0
    ensures 10000 - 2 <= s.pctBelow.value + s.pctAbove.value + s.pctWithin.value + s.pctError.value <= 10000 + 2
  {
    CountsMatchReadings(s);
    var total := |s.recorded|;
    var pa, pb, pc, pd := s.pctBelow.value, s.pctAbove.value, s.pctWithin.value, s.pctError.value;
    FourRoundedPercentages(|s.below|, |s.above|, |s.within|, |s.inError|, pa, pb, pc, pd, total,
      pa * total, pb * total, pc * total, pd * total);
  }

  /** Four counts adding up to the total, each turned into a percentage within half a hundredth. */
  lemma FourRoundedPercentages(a: int, b: int, c: int, d: int, pa: int, pb: int, pc: int, pd: int, total: int,
                               xa: int, xb: int, xc: int, xd: int)
    requires total > 0 && a + b + c + d == total
    requires xa == pa * total && xb == pb * total && xc == pc * total && xd == pd * total
    requires 2 * (xa - a * 10000) <= total && 2 * (a * 10000 - xa) <= total
    requires 2 * (xb - b * 10000) <= total && 2 * (b * 10000 - xb) <= total
    requires 2 * (xc - c * 10000) <= total && 2 * (c * 10000 - xc) <= total
    requires 2 * (xd - d * 10000) <= total && 2 * (d * 10000 - xd) <= total
    ensures 10000 - 2 <= pa + pb + pc + pd <= 10000 + 2
  {
    var p := pa + pb + pc + pd;
    assert p * total == xa + xb + xc + xd;
    assert xa + xb + xc + xd <= 10002 * total;
    assert xa + xb + xc + xd >= 9998 * total;
    if p > 10002 {
      MulMono(10003, p, total);
    }
    if p < 9998 {
      MulMono(p, 9997, total);
    }
  }

  /** Running extrema ignore the sentinel and stay ordered. */
  lemma ExtremaOrdered(s: Sensor)
    requires Valid(s)
    ensures s.highest.Some? <==> s.lowest.Some?
    ensures s.highest.Some? ==> s.lowest.value <= s.highest.value
  {
    LowestAtMostHighest(Temps(s.recorded), s.highest, s.lowest);
  }

  /** The readings 70.00, 0.0, 65.00, 72.50 F leave 72.50 as highest and 65.00 as lowest. */
  lemma ExtremaExample()
    ensures var s0 := NewSensor("a", 1, "28-0", TargetRange(6800, 200, 200), false);
      var s1 := UpdateRecordedTempData(s0, "t1", 7000);
      var s2 := UpdateRecordedTempData(s1, "t2", 0);
      var s3 := UpdateRecordedTempData(s2, "t3", 6500);
      var s4 := UpdateRecordedTempData(s3, "t4", 7250);
      s4.highest == Some(7250) && s4.lowest == Some(6500)
  {
  }

  /** A missing probe file is not fatal: the poll records the sentinel and reports FILE NOT FOUND. */
  lemma MissingProbeRecordsSentinel(s: Sensor, timestamp: Timestamp, dev: Device)
    requires dev(0).Missing?
    ensures GetTempAt(s, timestamp, dev).Success?
    ensures GetTempAt(s, timestamp, dev).value.error == Some(FileNotFound)
    ensures GetLatestRecordedTempData(GetTempAt(s, timestamp, dev).value) == TempData(Some(timestamp), Some(0))
  {
  }

  /**
    Errors after a poll: none exactly when line 1 read `YES` and any decoded
    value was accepted; NO SUCCESSFUL TEMP when the retries ran out or the
    decoded value was rejected; otherwise the raw reader's file error.
  */
  lemma PollErrorPrecedence(s: Sensor, timestamp: Timestamp, dev: Device)
    requires GetTempAt(s, timestamp, dev).Success?
    ensures var raw := GetRawTempData(dev);
      var d := DecodeRaw(raw.line.value);
      GetTempAt(s, timestamp, dev).value.error
        == if d.Reading? && AcceptedReading(raw.line).None? then Some(NoSuccessfulTemp) else raw.error
    ensures GetTempAt(s, timestamp, dev).value.error != Some(FileEmpty) || dev(GetRawTempData(dev).readCount - 1) == Lines([])
  {
    RawReadErrorPrecedence(dev);
  }
}
