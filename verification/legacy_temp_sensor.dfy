/**
  The earlier `TempSensor` of the root `temp_sensor.py`: the same read and
  decode steps, but no 110 F guard, no statistics, and a CRC retry loop with no
  bound. The loop is run on fuel: `StillLooping` means the source would still
  be re-reading the file after that many attempts.
*/
module LegacyTempSensor {
  import opened Wrappers
  import opened W1Record
  import TempSensorModel

  /** The one message this version stores in `ERROR`. */
  const NotFoundMessage := "w1_slave file NOT FOUND. Please check connections for this sensor."

  datatype Sensor = Sensor(name: string, position: int, id: string, error: Option<string>, recorded: seq<TempData>)

  /** `__init__(name, position, id)`. */
  function NewSensor(name: string, position: int, id: string): (s: Sensor)
    ensures s.name == name && s.position == position && s.id == id
    ensures s.error.None? && |s.recorded| == 0
  {
    Sensor(name, position, id, None, [])
  }

  /** `__read_file`: the lines and a cleared error, or no lines and the not-found message. */
  function ReadFile(o: ReadOutcome): (seq<string>, Option<string>) {
    match o
    case Missing => ([], Some(NotFoundMessage))
    case Lines(ls) => (ls, None)
  }

  /** Line 2 of the record (`None` for the empty list), the `ERROR` left behind, and the number of reads made. */
  datatype RawRead = RawRead(line: Option<string>, error: Option<string>, readCount: nat)

  /** `while lines[0].strip()[-3:] != "YES": lines = __read_file()`, then `return lines[1]`, with `fuel` re-reads allowed. */
  function AwaitYes(lines: seq<string>, err: Option<string>, dev: Device, k: nat, fuel: nat): Run<RawRead>
    decreases fuel
  {
    if |lines| == 0 then Raised(IndexError)
    else if ReportsYes(lines[0]) then
      if |lines| >= 2 then Finished(RawRead(Some(lines[1]), err, k)) else Raised(IndexError)
    else if fuel == 0 then StillLooping
    else
      var (lines', err') := ReadFile(dev(k));
      AwaitYes(lines', err', dev, k + 1, fuel - 1)
  }

  /** `__get_raw_temp_data`: no retry when the first read yields no lines; otherwise wait for `YES` without bound. */
  function GetRawTempData(dev: Device, fuel: nat): (r: Run<RawRead>)
    ensures dev(0).Missing? ==> r == Finished(RawRead(None, Some(NotFoundMessage), 1))
    ensures dev(0) == Lines([]) ==> r == Finished(RawRead(None, None, 1))
  {
    var (lines, err) := ReadFile(dev(0));
    if |lines| > 0 then AwaitYes(lines, err, dev, 1, fuel)
    else Finished(RawRead(None, err, 1))
  }

  /** More fuel never changes an outcome that was reached: the result is the loop's result, not the fuel's. */
  lemma {:induction false} AwaitYesFuelMonotone(lines: seq<string>, err: Option<string>, dev: Device, k: nat, fuel: nat, more: nat)
    requires fuel <= more
    requires !AwaitYes(lines, err, dev, k, fuel).StillLooping?
    ensures AwaitYes(lines, err, dev, k, more) == AwaitYes(lines, err, dev, k, fuel)
    decreases fuel
  {
    if |lines| > 0 && !ReportsYes(lines[0]) {
      var (lines', err') := ReadFile(dev(k));
      AwaitYesFuelMonotone(lines', err', dev, k + 1, fuel - 1, more - 1);
    }
  }

  /** A probe that keeps failing its CRC keeps the loop going for any number of re-reads. */
  lemma {:induction false} AwaitYesNeverEnds(lines: seq<string>, err: Option<string>, dev: Device, k: nat, fuel: nat)
    requires |lines| > 0 && !ReportsYes(lines[0])
    requires forall j :: k <= j ==> CrcFailed(dev(j))
    ensures AwaitYes(lines, err, dev, k, fuel) == StillLooping
    decreases fuel
  {
    if fuel > 0 {
      assert CrcFailed(dev(k));
      var (lines', err') := ReadFile(dev(k));
      AwaitYesNeverEnds(lines', err', dev, k + 1, fuel - 1);
    }
  }

  /** The unbounded retry: a probe stuck on a failed CRC is never given up on. */
  lemma StuckProbeLoopsForever(dev: Device, fuel: nat)
    requires forall k :: CrcFailed(dev(k))
    ensures GetRawTempData(dev, fuel) == StillLooping
  {
    AwaitYesNeverEnds(dev(0).lines, None, dev, 1, fuel);
  }

  /** A finished wait returns line 2 of the first read reporting `YES`; every read before it failed its CRC. */
  lemma {:induction false} AwaitYesResult(lines: seq<string>, err: Option<string>, dev: Device, k: nat, fuel: nat)
    requires k >= 1 && |lines| > 0
    requires AwaitYes(lines, err, dev, k, fuel).Finished?
    ensures var r := AwaitYes(lines, err, dev, k, fuel).value;
      && k <= r.readCount <= k + fuel
      && (r.readCount > k ==> !ReportsYes(lines[0]))
      && (forall j :: k <= j < r.readCount - 1 ==> CrcFailed(dev(j)))
      && (r.readCount == k ==> ReportsYes(lines[0]) && |lines| >= 2 && r.line == Some(lines[1]) && r.error == err)
      && (r.readCount > k ==>
            var o := dev(r.readCount - 1);
            o.Lines? && |o.lines| >= 2 && ReportsYes(o.lines[0]) && r.line == Some(o.lines[1]) && r.error.None?)
    decreases fuel
  {
    if !ReportsYes(lines[0]) {
      var (lines', err') := ReadFile(dev(k));
      AwaitYesResult(lines', err', dev, k + 1, fuel - 1);
    }
  }

  /** The earlier reader crashes when the file vanishes during the retry: `lines[0]` of an empty list. */
  lemma VanishingProbeRaises(dev: Device, fuel: nat)
    requires CrcFailed(dev(0)) && dev(1).Missing? && fuel >= 1
    ensures GetRawTempData(dev, fuel) == Raised(IndexError)
  {
    assert AwaitYes(dev(0).lines, None, dev, 1, fuel) == AwaitYes([], Some(NotFoundMessage), dev, 2, fuel - 1);
  }

  /** The later reader survives the same sequence of reads, reporting FILE NOT FOUND. */
  lemma LaterVersionSurvivesVanishingProbe(dev: Device)
    requires CrcFailed(dev(0)) && dev(1).Missing?
    ensures TempSensorModel.GetRawTempData(dev).line == Success(None)
    ensures TempSensorModel.GetRawTempData(dev).error == Some(TempSensorModel.FileNotFound)
  {
    TempSensorModel.RetryStep(dev, 1);
  }

  /** `__update_recorded_temp_data`: append only. */
  function UpdateRecordedTempData(s: Sensor, timestamp: Timestamp, t: int): Sensor {
    s.(recorded := s.recorded + [TempData(Some(timestamp), Some(t))])
  }

  /** The temperature this version records for a raw line: any decoded value, or 0.0. */
  function LegacyValue(line: Option<string>): int {
    match DecodeRaw(line)
    case Reading(f) => f
    case _ => 0
  }

  /**
    `get_temp_at`: exactly one reading with the poll's timestamp is appended,
    holding the converted value whenever line 2 carries a `t=` payload and
    0.0 otherwise; nothing else about the sensor but its error changes.
  */
  function GetTempAt(s: Sensor, timestamp: Timestamp, dev: Device, fuel: nat): (r: Run<Sensor>)
    ensures r.Finished? ==>
      && GetRawTempData(dev, fuel).Finished?
      && r.value.recorded == s.recorded + [TempData(Some(timestamp), Some(LegacyValue(GetRawTempData(dev, fuel).value.line)))]
      && r.value.error == GetRawTempData(dev, fuel).value.error
      && r.value.name == s.name && r.value.position == s.position && r.value.id == s.id
    ensures r.Raised? <==>
      GetRawTempData(dev, fuel).Raised? || (GetRawTempData(dev, fuel).Finished? && DecodeRaw(GetRawTempData(dev, fuel).value.line).Unparsable?)
    ensures r.StillLooping? <==> GetRawTempData(dev, fuel).StillLooping?
  {
    match GetRawTempData(dev, fuel)
    case Raised(f) => Raised(f)
    case StillLooping => StillLooping
    case Finished(raw) =>
      var s1 := s.(error := raw.error);
      match DecodeRaw(raw.line)
      case Unparsable => Raised(ValueError)
      case Unmarked => Finished(UpdateRecordedTempData(s1, timestamp, 0))
      case Reading(f) => Finished(UpdateRecordedTempData(s1, timestamp, f))
  }

  /** `get_latest_recorded_temp_data`. */
  function GetLatestRecordedTempData(s: Sensor): TempData {
    if |s.recorded| > 0 then s.recorded[|s.recorded| - 1] else EmptyTempData
  }

  /** With nothing recorded the latest reading is a `TempData()` with both fields `None`. */
  lemma LatestOfFreshSensor(s: Sensor)
    requires |s.recorded| == 0
    ensures GetLatestRecordedTempData(s) == EmptyTempData
  {
  }

  /** After a poll that finishes, the latest reading is the one it appended: the poll's timestamp and the decoded value. */
  lemma LatestIsLastPoll(s: Sensor, timestamp: Timestamp, dev: Device, fuel: nat)
    requires GetTempAt(s, timestamp, dev, fuel).Finished?
    ensures GetLatestRecordedTempData(GetTempAt(s, timestamp, dev, fuel).value)
      == TempData(Some(timestamp), Some(LegacyValue(GetRawTempData(dev, fuel).value.line)))
  {
  }

  /** A missing file is recorded as 0.0 with the not-found message, and the poll goes on. */
  lemma MissingProbeRecordsZero(s: Sensor, timestamp: Timestamp, dev: Device, fuel: nat)
    requires dev(0).Missing?
    ensures GetTempAt(s, timestamp, dev, fuel).Finished?
    ensures GetTempAt(s, timestamp, dev, fuel).value.error == Some(NotFoundMessage)
    ensures GetLatestRecordedTempData(GetTempAt(s, timestamp, dev, fuel).value) == TempData(Some(timestamp), Some(0))
  {
  }

  /**
    No 110 F guard: a line 2 whose value converts to 110 F or more (such as the
    probe's 85000 power-on value) is recorded as is here, and as the 0.0
    sentinel by the later version.
  */
  lemma HotReadingKeptOnlyByEarlierVersion(s: Sensor, s2: TempSensorModel.Sensor, timestamp: Timestamp, dev: Device, fuel: nat, f: int)
    requires dev(0).Lines? && |dev(0).lines| >= 2 && ReportsYes(dev(0).lines[0])
    requires DecodeRaw(Some(dev(0).lines[1])) == Reading(f) && f >= TempSensorModel.ErrorCeiling
    ensures GetLatestRecordedTempData(GetTempAt(s, timestamp, dev, fuel).value) == TempData(Some(timestamp), Some(f))
    ensures TempSensorModel.GetLatestRecordedTempData(TempSensorModel.GetTempAt(s2, timestamp, dev).value)
      == TempData(Some(timestamp), Some(0))
  {
  }
}
