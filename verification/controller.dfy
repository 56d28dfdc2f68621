/**
  `TempSensorController` of `temp_sensor_controller.py`: enumerating the
  probe directories, the sensor-count and naming prompts, building the
  selected sensors, and one poll cycle. The directory glob, the answers typed
  at the prompts, the timestamp and each probe's file are parameters; the
  sensors are the earlier `TempSensor` the file imports.
*/
module Controller {
  import opened Wrappers
  import opened Text
  import opened StringOrder
  import opened W1Record
  import LegacyTempSensor

  /** `{"position": ..., "id": ...}`. */
  datatype Available = Available(position: int, id: string)

  /** Why the controller cannot go on: `NoSensorsDetectedException` (the program exits), or the prompts ran out of answers. */
  datatype SetupError = NoSensorsDetected | InputExhausted

  /** `__get_available_temp_sensors`: sorted directories, numbered from 1, labelled by basename. */
  method GetAvailableTempSensors(dirs: seq<string>) returns (r: Result<seq<Available>, SetupError>)
    ensures r.Failure? <==> |dirs| == 0
    ensures r.Failure? ==> r.error == NoSensorsDetected
    ensures r.Success? ==> |r.value| == |dirs|
    ensures r.Success? ==> forall i :: 0 <= i < |r.value| ==>
      r.value[i].position == i + 1 && r.value[i].id == Basename(Sort(dirs)[i])
  {
    var sorted := Sort(dirs);
    if |sorted| < 1 {
      return Failure(NoSensorsDetected);
    }
    var available := [];
    var positionCounter := 1;
    for i := 0 to |sorted|
      invariant positionCounter == i + 1
      invariant |available| == i
      invariant forall j :: 0 <= j < i ==> available[j] == Available(j + 1, Basename(sorted[j]))
    {
      available := available + [Available(positionCounter, Basename(sorted[i]))];
      positionCounter := positionCounter + 1;
    }
    return Success(available);
  }

  /**
    When every directory is `<root>/<id>`, the available sensors are the probe
    ids themselves, in ascending order.
  */
  lemma AvailableIdsSorted(root: string, dirs: seq<string>, ids: seq<string>)
    requires |dirs| == |ids|
    requires forall i :: 0 <= i < |dirs| ==> dirs[i] == root + "/" + ids[i]
    requires forall i, k :: 0 <= i < |ids| && 0 <= k < |ids[i]| ==> ids[i][k] != '/'
    ensures var sorted := Sort(dirs);
      && |sorted| == |ids|
      && (forall i :: 0 <= i < |sorted| ==> Basename(sorted[i]) in ids)
      && (forall m :: 0 <= m < |ids| ==> Listed(sorted, ids[m]))
      && (forall i, j :: 0 <= i < j < |sorted| ==> StrLe(Basename(sorted[i]), Basename(sorted[j])))
  {
    var sorted := Sort(dirs);
    SortSpec(dirs);
    forall i | 0 <= i < |sorted| ensures exists m :: 0 <= m < |ids| && sorted[i] == root + "/" + ids[m] {
      assert sorted[i] in multiset(dirs);
      var m :| 0 <= m < |dirs| && dirs[m] == sorted[i];
    }
    forall i | 0 <= i < |sorted| ensures Basename(sorted[i]) in ids {
      var m :| 0 <= m < |ids| && sorted[i] == root + "/" + ids[m];
      BasenameAfterSlash(root, ids[m]);
    }
    IdsCovered(root, dirs, ids, sorted);
    forall i, j | 0 <= i < j < |sorted| ensures StrLe(Basename(sorted[i]), Basename(sorted[j])) {
      var m :| 0 <= m < |ids| && sorted[i] == root + "/" + ids[m];
      var n :| 0 <= n < |ids| && sorted[j] == root + "/" + ids[n];
      BasenameAfterSlash(root, ids[m]);
      BasenameAfterSlash(root, ids[n]);
      StrLeCommonPrefix(root + "/", ids[m], ids[n]);
    }
  }

  /** `id` is the basename of some entry of `paths`. */
  ghost predicate Listed(paths: seq<string>, id: string) {
    exists i :: 0 <= i < |paths| && Basename(paths[i]) == id
  }

  /** Every probe id is the basename of some entry of a permutation of the directories. */
  lemma IdsCovered(root: string, dirs: seq<string>, ids: seq<string>, sorted: seq<string>)
    requires |dirs| == |ids| && multiset(sorted) == multiset(dirs)
    requires forall i :: 0 <= i < |dirs| ==> dirs[i] == root + "/" + ids[i]
    requires forall i, k :: 0 <= i < |ids| && 0 <= k < |ids[i]| ==> ids[i][k] != '/'
    ensures forall m :: 0 <= m < |ids| ==> Listed(sorted, ids[m])
  {
    forall m | 0 <= m < |ids| ensures Listed(sorted, ids[m]) {
      assert dirs[m] in multiset(sorted);
      var i :| 0 <= i < |sorted| && sorted[i] == dirs[m];
      BasenameAfterSlash(root, ids[m]);
      assert Basename(sorted[i]) == ids[m];
    }
  }

  /** An answer the count prompt accepts: `int()` parses it and it lies in `1..available`. */
  predicate AcceptableCount(answer: string, available: int) {
    ParseInt(answer).Some? && 1 <= ParseInt(answer).value <= available
  }

  /** An accepted answer and the number of answers the prompt consumed. */
  datatype Prompted = Prompted(value: int, used: nat)

  /**
    `__get_num_of_desired_sensors_from_available`: re-prompt on a non-integer,
    on fewer than 1 and on more than are available; the first acceptable answer
    wins. `None` when the answers run out first.
  */
  method GetNumOfDesiredSensors(answers: seq<string>, available: int) returns (r: Option<Prompted>)
    ensures r.Some? ==> 1 <= r.value.value <= available
    ensures r.Some? ==> 1 <= r.value.used <= |answers| && ParseInt(answers[r.value.used - 1]) == Some(r.value.value)
    ensures r.Some? ==> forall i :: 0 <= i < r.value.used - 1 ==> !AcceptableCount(answers[i], available)
    ensures r.None? <==> forall i :: 0 <= i < |answers| ==> !AcceptableCount(answers[i], available)
  {
    var i := 0;
    while i < |answers|
      invariant 0 <= i <= |answers|
      invariant forall j :: 0 <= j < i ==> !AcceptableCount(answers[j], available)
    {
      var parsed := ParseInt(answers[i]);
      if parsed.Some? {
        var n := parsed.value;
        if 1 <= n && n <= available {
          return Some(Prompted(n, i + 1));
        }
      }
      i := i + 1;
    }
    return None;
  }

  /** `__name_sensors`: one answer per position, the answer for position p being the p-th. */
  method NameSensors(answers: seq<string>, n: nat) returns (r: Option<seq<string>>)
    ensures r.Some? <==> n <= |answers|
    ensures r.Some? ==> r.value == answers[..n]
  {
    if |answers| < n {
      return None;
    }
    var names := [];
    var sensorCounter := 1;
    for k := 0 to n
      invariant sensorCounter == k + 1
      invariant names == answers[..k]
    {
      names := names + [answers[sensorCounter - 1]];
      sensorCounter := sensorCounter + 1;
    }
    return Some(names);
  }

  /**
    `__select_temp_sensors`: the first n available sensors, in order, each
    named by the answer for its position. `answers` holds what is typed at the
    count prompt followed by the names.
  */
  method SelectTempSensors(dirs: seq<string>, answers: seq<string>) returns (r: Result<seq<LegacyTempSensor.Sensor>, SetupError>)
    ensures |dirs| == 0 ==> r == Failure(NoSensorsDetected)
    ensures |dirs| > 0 && r.Failure? ==> r.error == InputExhausted
    ensures |dirs| > 0 && r.Failure? ==> forall u ::
      0 <= u < |answers| && AcceptableCount(answers[u], |dirs|)
      && (forall j :: 0 <= j < u ==> !AcceptableCount(answers[j], |dirs|))
      ==> u + ParseInt(answers[u]).value >= |answers|
    ensures r.Success? ==> 1 <= |r.value| <= |dirs|
    ensures r.Success? ==> exists u ::
      && 0 <= u && u + |r.value| < |answers|
      && AcceptableCount(answers[u], |dirs|)
      && (forall j :: 0 <= j < u ==> !AcceptableCount(answers[j], |dirs|))
      && |r.value| == ParseInt(answers[u]).value
      && (forall i :: 0 <= i < |r.value| ==>
            r.value[i] == LegacyTempSensor.NewSensor(answers[u + 1 + i], i + 1, Basename(Sort(dirs)[i])))
  {
    var available := GetAvailableTempSensors(dirs);
    if available.Failure? {
      return Failure(available.error);
    }
    var avail := available.value;
    var count := GetNumOfDesiredSensors(answers, |avail|);
    if count.None? {
      return Failure(InputExhausted);
    }
    var n := count.value.value;
    var used := count.value.used;
    assert AcceptableCount(answers[used - 1], |dirs|);
    var names := NameSensors(answers[used..], n);
    if names.None? {
      return Failure(InputExhausted);
    }
    var sensorNames := names.value;
    forall i | 0 <= i < n
      ensures sensorNames[i] == answers[(used - 1) + 1 + i]
      ensures avail[i].id == Basename(Sort(dirs)[i])
    {
      assert sensorNames[i] == answers[used..][i];
    }
    var selected := BuildSelected(avail, n, sensorNames);
    return Success(selected);
  }

  /** The loop of `__select_temp_sensors`: sensor k of the first n gets the name for its position. */
  method BuildSelected(avail: seq<Available>, n: nat, sensorNames: seq<string>) returns (selected: seq<LegacyTempSensor.Sensor>)
    requires n <= |avail| && |sensorNames| == n
    requires forall i :: 0 <= i < |avail| ==> avail[i].position == i + 1
    ensures |selected| == n
    ensures forall i :: 0 <= i < n ==> selected[i] == LegacyTempSensor.NewSensor(sensorNames[i], i + 1, avail[i].id)
  {
    selected := [];
    for k := 0 to n
      invariant |selected| == k
      invariant forall i :: 0 <= i < k ==> selected[i] == LegacyTempSensor.NewSensor(sensorNames[i], i + 1, avail[i].id)
    {
      var sensor := avail[k];
      selected := selected + [LegacyTempSensor.NewSensor(sensorNames[sensor.position - 1], sensor.position, sensor.id)];
    }
  }

  /** How a poll cycle was cut short: an exception out of `get_temp_at`, or a reader still waiting for `YES`. */
  datatype Halt = Halted(fault: Fault) | Hung

  /**
    `get_temps`: each sensor is polled once, in list order, with the one shared
    timestamp; `probes(i)` is the file of the i-th sensor. An exception stops
    the cycle at that sensor, the ones before it keeping their new reading.
  */
  method GetTemps(sensors: seq<LegacyTempSensor.Sensor>, timestamp: Timestamp, probes: nat -> Device, fuel: nat)
    returns (after: seq<LegacyTempSensor.Sensor>, polled: nat, halt: Option<Halt>)
    ensures |after| == |sensors| && polled <= |sensors|
    ensures halt.None? <==> polled == |sensors|
    ensures forall i :: 0 <= i < polled ==>
      LegacyTempSensor.GetTempAt(sensors[i], timestamp, probes(i), fuel).Finished?
      && after[i] == LegacyTempSensor.GetTempAt(sensors[i], timestamp, probes(i), fuel).value
    ensures forall i :: polled <= i < |sensors| ==> after[i] == sensors[i]
    ensures polled < |sensors| ==>
      var stop := LegacyTempSensor.GetTempAt(sensors[polled], timestamp, probes(polled), fuel);
      (stop.Raised? && halt == Some(Halted(stop.fault))) || (stop.StillLooping? && halt == Some(Hung))
  {
    after := sensors;
    polled := 0;
    halt := None;
    while polled < |sensors|
      invariant polled <= |sensors| && |after| == |sensors|
      invariant forall i :: 0 <= i < polled ==>
        LegacyTempSensor.GetTempAt(sensors[i], timestamp, probes(i), fuel).Finished?
        && after[i] == LegacyTempSensor.GetTempAt(sensors[i], timestamp, probes(i), fuel).value
      invariant forall i :: polled <= i < |sensors| ==> after[i] == sensors[i]
    {
      var outcome := LegacyTempSensor.GetTempAt(sensors[polled], timestamp, probes(polled), fuel);
      match outcome
      case Raised(f) =>
        halt := Some(Halted(f));
        return;
      case StillLooping =>
        halt := Some(Hung);
        return;
      case Finished(s) =>
        after := after[polled := s];
        polled := polled + 1;
    }
  }

  /** After a complete cycle every sensor's latest reading carries the cycle's timestamp, and nothing else was added. */
  lemma CycleSharesTimestamp(sensors: seq<LegacyTempSensor.Sensor>, after: seq<LegacyTempSensor.Sensor>, timestamp: Timestamp, probes: nat -> Device, fuel: nat)
    requires |after| == |sensors|
    requires forall i :: 0 <= i < |sensors| ==>
      LegacyTempSensor.GetTempAt(sensors[i], timestamp, probes(i), fuel).Finished?
      && after[i] == LegacyTempSensor.GetTempAt(sensors[i], timestamp, probes(i), fuel).value
    ensures forall i :: 0 <= i < |after| ==>
      |after[i].recorded| == |sensors[i].recorded| + 1
      && after[i].recorded[..|sensors[i].recorded|] == sensors[i].recorded
      && LegacyTempSensor.GetLatestRecordedTempData(after[i]).datetime == Some(timestamp)
      && after[i].name == sensors[i].name && after[i].position == sensors[i].position
  {
    forall i | 0 <= i < |after|
      ensures |after[i].recorded| == |sensors[i].recorded| + 1
      ensures after[i].recorded[..|sensors[i].recorded|] == sensors[i].recorded
      ensures LegacyTempSensor.GetLatestRecordedTempData(after[i]).datetime == Some(timestamp)
    {
      var r := LegacyTempSensor.GetTempAt(sensors[i], timestamp, probes(i), fuel);
      assert r.Finished?;
      assert after[i].recorded[..|sensors[i].recorded|] == sensors[i].recorded;
    }
  }
}
