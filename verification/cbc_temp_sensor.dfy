/**
  The free-function reader `cbc_temp_sensor.py`: the sensor-file list, a
  `readFile` with a retry counter, a raw reader whose `YES` wait has no bound
  (run on fuel), and `getTemp`, which labels a reading with its probe's id.
*/
module CbcTempSensor {
  import opened Wrappers
  import opened Text
  import opened W1Record

  /** `{'tempSensorId': ..., 'tempSensorFile': ...}`. */
  datatype SensorFile = SensorFile(tempSensorId: string, tempSensorFile: string)

  const SlaveSuffix := "/w1_slave"

  /** The entry for one probe directory. */
  function Entry(dir: string): SensorFile {
    SensorFile(Basename(dir), dir + SlaveSuffix)
  }

  /** `getTempSensorFiles` over the globbed directory list: one entry per directory, in the same order. */
  method GetTempSensorFiles(dirs: seq<string>) returns (files: seq<SensorFile>)
    ensures |files| == |dirs|
    ensures forall i :: 0 <= i < |dirs| ==> files[i] == Entry(dirs[i])
  {
    files := [];
    for i := 0 to |dirs|
      invariant |files| == i
      invariant forall j :: 0 <= j < i ==> files[j] == Entry(dirs[j])
    {
      files := files + [Entry(dirs[i])];
    }
  }

  /**
    An entry names the data file inside its own directory, which the file path
    gives back, and a directory `<root>/<id>` is labelled with `<id>`.
  */
  lemma EntryOfDirectory(root: string, id: string)
    requires forall i :: 0 <= i < |id| ==> id[i] != '/'
    ensures var e := Entry(root + "/" + id);
      && e.tempSensorId == id
      && e.tempSensorFile[..|e.tempSensorFile| - |SlaveSuffix|] == root + "/" + id
  {
    BasenameAfterSlash(root, id);
    var f := root + "/" + id + SlaveSuffix;
    assert f[..|f| - |SlaveSuffix|] == root + "/" + id;
  }

  const MaxTries: nat := 5

  /** The lines a call to `readFile` returns, and how many opens it made. */
  datatype FileRead = FileRead(lines: seq<string>, opens: nat)

  /**
    `readFile(file, tries)` as written: on an IOError the recursive call is
    made and its result dropped, so the function falls through to `return []`.
    `dev(k)` is the outcome of the open made by this call.
  */
  function ReadFileAsWritten(dev: Device, k: nat, tries: nat): (r: FileRead)
    ensures tries >= MaxTries ==> r == FileRead([], 0)
    ensures tries < MaxTries && dev(k).Missing? ==> r.lines == []
    ensures tries < MaxTries && dev(k).Lines? ==> r == FileRead(dev(k).lines, 1)
    ensures r.opens == 0 || tries + r.opens <= MaxTries
    decreases MaxTries - tries
  {
    if tries < MaxTries then
      match dev(k)
      case Lines(ls) => FileRead(ls, 1)
      case Missing =>
        var retry := ReadFileAsWritten(dev, k + 1, tries + 1);
        FileRead([], 1 + retry.opens)
    else FileRead([], 0)
  }

  /** `readFile` as evidently intended: `return readFile(file, tries + 1)`, the lines of the first open that succeeds. */
  function ReadFile(dev: Device, k: nat, tries: nat): (r: FileRead)
    ensures r.opens == 0 || tries + r.opens <= MaxTries
    decreases MaxTries - tries
  {
    if tries < MaxTries then
      match dev(k)
      case Lines(ls) => FileRead(ls, 1)
      case Missing =>
        var retry := ReadFile(dev, k + 1, tries + 1);
        FileRead(retry.lines, 1 + retry.opens)
    else FileRead([], 0)
  }

  /**
    The corrected `readFile` opens until the file is found or the tries run
    out: every open but the last found no file, and the lines returned are
    those of the last open; it stops early only on an open that succeeds.
  */
  lemma {:induction false} ReadFileSpec(dev: Device, k: nat, tries: nat)
    ensures var r := ReadFile(dev, k, tries);
      && (forall j :: k <= j < k + r.opens - 1 ==> dev(j).Missing?)
      && (r.lines != [] || r.opens == 0 || dev(k + r.opens - 1) == Lines([]) || dev(k + r.opens - 1).Missing?)
      && (r.opens > 0 && dev(k + r.opens - 1).Lines? ==> r.lines == dev(k + r.opens - 1).lines)
      && (tries + r.opens < MaxTries ==> r.opens > 0 && dev(k + r.opens - 1).Lines?)
    decreases MaxTries - tries
  {
    if tries < MaxTries && dev(k).Missing? {
      ReadFileSpec(dev, k + 1, tries + 1);
    }
  }

  /** A file that appears on the second open: the code as written reports no lines, the intended retry returns them. */
  lemma ReadFileDropsRetry(dev: Device, ls: seq<string>)
    requires dev(0).Missing? && dev(1) == Lines(ls) && ls != []
    ensures ReadFileAsWritten(dev, 0, 0).lines == []
    ensures ReadFile(dev, 0, 0).lines == ls
  {
  }

  /** The two agree whenever the first open succeeds, or no open does. */
  lemma {:induction false} ReadFileAgreesWithoutRecovery(dev: Device, k: nat, tries: nat)
    requires dev(k).Lines? || forall j :: k <= j < k + MaxTries ==> dev(j).Missing?
    ensures ReadFileAsWritten(dev, k, tries).lines == ReadFile(dev, k, tries).lines
    decreases MaxTries - tries
  {
    if tries < MaxTries && dev(k).Missing? {
      ReadFileAllMissing(dev, k + 1, tries + 1);
    }
  }

  /** With every open failing, the intended `readFile` also ends with no lines. */
  lemma {:induction false} ReadFileAllMissing(dev: Device, k: nat, tries: nat)
    requires forall j :: k <= j < k + MaxTries - tries ==> dev(j).Missing?
    ensures ReadFile(dev, k, tries).lines == []
    decreases MaxTries - tries
  {
    if tries < MaxTries {
      assert dev(k).Missing?;
      ReadFileAllMissing(dev, k + 1, tries + 1);
    }
  }

  /** Which `readFile` the raw reader calls: the one the program runs, or the corrected one. */
  datatype Reader = AsWritten | Intended

  /** One call `readFile(file)` made by the raw reader, starting at open `k`. */
  function Open(reader: Reader, dev: Device, k: nat): (r: FileRead)
    ensures dev(k).Lines? ==> r == FileRead(dev(k).lines, 1)
    ensures reader == AsWritten && dev(k).Missing? ==> r.lines == []
    ensures r.opens >= 1
  {
    match reader
    case AsWritten => ReadFileAsWritten(dev, k, 0)
    case Intended => ReadFile(dev, k, 0)
  }

  /** Line 2 of the first read reporting `YES` (`None` for the empty list), and the opens made. */
  datatype RawRead = RawRead(line: Option<string>, opens: nat)

  /** The `readFile` the wait calls: `Reopen(reader, dev)(k)` is the call whose first open is open `k`. */
  function Reopen(reader: Reader, dev: Device): nat -> FileRead
  {
    (k: nat) => Open(reader, dev, k)
  }

  /**
    `while lines[0].strip()[-3:] != 'YES': lines = readFile(file)`, then `return lines[1]`,
    with `fuel` re-reads, each made by `reread` at the next unused open.
  */
  function AwaitYes(reread: nat -> FileRead, lines: seq<string>, k: nat, fuel: nat): Run<RawRead>
    decreases fuel
  {
    if |lines| == 0 then Raised(IndexError)
    else if ReportsYes(lines[0]) then
      if |lines| >= 2 then Finished(RawRead(Some(lines[1]), k)) else Raised(IndexError)
    else if fuel == 0 then StillLooping
    else
      var next := reread(k);
      AwaitYes(reread, next.lines, k + next.opens, fuel - 1)
  }

  /**
    `getRawTempData`: the empty list when the first `readFile` yields nothing,
    otherwise wait for `YES`. The program runs it with `AsWritten`, so a first
    open that fails yields the empty list whatever the retries found.
  */
  function GetRawTempData(reader: Reader, dev: Device, fuel: nat): (r: Run<RawRead>)
    ensures Open(reader, dev, 0).lines == [] ==> r == Finished(RawRead(None, Open(reader, dev, 0).opens))
    ensures reader == AsWritten && dev(0).Missing? ==> r.Finished? && r.value.line.None?
  {
    var first := Open(reader, dev, 0);
    if |first.lines| > 0 then AwaitYes(Reopen(reader, dev), first.lines, first.opens, fuel)
    else Finished(RawRead(None, first.opens))
  }

  /** A probe stuck on a failed CRC is never given up on, by either reader. */
  lemma {:induction false} AwaitYesNeverEnds(reader: Reader, lines: seq<string>, dev: Device, k: nat, fuel: nat)
    requires |lines| > 0 && !ReportsYes(lines[0])
    requires forall j :: k <= j ==> CrcFailed(dev(j))
    ensures AwaitYes(Reopen(reader, dev), lines, k, fuel) == StillLooping
    decreases fuel
  {
    if fuel > 0 {
      assert CrcFailed(dev(k));
      var next := Open(reader, dev, k);
      AwaitYesNeverEnds(reader, next.lines, dev, k + next.opens, fuel - 1);
    }
  }

  /** More fuel never changes an outcome that was reached: the result is the loop's result, not the fuel's. */
  lemma {:induction false} AwaitYesFuelMonotone(reread: nat -> FileRead, lines: seq<string>, k: nat, fuel: nat, more: nat)
    requires fuel <= more
    requires !AwaitYes(reread, lines, k, fuel).StillLooping?
    ensures AwaitYes(reread, lines, k, more) == AwaitYes(reread, lines, k, fuel)
    decreases fuel
  {
    if |lines| > 0 && !ReportsYes(lines[0]) {
      var next := reread(k);
      AwaitYesFuelMonotone(reread, next.lines, k + next.opens, fuel - 1, more - 1);
    }
  }

  /** A `readFile` whose non-empty lines are those of the last open it made. */
  ghost predicate ReadsLastOpen(reread: nat -> FileRead, dev: Device)
  {
    forall j: nat :: reread(j).lines != [] ==>
      && reread(j).opens >= 1
      && dev(j + reread(j).opens - 1).Lines?
      && reread(j).lines == dev(j + reread(j).opens - 1).lines
  }

  /** A `readFile` that, when it returns lines, made no open before the last that reported `YES`. */
  ghost predicate RetriesSkipped(reread: nat -> FileRead, dev: Device)
  {
    forall j: nat :: reread(j).lines != [] ==> SkippedOpens(dev, j, j + reread(j).opens - 1)
  }

  /** An open that did not report `YES`: it found no file, or a failed CRC. */
  predicate Skipped(o: ReadOutcome) {
    o.Missing? || CrcFailed(o)
  }

  /** Opens `from` up to (not including) `to` all skipped: none of them reported `YES`. */
  ghost predicate SkippedOpens(dev: Device, from: nat, to: int)
  {
    forall j: nat {:trigger Skipped(dev(j))} :: from <= j < to ==> Skipped(dev(j))
  }

  /** Skipped opens, then one more skipped open, then skipped opens. */
  lemma SkippedOpensJoin(dev: Device, from: nat, mid: nat, to: int)
    requires SkippedOpens(dev, from, mid)
    requires mid < to ==> Skipped(dev(mid))
    requires SkippedOpens(dev, mid + 1, to)
    ensures SkippedOpens(dev, from, to)
  {
  }

  /** Both readers' `readFile` returns the lines of its last open. */
  lemma ReopenReadsLastOpen(reader: Reader, dev: Device)
    ensures ReadsLastOpen(Reopen(reader, dev), dev)
    ensures RetriesSkipped(Reopen(reader, dev), dev)
  {
    forall j: nat
      ensures Reopen(reader, dev)(j).lines != [] ==>
        && Reopen(reader, dev)(j).opens >= 1
        && dev(j + Reopen(reader, dev)(j).opens - 1).Lines?
        && Reopen(reader, dev)(j).lines == dev(j + Reopen(reader, dev)(j).opens - 1).lines
        && SkippedOpens(dev, j, j + Reopen(reader, dev)(j).opens - 1)
    {
      OpenLastSucceeded(reader, dev, j);
    }
  }

  /**
    A finished wait returns line 2 of a read reporting `YES`: of `lines` when
    no re-read was needed, and otherwise of the last open made.
  */
  lemma {:induction false} AwaitYesReturnsLastYes(reread: nat -> FileRead, dev: Device, lines: seq<string>, k: nat, fuel: nat)
    requires ReadsLastOpen(reread, dev)
    requires |lines| > 0
    requires AwaitYes(reread, lines, k, fuel).Finished?
    ensures var r := AwaitYes(reread, lines, k, fuel).value;
      && k <= r.opens
      && (r.opens > k ==> !ReportsYes(lines[0]))
      && (r.opens == k ==> ReportsYes(lines[0]) && |lines| >= 2 && r.line == Some(lines[1]))
      && (r.opens > k ==>
            var o := dev(r.opens - 1);
            o.Lines? && |o.lines| >= 2 && ReportsYes(o.lines[0]) && r.line == Some(o.lines[1]))
    decreases fuel
  {
    if !ReportsYes(lines[0]) {
      var next := reread(k);
      assert next.lines != [] ==> next.opens >= 1 && dev(k + next.opens - 1).Lines? && next.lines == dev(k + next.opens - 1).lines;
      AwaitYesReturnsLastYes(reread, dev, next.lines, k + next.opens, fuel - 1);
    }
  }

  /**
    The read a finished wait returns is the first reporting `YES`: every
    re-read open before the last found no file or a failed CRC.
  */
  lemma {:induction false} AwaitYesSkipsToFirstYes(reread: nat -> FileRead, dev: Device, lines: seq<string>, k: nat, fuel: nat)
    requires ReadsLastOpen(reread, dev) && RetriesSkipped(reread, dev)
    requires |lines| > 0
    requires AwaitYes(reread, lines, k, fuel).Finished?
    ensures var r := AwaitYes(reread, lines, k, fuel).value;
      && k <= r.opens
      && (r.opens > k ==> !ReportsYes(lines[0]))
      && SkippedOpens(dev, k, r.opens - 1)
    decreases fuel
  {
    if !ReportsYes(lines[0]) {
      var next := reread(k);
      assert next.lines != [] ==> next.opens >= 1 && dev(k + next.opens - 1).Lines? && next.lines == dev(k + next.opens - 1).lines;
      assert next.lines != [] ==> SkippedOpens(dev, k, k + next.opens - 1);
      AwaitYesSkipsToFirstYes(reread, dev, next.lines, k + next.opens, fuel - 1);
      var r := AwaitYes(reread, next.lines, k + next.opens, fuel - 1).value;
      var mid := k + next.opens - 1;
      if mid < r.opens - 1 {
        assert Skipped(dev(mid));
      }
      SkippedOpensJoin(dev, k, mid, r.opens - 1);
    }
  }

  /** `AwaitYesReturnsLastYes` and `AwaitYesSkipsToFirstYes` for the wait `getRawTempData` runs, with either reader. */
  lemma AwaitYesResult(reader: Reader, lines: seq<string>, dev: Device, k: nat, fuel: nat)
    requires |lines| > 0
    requires AwaitYes(Reopen(reader, dev), lines, k, fuel).Finished?
    ensures var r := AwaitYes(Reopen(reader, dev), lines, k, fuel).value;
      && k <= r.opens
      && (r.opens > k ==> !ReportsYes(lines[0]))
      && (r.opens == k ==> ReportsYes(lines[0]) && |lines| >= 2 && r.line == Some(lines[1]))
      && (r.opens > k ==>
            var o := dev(r.opens - 1);
            o.Lines? && |o.lines| >= 2 && ReportsYes(o.lines[0]) && r.line == Some(o.lines[1]))
      && SkippedOpens(dev, k, r.opens - 1)
  {
    ReopenReadsLastOpen(reader, dev);
    AwaitYesReturnsLastYes(Reopen(reader, dev), dev, lines, k, fuel);
    AwaitYesSkipsToFirstYes(Reopen(reader, dev), dev, lines, k, fuel);
  }

  /**
    `getRawTempData` loops until line 1 ends in `YES`, then returns line 2:
    a line it returns is line 2 of the last open it made, whose line 1 reports
    `YES`, and every open before it found no file or a failed CRC.
  */
  lemma RawLineIsAfterYes(reader: Reader, dev: Device, fuel: nat)
    requires GetRawTempData(reader, dev, fuel).Finished?
    requires GetRawTempData(reader, dev, fuel).value.line.Some?
    ensures var r := GetRawTempData(reader, dev, fuel).value;
      && r.opens >= 1
      && var o := dev(r.opens - 1);
      && o.Lines? && |o.lines| >= 2 && ReportsYes(o.lines[0]) && r.line == Some(o.lines[1])
      && SkippedOpens(dev, 0, r.opens - 1)
  {
    var first := Open(reader, dev, 0);
    OpenLastSucceeded(reader, dev, 0);
    ReopenReadsLastOpen(reader, dev);
    AwaitYesReturnsLastYes(Reopen(reader, dev), dev, first.lines, first.opens, fuel);
    RawReadSkipsToFirstYes(reader, dev, fuel);
  }

  /** No open before the one `getRawTempData` returns line 2 of reported `YES`. */
  lemma RawReadSkipsToFirstYes(reader: Reader, dev: Device, fuel: nat)
    requires GetRawTempData(reader, dev, fuel).Finished?
    requires GetRawTempData(reader, dev, fuel).value.line.Some?
    ensures SkippedOpens(dev, 0, GetRawTempData(reader, dev, fuel).value.opens - 1)
  {
    var first := Open(reader, dev, 0);
    OpenLastSucceeded(reader, dev, 0);
    ReopenReadsLastOpen(reader, dev);
    AwaitYesSkipsToFirstYes(Reopen(reader, dev), dev, first.lines, first.opens, fuel);
    var r := GetRawTempData(reader, dev, fuel).value;
    var mid := first.opens - 1;
    assert SkippedOpens(dev, 0, mid);
    if mid < r.opens - 1 {
      assert Skipped(dev(mid));
    }
    SkippedOpensJoin(dev, 0, mid, r.opens - 1);
  }

  /** Lines returned by `readFile` are those of its last open, and every earlier open found no file. */
  lemma OpenLastSucceeded(reader: Reader, dev: Device, k: nat)
    ensures var r := Open(reader, dev, k);
      r.lines != [] ==>
        && dev(k + r.opens - 1).Lines? && r.lines == dev(k + r.opens - 1).lines
        && (forall j :: k <= j < k + r.opens - 1 ==> dev(j).Missing?)
  {
    if reader == Intended {
      ReadFileSpec(dev, k, 0);
      var r := ReadFile(dev, k, 0);
      if r.lines != [] {
        assert r.opens > 0;
      }
    }
  }

  lemma StuckProbeLoopsForever(reader: Reader, dev: Device, fuel: nat)
    requires forall k :: CrcFailed(dev(k))
    ensures GetRawTempData(reader, dev, fuel) == StillLooping
  {
    assert CrcFailed(dev(0));
    AwaitYesNeverEnds(reader, dev(0).lines, dev, 1, fuel);
  }

  /** A probe that reports `YES` at once: line 2 is returned after one open, by either reader. */
  lemma HealthyProbeReadOnce(reader: Reader, dev: Device, fuel: nat)
    requires dev(0).Lines? && |dev(0).lines| >= 2 && ReportsYes(dev(0).lines[0])
    ensures GetRawTempData(reader, dev, fuel) == Finished(RawRead(Some(dev(0).lines[1]), 1))
  {
  }

  /**
    As written, a file that vanishes while the loop waits for `YES` makes the
    next `readFile` return the empty list, and `lines[0]` raises.
  */
  lemma VanishingFileRaises(dev: Device, fuel: nat)
    requires CrcFailed(dev(0)) && dev(1).Missing? && fuel >= 1
    ensures GetRawTempData(AsWritten, dev, fuel) == Raised(IndexError)
  {
    var next := Open(AsWritten, dev, 1);
    assert AwaitYes(Reopen(AsWritten, dev), dev(0).lines, 1, fuel) == AwaitYes(Reopen(AsWritten, dev), next.lines, 1 + next.opens, fuel - 1);
  }

  /** `{"tempSensorId": ..., "temp": ...}`. */
  datatype TempReading = TempReading(tempSensorId: string, temp: int)

  /**
    `getTemp`: the input's id with the converted reading when line 2 has a
    `t=` payload, and 0.0 otherwise; a payload `float()` rejects raises.
  */
  function GetTemp(reader: Reader, sf: SensorFile, dev: Device, fuel: nat): (r: Run<TempReading>)
    ensures r.Finished? ==> r.value.tempSensorId == sf.tempSensorId
    ensures r.Finished? ==> GetRawTempData(reader, dev, fuel).Finished?
    ensures r.Finished? && DecodeRaw(GetRawTempData(reader, dev, fuel).value.line).Unmarked? ==> r.value.temp == 0
    ensures r.Finished? && DecodeRaw(GetRawTempData(reader, dev, fuel).value.line).Reading? ==>
      r.value.temp == DecodeRaw(GetRawTempData(reader, dev, fuel).value.line).centiF
    ensures r.StillLooping? <==> GetRawTempData(reader, dev, fuel).StillLooping?
    ensures r.Raised? <==>
      GetRawTempData(reader, dev, fuel).Raised?
      || (GetRawTempData(reader, dev, fuel).Finished? && DecodeRaw(GetRawTempData(reader, dev, fuel).value.line).Unparsable?)
  {
    match GetRawTempData(reader, dev, fuel)
    case Raised(f) => Raised(f)
    case StillLooping => StillLooping
    case Finished(raw) =>
      match DecodeRaw(raw.line)
      case Unparsable => Raised(ValueError)
      case Unmarked => Finished(TempReading(sf.tempSensorId, 0))
      case Reading(f) => Finished(TempReading(sf.tempSensorId, f))
  }

  /** As written, a probe whose first open fails keeps its place in the output with a 0.0 reading. */
  lemma MissingProbeReadsZero(sf: SensorFile, dev: Device, fuel: nat)
    requires dev(0).Missing?
    ensures GetTemp(AsWritten, sf, dev, fuel) == Finished(TempReading(sf.tempSensorId, 0))
  {
  }

  /** With the corrected reader, a 0.0 reading needs every one of the five opens to fail. */
  lemma IntendedMissingProbeReadsZero(sf: SensorFile, dev: Device, fuel: nat)
    requires forall j :: 0 <= j < MaxTries ==> dev(j).Missing?
    ensures GetTemp(Intended, sf, dev, fuel) == Finished(TempReading(sf.tempSensorId, 0))
  {
    ReadFileAllMissing(dev, 0, 0);
  }

  /**
    The dropped retry seen from `getTemp`: a file that appears on the second
    open with a good reading is recorded as 0.0 by the program, and with its
    reading by the corrected reader.
  */
  lemma LateFileReadsZero(sf: SensorFile, dev: Device, fuel: nat, f: int)
    requires dev(0).Missing? && dev(1).Lines?
    requires |dev(1).lines| >= 2 && ReportsYes(dev(1).lines[0])
    requires DecodeRaw(Some(dev(1).lines[1])) == Reading(f)
    ensures GetTemp(AsWritten, sf, dev, fuel) == Finished(TempReading(sf.tempSensorId, 0))
    ensures GetTemp(Intended, sf, dev, fuel) == Finished(TempReading(sf.tempSensorId, f))
  {
    assert ReadFile(dev, 0, 0) == FileRead(dev(1).lines, 2);
  }
}
