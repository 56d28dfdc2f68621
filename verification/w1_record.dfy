/**
  The one-wire probe's `w1_slave` record and what every version of the sensor
  code does with it: read it, check the CRC flag at the end of line 1, find the
  `t=` payload on line 2 and turn its milli-degrees Celsius into hundredths of a
  degree Fahrenheit.
*/
module W1Record {
  import opened Wrappers
  import opened Text
  import opened Rounding

  /** One `open(...)`/`readlines()` of the probe's file: the file is absent (IOError) or yields its lines. */
  datatype ReadOutcome = Missing | Lines(lines: seq<string>)

  /** The outcome of the k-th read of the probe's file, counting from 0, during one poll. */
  type Device = nat -> ReadOutcome

  /** Python exceptions the sensor code does not catch. */
  datatype Fault =
    | IndexError  // `lines[0]` or `lines[1]` on a list that is too short
    | ValueError  // `float()` / `int()` on text that is not a number

  /** A computation that may raise, or, for the unbounded loops, may still be looping when its fuel runs out. */
  datatype Run<+T> = Finished(value: T) | Raised(fault: Fault) | StillLooping

  /** Timestamps are the formatted `strftime` strings the controller passes in. */
  type Timestamp = string

  /** `TempData`: a timestamp and a temperature in hundredths of a degree F; both `None` when built with no arguments. */
  datatype TempData = TempData(datetime: Option<Timestamp>, tempInFahrenheit: Option<int>)

  const EmptyTempData := TempData(None, None)

  /** `lines[0].strip()[-3:] == "YES"`: the probe's CRC check passed. */
  predicate ReportsYes(line: string) {
    var t := Strip(line);
    (if |t| >= 3 then t[|t| - 3..] else t) == "YES"
  }

  /** A kernel line 1 such as `... crc=57 YES\n` reports success. */
  lemma ReportsYesOnKernelLine(p: string, w: string)
    requires AllSpace(w)
    ensures ReportsYes(p + "YES" + w)
  {
    var s := p + "YES";
    assert s + w == p + "YES" + w;
    RStripAppendSpace(s, w);
    var t := Strip(s + w);
    assert s[|s| - 1] == 'S';
    LStripSpec(s);
    assert !IsSpace(s[|s| - 3]);
    assert t[|t| - 3..] == s[|s| - 3..];
  }

  /** A read that makes the retry loop try again: the file has lines but line 1 does not end in `YES`. */
  predicate CrcFailed(o: ReadOutcome) {
    o.Lines? && |o.lines| > 0 && !ReportsYes(o.lines[0])
  }

  /** What `raw_temp` yields once the `t=` payload is looked for and converted. */
  datatype Decoded =
    | Unmarked           // empty, or no `t=` in it: the 0.0 path
    | Reading(centiF: int)
    | Unparsable         // `float()` raises ValueError

  /**
    `len(raw) > 0 and raw.find("t=") != -1`, then
    `round(convert(raw[raw.find("t=") + 2:]), 2)`. `None` stands for the empty
    list the raw readers return on failure.
  */
  function DecodeRaw(raw: Option<string>): (r: Decoded)
    ensures r.Unmarked? <==> raw.None? || Find(raw.value, "t=").None?
  {
    match raw
    case None => Unmarked
    case Some(line) =>
      match Find(line, "t=")
      case None => Unmarked
      case Some(i) =>
        match ConvertPayload(line[i + 2..])
        case None => Unparsable
        case Some(f) => Reading(f)
  }

  /**
    The converter applied to the text after `t=`, then `round(..., 2)`:
    `None` when `float()` rejects the text.
  */
  function ConvertPayload(payload: string): (r: Option<int>)
    ensures ParseInt(payload).None? <==> r.None?
  {
    match ParseInt(payload)
    case None => None
    case Some(milliC) => Some(CentiFahrenheit(milliC))
  }

  /** The converter is linear on the payload text: `"0"` is 32.00 F, and every multiple of 0.05 degrees C is exact. */
  lemma ConvertPayloadValues(k: int)
    ensures ConvertPayload("0") == Some(3200)
    ensures ConvertPayload(IntToString(50 * k)) == Some(9 * k + 3200)
  {
    ParseIntRoundTrip(0, "");
    assert IntToString(0) + "" == "0";
    ParseIntRoundTrip(50 * k, "");
    assert IntToString(50 * k) + "" == IntToString(50 * k);
    CentiFahrenheitExact(0);
    CentiFahrenheitExact(k);
  }

  /** A kernel line 2 `... t=<milliC>\n` decodes to the converted temperature. */
  lemma DecodeRawRoundTrip(p: string, milliC: int, w: string)
    requires forall j :: 0 <= j ==> !OccursAt(p, "t=", j)
    requires AllSpace(w)
    ensures DecodeRaw(Some(p + "t=" + IntToString(milliC) + w)) == Reading(CentiFahrenheit(milliC))
  {
    var q := IntToString(milliC) + w;
    var line := p + "t=" + q;
    assert line == p + "t=" + IntToString(milliC) + w;
    var pat := "t=";
    assert pat[..1][0] == 't' && pat[1..][0] == '=';
    FindAfterPrefix(p, "t=", q);
    assert line[|p| + 2..] == q;
    ParseIntRoundTrip(milliC, w);
  }
}
