# Fermentation temperature tracker — a Dafny model of its sensor core

The tracker polls DS18B20 one-wire temperature probes on a Raspberry Pi. Each
probe exposes a two-line `w1_slave` record:

- line 1 ends in `YES` when the probe's CRC check passed;
- line 2 carries `t=<milli-degrees Celsius>`.

This project models what the Python code does with those records, and proves
properties of that model.

- The probe reader of `models/temp_sensor.py` is modelled as an immutable
  `Sensor` record with one pure step, `TempSensorModel.GetTempAt`. The step
  reads the file and re-reads it a bounded number of times while line 1 does
  not end in `YES`. It decodes the `t=` payload and converts it to hundredths
  of a degree Fahrenheit. A failed read (a missing or empty file, a CRC that
  never passes, no `t=` payload), a reading at or above 110 F, or a reading of
  exactly 0.0 is mapped to the 0.0 sentinel. The step then appends one
  `TempData`, puts the value into one of four classes (error, below, above,
  within), recomputes the four percentages, updates the running highest and
  lowest values, and drives the status LED. The invariant
  `TempSensorModel.Valid` says what every field means in terms of the history
  of readings, and every poll preserves it.
- The two earlier readers are modelled next to it:
  - `LegacyTempSensor` (`temp_sensor.py`) has no 110 F guard and waits for
    `YES` without a bound.
  - `CbcTempSensor` (`cbc_temp_sensor.py`) is a set of free functions with a
    recursive `readFile`.
  - Lemmas compare the versions on the same reads.
- The decision rules around the sensor:
  - the controller's enumeration, selection and poll cycle (`Controller`,
    which uses `StringOrder` for Python's `sorted`);
  - the in-memory update of the JSON log (`JsonLog`);
  - the LED table (`Led`);
  - the polling interval (`Program`).

Conventions used throughout:

- Temperatures are integers in hundredths of a degree F. The 0.0 sentinel is
  `0`, and "below 110" is `< 11000`.
- The conversion `CentiFahrenheit(m)` is the exact value `(m / 1000) * 9/5 + 32`
  rounded to hundredths, half to even. `round(x, 2)` of the exact value does
  the same.
- Percentages are in hundredths of a percent.
- Line 2 is decoded by `W1Record.DecodeRaw`.
- The file a probe reads is a `Device`. `dev(k)` is the outcome of the k-th
  `open` during one poll: the file is missing, or it holds a list of lines.
- Exceptions that escape to the caller are a `Fault`: `IndexError` on
  `lines[0]` or `lines[1]`, and `ValueError` from `float()`.
- The unbounded `YES` loops of the two earlier versions run on a `fuel`
  count. `StillLooping` means the Python code would still be re-reading.
- I/O is passed in as parameters: the directory glob, the answers typed at
  prompts, and the timestamp.

In `models/temp_sensor.py`, `max_tries` is 5 and `tries` runs from 1 to 5
inclusive, so a probe stuck on a failed CRC is read once and re-read five
times, six reads in all. `TempSensorModel.MaxTries` is the 5 re-reads.

In `cbc_temp_sensor.py`, `readFile` drops the result of its own retry (see
"## Findings"). The raw reader and `getTemp` take the `readFile` they call as
a parameter: `CbcTempSensor.AsWritten` is what the program runs, and
`CbcTempSensor.Intended` is the corrected reader. Lemmas state both.

One behaviour of the code is kept as written. In `models/temp_sensor.py`, a
line 2 without `t=` is recorded as the 0.0 sentinel, but `ERROR` keeps the
value the raw reader left, which may be `None`. Only a decoded value that is
rejected sets NO SUCCESSFUL TEMP (`TempSensorModel.PollErrorPrecedence`).

## Model

| member | source | states |
|---|---|---|
| Rounding.RoundHalfEven | models/temp_sensor.py:66 | `round(x, 2)` on hundredths: the result is within half a unit of n/d, and an exact tie goes to the even neighbour |
| Rounding.RoundHalfEvenUnique | models/temp_sensor.py:66 | any integer nearest to n/d that is even on a tie is the rounding result, so the rounding is determined by the nearest-and-ties-to-even rule |
| Rounding.RoundHalfEvenMonotone | models/temp_sensor.py:66 | rounding never reverses the order of two values |
| Rounding.RoundHalfEvenExact | models/temp_sensor.py:66 | a value that is already whole is left unchanged |
| Rounding.CelsiusRoundTrip | models/temp_sensor.py:157-161 | the unrounded formula is affine with slope 9/5, so solving it back recovers the milli-degrees Celsius; the recorded, rounded value is not invertible (see Rounding.RoundingMergesReadings) |
| Rounding.RoundingMergesReadings | models/temp_sensor.py:66 | rounding to hundredths loses precision: 0 and 1 milli-degree C both record 32.00 F |
| Rounding.CentiFahrenheit | models/temp_sensor.py:157-161 | the recorded hundredths lie within half a hundredth of milliC/1000 * 9/5 + 32 |
| Rounding.CentiFahrenheitMonotone | models/temp_sensor.py:157-161 | a warmer probe never reads colder once converted and rounded |
| Rounding.CentiFahrenheitExact | temp_sensor.py:77-81 | every multiple of 0.05 C converts exactly: 50k milli-degrees C is 9k + 3200 hundredths F |
| Rounding.ConversionExamples | cbc_temp_sensor.py:88-95 | 0 gives 32.00 F, 20000 gives 68.00 F, -5000 gives 23.00 F |
| Rounding.PercentHundredths | models/temp_sensor.py:211-214 | count / total * 100 rounded to hundredths is within half a hundredth of the exact share, and lies in 0..100 % when count <= total |
| Text.RStripSpec | models/temp_sensor.py:91 | `rstrip` keeps the longest prefix that does not end in whitespace and removes only whitespace |
| Text.LStripSpec | models/temp_sensor.py:91 | `lstrip` keeps the longest suffix that does not start with whitespace and removes only whitespace |
| Text.RStripAppendSpace | models/temp_sensor.py:91 | trailing whitespace such as the newline from `readlines` does not change `rstrip` |
| Text.StripPadded | models/temp_sensor.py:158 | a payload with no surrounding whitespace is unchanged by `strip` after the newline is added |
| Text.FindFrom | models/temp_sensor.py:63 | the first occurrence at or after a start index, or none at all from there |
| Text.Find | models/temp_sensor.py:63-65 | `str.find`: the index of the first occurrence, and -1 (`None`) exactly when there is none |
| Text.FindAfterPrefix | models/temp_sensor.py:65 | `t=` after a prefix without `t=` is found right after that prefix |
| Text.DigitsRoundTrip | models/temp_sensor.py:158 | reading back the decimal digits of n gives n |
| Text.ParseIntRoundTrip | models/temp_sensor.py:158 | parsing `str(n)` followed by whitespace gives n back, for negative n too |
| Text.ParseInt | models/temp_sensor.py:158 | `float()` on the payload and `int()` on a typed answer: the contract is Text.ParseIntRoundTrip, which gives back n from its decimal text |
| Text.Strip | models/temp_sensor.py:91 | `strip()`: the contract is Text.RStripSpec and Text.LStripSpec, which remove exactly the whitespace at each end |
| Text.Basename | temp_sensor_controller.py:39 | `os.path.basename`: the contract is Text.BasenameSpec |
| Text.BasenameSpec | cbc_temp_sensor.py:14 | `basename` is the `/`-free suffix of the path, preceded by `/` unless it is the whole path |
| Text.BasenameAfterSlash | temp_sensor_controller.py:39 | the basename of `<dir>/<id>` is `id` |
| Text.Upper | helpers/temp_sensor_led.py:30 | `upper()` keeps the length; the contract is Text.UpperIdempotent and Led.UpdateColorIgnoresCase |
| Text.UpperIdempotent | helpers/temp_sensor_led.py:30 | upper-casing twice is upper-casing once |
| W1Record.ReportsYesOnKernelLine | models/temp_sensor.py:91 | a line 1 ending in `YES` plus whitespace passes the `strip()[-3:]` test |
| W1Record.DecodeRaw | models/temp_sensor.py:63-66 | the 0.0 path is taken exactly when there is no line 2 or it holds no `t=` |
| W1Record.ConvertPayload | cbc_temp_sensor.py:88-95 | `getTempInFahrenheit` then `round(..., 2)`: the conversion fails exactly when `float()` rejects the text; every reader decodes line 2 through it |
| W1Record.ConvertPayloadValues | cbc_temp_sensor.py:88-95 | "0" gives 32.00 F, and the text of a multiple of 0.05 C converts exactly |
| W1Record.DecodeRawRoundTrip | models/temp_sensor.py:63-66 | a line 2 `... t=<milliC>` followed by whitespace decodes to the conversion of milliC |
| Classification.Classify | models/temp_sensor.py:184-204 | 0.0 is error; otherwise below exactly under target minus the negative allowance, above exactly over target plus the positive allowance, and within on the closed range |
| Classification.BoundaryExamples | models/temp_sensor.py:194-202 | both range bounds are inclusive, and one hundredth outside them is below or above |
| Classification.Sel | models/temp_sensor.py:189-204 | a class list holds only readings of its class |
| Classification.SelAppend | models/temp_sensor.py:189-204 | one reading grows its own class list by itself and leaves the other three as they are |
| Classification.CountsAddUp | models/temp_sensor.py:185-209 | the four class counts add up to the number of readings |
| Extrema.UpdateHighestAndLowest | models/temp_sensor.py:173-182 | the new highest is at least the reading and the old highest, and it is one of the two; likewise for the lowest |
| Extrema.UpdateTracksExtrema | models/temp_sensor.py:169-182 | after a nonzero reading, highest and lowest are the maximum and minimum of all nonzero readings; the first one seeds both |
| Extrema.SentinelKeepsExtrema | models/temp_sensor.py:169-171 | a 0.0 reading changes neither extreme |
| Extrema.LowestAtMostHighest | models/temp_sensor.py:173-182 | both extremes are set or both unset, and lowest <= highest |
| Led.SetupPins | helpers/temp_sensor_led.py:13-19 | setup leaves the output green (1,0,1), the colour of WITHIN |
| Led.UpdateColor | helpers/temp_sensor_led.py:29-46 | ABOVE gives white (0,0,0), BELOW blue (1,1,0), WITHIN green (1,0,1), ERROR red (0,1,1), each if and only if; the output is one of five colours |
| Led.UpdateColorIgnoresCase | helpers/temp_sensor_led.py:30 | the status is matched without regard to case |
| Led.UnknownStatusTurnsOff | helpers/temp_sensor_led.py:44-46 | all off (1,1,1) exactly when the status is none of the four |
| Led.ColorsDistinct | helpers/temp_sensor_led.py:32-46 | the five outputs are pairwise distinct |
| TempSensorModel.SetErrorInjective | models/temp_sensor.py:216-217 | different error kinds give different `ERROR` messages |
| TempSensorModel.NewSensor | models/temp_sensor.py:14-40 | a new sensor has no readings and no error, satisfies the invariant, and has an LED exactly when pins are given |
| TempSensorModel.ReadFile | models/temp_sensor.py:139-154 | `__read_file`: its contract is TempSensorModel.RawReadErrorPrecedence and TempSensorModel.MissingProbeRecordsSentinel — a failed open sets FILE NOT FOUND, a successful one clears the error |
| TempSensorModel.Retry | models/temp_sensor.py:93-125 | the `while tries <= max_tries` loop: its contract is TempSensorModel.RetryMeetsSpec |
| TempSensorModel.RetryStep | models/temp_sensor.py:97-118 | one re-read either ends the loop with that read's outcome or, after a failed CRC, continues with the next read |
| TempSensorModel.RetryMeetsSpec | models/temp_sensor.py:97-125 | the retry loop makes at most five re-reads; it stops at the first read that is not a failed CRC, or gives up after the fifth with NO SUCCESSFUL TEMP |
| TempSensorModel.GetRawTempData | models/temp_sensor.py:81-135 | at most six reads; every read but the last failed its CRC; line 2 of the first `YES` read is returned, or the empty result with the matching error |
| TempSensorModel.StuckProbeGivesUp | models/temp_sensor.py:91-125 | a probe that never reports `YES` is read exactly six times, then yields nothing with NO SUCCESSFUL TEMP |
| TempSensorModel.RawReadErrorPrecedence | models/temp_sensor.py:81-154 | FILE NOT FOUND exactly when the last open failed; FILE EMPTY exactly when it read no lines, so never on top of a missing file; NO SUCCESSFUL TEMP exactly when the retries ran out; no error exactly when line 1 reported `YES` |
| TempSensorModel.UpdateHighestAndLowestTemps | models/temp_sensor.py:173-182 | its contract is Extrema.UpdateHighestAndLowest and Extrema.UpdateTracksExtrema, applied through TempSensorModel.UpdateRecordedFields |
| TempSensorModel.UpdatePercentageSpentLists | models/temp_sensor.py:184-214 | its contract is TempSensorModel.UpdateRecordedFields and TempSensorModel.OneClassGrows: one class list grows and the four percentages are those of the new counts |
| TempSensorModel.UpdateRecordedTempData | models/temp_sensor.py:165-171 | the reading is appended and the sensor's identity, range and error are not touched |
| TempSensorModel.GetTempAt | models/temp_sensor.py:56-77 | a poll appends exactly one reading with the poll's timestamp and keeps earlier entries; its value is the converted temperature when it is below 110 F and not 0.0, and the sentinel otherwise; it fails only with the exception the source lets escape |
| TempSensorModel.GetLatestRecordedTempData | models/temp_sensor.py:42-46 | its contract is TempSensorModel.LatestIsLastPoll and TempSensorModel.LatestOfFreshSensor |
| TempSensorModel.LatestIsLastPoll | models/temp_sensor.py:42-46 | after a poll the latest reading is the one it appended: the poll's timestamp and the value it recorded |
| TempSensorModel.LatestOfFreshSensor | models/temp_sensor.py:226-229 | with nothing recorded the latest reading has both fields `None` |
| TempSensorModel.UpdateRecordedFields | models/temp_sensor.py:165-214 | one reading grows exactly the list of its class, recomputes all four percentages from the new counts, updates the extrema only if nonzero, and sets the LED to the class colour |
| TempSensorModel.RecordPreservesValid | models/temp_sensor.py:165-214 | appending a reading keeps the class lists, percentages, extrema and LED consistent with the whole history |
| TempSensorModel.GetTempAtAppends | models/temp_sensor.py:56-77 | a successful poll is exactly one append of the polled value, with the error updated |
| TempSensorModel.GetTempAtPreservesValid | models/temp_sensor.py:56-77 | every successful poll preserves the invariant |
| TempSensorModel.OneClassGrows | models/temp_sensor.py:184-204 | each append grows exactly one class list, by the recorded value |
| TempSensorModel.CountsMatchReadings | models/temp_sensor.py:185-209 | the number of readings is the sum of the four class-list lengths |
| TempSensorModel.PercentagesSumTo100 | models/temp_sensor.py:211-214 | the four rounded percentages add up to 100 within 0.02 |
| TempSensorModel.ExtremaOrdered | models/temp_sensor.py:170-182 | on a valid sensor the extremes are set together and lowest <= highest |
| TempSensorModel.ExtremaExample | models/temp_sensor.py:170-182 | 70.00, 0.0, 65.00, 72.50 leave 72.50 highest and 65.00 lowest |
| TempSensorModel.MissingProbeRecordsSentinel | models/temp_sensor.py:139-154 | a missing file does not stop the poll: 0.0 is recorded and FILE NOT FOUND is reported |
| TempSensorModel.PollErrorPrecedence | models/temp_sensor.py:68-74 | a rejected reading sets NO SUCCESSFUL TEMP; otherwise the error is the raw reader's; FILE EMPTY only after an empty read |
| LegacyTempSensor.NewSensor | temp_sensor.py:7-13 | a new sensor has no readings and no error |
| LegacyTempSensor.ReadFile | temp_sensor.py:56-74 | `__read_file`: its contract is LegacyTempSensor.MissingProbeRecordsZero and LegacyTempSensor.AwaitYesResult — a failed open stores the not-found message, a successful one clears it |
| LegacyTempSensor.AwaitYes | temp_sensor.py:46-49 | the unbounded wait: its contract is LegacyTempSensor.AwaitYesResult, LegacyTempSensor.AwaitYesNeverEnds, LegacyTempSensor.AwaitYesFuelMonotone and LegacyTempSensor.VanishingProbeRaises |
| LegacyTempSensor.GetRawTempData | temp_sensor.py:42-51 | no lines on the first read returns the empty result after one read, with the not-found message when the file is missing |
| LegacyTempSensor.AwaitYesFuelMonotone | temp_sensor.py:46-49 | an outcome the loop reaches does not depend on how much longer it could have run |
| LegacyTempSensor.AwaitYesNeverEnds | temp_sensor.py:46-48 | while every read fails its CRC the loop keeps going |
| LegacyTempSensor.StuckProbeLoopsForever | temp_sensor.py:42-51 | the retry is unbounded: a probe that never reports `YES` is never given up on |
| LegacyTempSensor.AwaitYesResult | temp_sensor.py:46-49 | a finished wait returns line 2 of the first `YES` read after only failed-CRC reads, and clears the error |
| LegacyTempSensor.VanishingProbeRaises | temp_sensor.py:46-48 | a file that disappears during the wait makes `lines[0]` raise IndexError |
| LegacyTempSensor.LaterVersionSurvivesVanishingProbe | models/temp_sensor.py:97-118 | on the same reads the later reader returns nothing with FILE NOT FOUND |
| LegacyTempSensor.GetTempAt | temp_sensor.py:29-38 | a poll appends exactly one reading with the timestamp: the converted value when line 2 has `t=`, 0.0 otherwise |
| LegacyTempSensor.UpdateRecordedTempData | temp_sensor.py:85-86 | append only: its contract is the recorded clause of LegacyTempSensor.GetTempAt |
| LegacyTempSensor.GetLatestRecordedTempData | temp_sensor.py:15-19 | its contract is LegacyTempSensor.LatestOfFreshSensor and LegacyTempSensor.LatestIsLastPoll |
| LegacyTempSensor.LatestOfFreshSensor | temp_sensor.py:15-19 | with nothing recorded the latest reading is `TempData()`, both fields `None` |
| LegacyTempSensor.LatestIsLastPoll | temp_sensor.py:15-19 | after a poll that finishes, the latest reading is exactly the one appended: the poll's timestamp and the decoded value or 0.0 |
| LegacyTempSensor.MissingProbeRecordsZero | temp_sensor.py:56-74 | a missing file records 0.0 with the not-found message |
| LegacyTempSensor.HotReadingKeptOnlyByEarlierVersion | temp_sensor.py:32-36 | without the 110 guard a reading of 110 F or more is kept, where the later version records 0.0 |
| CbcTempSensor.GetTempSensorFiles | cbc_temp_sensor.py:10-18 | one entry per directory, in input order |
| CbcTempSensor.EntryOfDirectory | cbc_temp_sensor.py:13-16 | the entry for `<root>/<id>` has id `id`, and its file lies inside that directory |
| CbcTempSensor.ReadFileAsWritten | cbc_temp_sensor.py:64-85 | `tries >= 5` gives no lines and no open; a failed open gives no lines whatever later opens would find |
| CbcTempSensor.ReadFile | cbc_temp_sensor.py:64-85 | intended retry: at most 5 - tries opens; the rest of its contract is CbcTempSensor.ReadFileSpec |
| CbcTempSensor.ReadFileSpec | cbc_temp_sensor.py:64-85 | for the intended retry, every open but the last found no file, the lines returned are those of the last open, and it stops early only on an open that succeeds |
| CbcTempSensor.ReadFileDropsRetry | cbc_temp_sensor.py:80-85 | a file that appears on the second open: no lines as written, its lines as intended |
| CbcTempSensor.ReadFileAgreesWithoutRecovery | cbc_temp_sensor.py:64-85 | when the first open succeeds, or no open does, the two versions agree |
| CbcTempSensor.ReadFileAllMissing | cbc_temp_sensor.py:64-85 | when every open fails the result has no lines |
| CbcTempSensor.Open | cbc_temp_sensor.py:47 | a call `readFile(file)` with the reader chosen: an open that finds the file returns its lines after one open; as written, a failed first open returns no lines |
| CbcTempSensor.AwaitYes | cbc_temp_sensor.py:52-58 | the unbounded wait: its contract is CbcTempSensor.AwaitYesResult, CbcTempSensor.AwaitYesSkipsToFirstYes, CbcTempSensor.AwaitYesFuelMonotone, CbcTempSensor.AwaitYesNeverEnds and CbcTempSensor.VanishingFileRaises |
| CbcTempSensor.AwaitYesReturnsLastYes | cbc_temp_sensor.py:52-58 | for any `readFile` that returns the lines of its last open, a finished wait returns line 2 of `lines` when its line 1 reports `YES`, and otherwise line 2 of the last open made, whose line 1 reports `YES` |
| CbcTempSensor.ReopenReadsLastOpen | cbc_temp_sensor.py:64-85 | both readers' `readFile` return the lines of the last open they made, and no open before it reported `YES` |
| CbcTempSensor.AwaitYesSkipsToFirstYes | cbc_temp_sensor.py:52-58 | for any `readFile` that returns the lines of its last open after opens that did not report `YES`, the wait stops at the first `YES`: every re-read open before the one it returns found no file or a failed CRC |
| CbcTempSensor.AwaitYesResult | cbc_temp_sensor.py:52-58 | the same for the wait `getRawTempData` runs, with either reader: line 2 of `lines` when it reports `YES`, otherwise line 2 of the last open made, whose line 1 reports `YES`, every re-read open before it having found no file or a failed CRC |
| CbcTempSensor.OpenLastSucceeded | cbc_temp_sensor.py:64-85 | non-empty lines from `readFile` are those of its last open, which found the file, and every earlier open found none |
| CbcTempSensor.AwaitYesFuelMonotone | cbc_temp_sensor.py:52-55 | for any `readFile`, an outcome the wait reaches does not depend on how much longer it could have run |
| CbcTempSensor.GetRawTempData | cbc_temp_sensor.py:45-61 | when the first `readFile` yields no lines, the result is empty without waiting; as written this happens whenever the first open fails |
| CbcTempSensor.RawLineIsAfterYes | cbc_temp_sensor.py:45-58 | a line `getRawTempData` returns is line 2 of the last open it made, that open's line 1 reports `YES`, and every earlier open found no file or a failed CRC, with either reader |
| CbcTempSensor.RawReadSkipsToFirstYes | cbc_temp_sensor.py:45-58 | the read `getRawTempData` returns line 2 of is the first that reported `YES`: no earlier open did |
| CbcTempSensor.AwaitYesNeverEnds | cbc_temp_sensor.py:52-55 | while every read fails its CRC the loop keeps going, with either reader |
| CbcTempSensor.StuckProbeLoopsForever | cbc_temp_sensor.py:45-61 | a probe that never reports `YES` is waited on forever |
| CbcTempSensor.HealthyProbeReadOnce | cbc_temp_sensor.py:50-58 | a `YES` on the first read returns its line 2 after one open |
| CbcTempSensor.VanishingFileRaises | cbc_temp_sensor.py:52-55 | as written, a file that vanishes during the wait makes the next `readFile` return `[]`, and `lines[0]` raises IndexError |
| CbcTempSensor.GetTemp | cbc_temp_sensor.py:21-42 | the result keeps the input's id; its temp is the converted value when line 2 has `t=` and 0.0 otherwise; it raises exactly when the raw reader raises or `float()` rejects the payload |
| CbcTempSensor.MissingProbeReadsZero | cbc_temp_sensor.py:38-42 | as written, a probe whose first open fails still appears, reading 0.0 |
| CbcTempSensor.IntendedMissingProbeReadsZero | cbc_temp_sensor.py:38-42 | with the corrected reader, a probe whose five opens all fail reads 0.0 |
| CbcTempSensor.LateFileReadsZero | cbc_temp_sensor.py:80-85 | a file that appears on the second open with a good reading gives 0.0 as written and the reading with the corrected reader |
| StringOrder.StrLeReflexive | temp_sensor_controller.py:29 | the string order is reflexive |
| StringOrder.StrLeTotal | temp_sensor_controller.py:29 | any two strings are comparable |
| StringOrder.StrLeAntisymmetric | temp_sensor_controller.py:29 | strings that are each <= the other are equal |
| StringOrder.StrLeTransitive | temp_sensor_controller.py:29 | the string order is transitive |
| StringOrder.StrLeCommonPrefix | temp_sensor_controller.py:29 | a shared directory prefix does not change how two paths compare |
| StringOrder.InsertSorted | temp_sensor_controller.py:29 | inserting into a sorted list keeps it sorted and adds exactly that string |
| StringOrder.SortSpec | temp_sensor_controller.py:29 | `sorted` returns a sorted permutation of its input |
| StringOrder.SortedUnique | temp_sensor_controller.py:29 | two sorted permutations of the same strings are equal |
| Controller.GetAvailableTempSensors | temp_sensor_controller.py:28-52 | no directories is NoSensorsDetected; otherwise one sensor per directory with positions 1..n over the sorted list and id = basename |
| Controller.AvailableIdsSorted | temp_sensor_controller.py:29-40 | for directories `<root>/<id>` the available ids are the probe ids: one per directory, each a probe id, every probe id present, in ascending order |
| Controller.GetNumOfDesiredSensors | temp_sensor_controller.py:72-92 | the accepted count is the first answer that parses as an integer in 1..available; every earlier answer was rejected |
| Controller.NameSensors | temp_sensor_controller.py:95-105 | exactly n names, the one for position p being the p-th answer |
| Controller.SelectTempSensors | temp_sensor_controller.py:56-69 | exactly n sensors, n being the first acceptable count typed: the first n available sensors in order, each named by the answer for its position; without directories NoSensorsDetected, otherwise a failure only when the answers run out |
| Controller.BuildSelected | temp_sensor_controller.py:62-69 | the loop builds exactly n sensors, sensor i at position i + 1 with the i-th name and the i-th available id |
| Controller.GetTemps | temp_sensor_controller.py:17-22 | each sensor is polled once, in list order, with the shared timestamp; an exception stops the cycle at that sensor and the earlier sensors keep their readings |
| Controller.CycleSharesTimestamp | temp_sensor_controller.py:17-21 | after a complete cycle every sensor gained exactly one reading, and it carries the cycle's timestamp |
| JsonLog.AllowedRangeIsWithinBand | temp_sensor_json_controller.py:46-49 | the logged range lo-hi is exactly the band in which a nonzero reading is within range |
| JsonLog.InitialSensorDict | temp_sensor_json_controller.py:37-57 | the initial dict has an empty reading list, and it mirrors a sensor with no readings |
| JsonLog.CreateFile | temp_sensor_json_controller.py:27-34 | one initial dict per sensor, in sensor order |
| JsonLog.NewLogMirrorsSensors | temp_sensor_json_controller.py:27-57 | a fresh log mirrors fresh sensors position by position |
| JsonLog.UpdateDict | temp_sensor_json_controller.py:103-114 | the update never touches name, position, id, target or range |
| JsonLog.UpdateSensorData | temp_sensor_json_controller.py:96-117 | dicts named like the sensor get the update; all others are untouched; length and order are preserved |
| JsonLog.UpdateAfterPollMirrors | temp_sensor_json_controller.py:96-114 | logging after each successful poll keeps the log entry an exact copy of the sensor's readings and statistics |
| Program.PollingSeconds | temp_sensor_program.py:27-32 | the interval is a whole number of minutes, at least 2: the request when it is 2 or more, otherwise 2 |
| Program.PollingSecondsStable | temp_sensor_program.py:27-32 | requesting the granted interval grants it again, and a longer request never shortens it |
| Program.SetPollingRate | temp_sensor_program.py:20-32 | the first answer that parses as an integer sets the interval; non-integers are never accepted |

## Left out

- Real I/O is left out: opening and reading `/sys/bus/w1/devices/.../w1_slave`,
  `glob`, `input()`, `print`, `time.sleep`, `exit()`, `traceback`, and JSON
  `load`/`dump`. Reads are a `Device`, prompts are a list of answers, and the
  JSON list is a parameter and a result.
- The `while True` polling loops and the exception handlers of `run()` in
  `cbc_temp_sensor.py` and `temp_sensor_program.py` are left out. They only
  schedule calls and exit.
- Output-only methods are left out: `print_all_recorded_temp_data`,
  `__print_temp_data`, `print_temps`.
- Timestamp formatting (`strftime`, `getDateTime`, `__get_datetime`) is left
  out. Timestamps are opaque strings.
- GPIO calls are left out. The LED is the last (red, green, blue) triple
  written.
- `temp_sensor_csv_controller.py` (row projection and file appends),
  `controllers/temp_sensor_matplotlib.py` (plotting) and the root
  `temp_sensor_led.py` (`update_color` is `pass`) are not part of this model.
- The wiring between files is not composed. `temp_sensor_program.py` passes
  pins to a controller that takes none, and the controller builds the
  three-argument `TempSensor` of `temp_sensor.py`. Each file's logic is
  modelled on its own, with the controller polling the sensor it imports.
- Rounding.CentiFahrenheit: rounds the exact decimal value half to even. It
  does not model IEEE double arithmetic, so a result that differs by one
  hundredth near a tie is not captured.
- Rounding.PercentHundredths: rounds the exact quotient, not the double
  `count / total * 100`.
- Text.ParseInt: accepts only an optional sign and ASCII digits. Python's
  `float()` also takes fractions, exponents, underscores, `inf`/`nan`, and
  Unicode digits. A payload in any of those forms is treated as rejected.
  `ParseInt` also stands for `int()` on typed answers
  (`Controller.GetNumOfDesiredSensors`, `Program.SetPollingRate`). Python's
  `int()` also accepts underscores between digits (`"1_0"`) and Unicode
  digits; the model treats such answers as rejected and prompts again.
- Text.IsSpace: ASCII whitespace only. Python's `strip()` also removes
  `\x1c`-`\x1f`, `\x85` and Unicode spaces.
- Text.Upper: ASCII letters only. Python's `upper()` maps other scripts too.
- JsonLog.RangeOf: keeps the two numbers of `"lo-hi"` rather than the
  formatted text.
- LegacyTempSensor.GetRawTempData: the unbounded wait runs on `fuel`.
  `StillLooping` stands for "still waiting after that many re-reads"; it says
  nothing about how long the real loop would run.
- CbcTempSensor.GetRawTempData: the unbounded wait runs on `fuel`, as above.
- TempSensorModel.GetTempAt, LegacyTempSensor.GetTempAt, Controller.GetTemps:
  the partly updated `ERROR` of a sensor whose poll raises is not kept. The
  source's `__read_file` has already rewritten it before the IndexError or
  ValueError; the model returns only the fault, and `run()` exits right
  after.
- Controller.GetNumOfDesiredSensors: with a finite list of answers, running
  out is `None`. The program would keep prompting until `input()` fails.
- Controller.NameSensors: running out of answers is `None`, as above.
- Program.SetPollingRate: running out of answers is `None`, as above.
  `round(requested_time * 60, 2)` on an integer is the integer itself.

## Findings

| source | as written | input that shows it | evidently intended | confidence | as-written member | corrected member |
|---|---|---|---|---|---|---|
| cbc_temp_sensor.py:80-85 | on IOError `readFile` calls itself with `tries + 1`, drops the result, and falls through to `return []` | the first open fails and the second open finds the file: the call returns `[]` | `return readFile(file, tries + 1)`: the lines of the first successful open within five tries | high (not executed) | CbcTempSensor.ReadFileAsWritten (counterexamples: CbcTempSensor.ReadFileDropsRetry, CbcTempSensor.LateFileReadsZero) | CbcTempSensor.ReadFile |
