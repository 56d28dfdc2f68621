/**
  `set_polling_rate` of `temp_sensor_program.py`: the minutes typed at the
  prompt become the number of seconds to sleep between polls, never less than
  two minutes.
*/
module Program {
  import opened Wrappers
  import opened Text

  const MinimumMinutes := 2

  /** The interval for a requested number of whole minutes. */
  function PollingSeconds(minutes: int): (r: int)
    ensures r >= MinimumMinutes * 60 && r % 60 == 0
    ensures minutes >= MinimumMinutes ==> r / 60 == minutes
    ensures minutes < MinimumMinutes ==> r / 60 == MinimumMinutes
  {
    if minutes < MinimumMinutes then MinimumMinutes * 60 else minutes * 60
  }

  /** Requesting the interval that was granted grants it again; longer requests never shorten it. */
  lemma PollingSecondsStable(minutes: int, more: int)
    requires minutes <= more
    ensures PollingSeconds(PollingSeconds(minutes) / 60) == PollingSeconds(minutes)
    ensures PollingSeconds(minutes) <= PollingSeconds(more)
  {
  }

  /** The interval and the number of answers consumed. */
  datatype Granted = Granted(seconds: int, used: nat)

  /** `set_polling_rate`: re-prompt until `int()` accepts an answer; `None` when the answers run out first. */
  method SetPollingRate(answers: seq<string>) returns (r: Option<Granted>)
    ensures r.Some? ==> 1 <= r.value.used <= |answers|
    ensures r.Some? ==>
      && ParseInt(answers[r.value.used - 1]).Some?
      && r.value.seconds == PollingSeconds(ParseInt(answers[r.value.used - 1]).value)
    ensures r.Some? ==> forall i :: 0 <= i < r.value.used - 1 ==> ParseInt(answers[i]).None?
    ensures r.None? <==> forall i :: 0 <= i < |answers| ==> ParseInt(answers[i]).None?
  {
    var i := 0;
    while i < |answers|
      invariant 0 <= i <= |answers|
      invariant forall j :: 0 <= j < i ==> ParseInt(answers[j]).None?
    {
      var requested := ParseInt(answers[i]);
      if requested.Some? {
        var requestedTime := requested.value;
        if requestedTime < 2 {
          return Some(Granted(2 * 60, i + 1));
        } else {
          return Some(Granted(requestedTime * 60, i + 1));
        }
      }
      i := i + 1;
    }
    return None;
  }
}
