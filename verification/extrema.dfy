/**
  The running highest and lowest temperatures of `__update_highest_and_lowest_temps`,
  which only ever see non-sentinel readings.
*/
module Extrema {
  import opened Wrappers

  /** `h` is the largest non-zero value of `ts`, or `None` when every value is the 0.0 sentinel. */
  ghost predicate IsHighest(ts: seq<int>, h: Option<int>) {
    match h
    case None => forall i :: 0 <= i < |ts| ==> ts[i] == 0
    case Some(x) =>
      && x != 0
      && (exists i :: 0 <= i < |ts| && ts[i] == x)
      && (forall i :: 0 <= i < |ts| && ts[i] != 0 ==> ts[i] <= x)
  }

  /** `l` is the smallest non-zero value of `ts`, or `None` when every value is the 0.0 sentinel. */
  ghost predicate IsLowest(ts: seq<int>, l: Option<int>) {
    match l
    case None => forall i :: 0 <= i < |ts| ==> ts[i] == 0
    case Some(x) =>
      && x != 0
      && (exists i :: 0 <= i < |ts| && ts[i] == x)
      && (forall i :: 0 <= i < |ts| && ts[i] != 0 ==> x <= ts[i])
  }

  /** The first reading seeds both; later ones replace a value only when strictly beyond it. */
  function UpdateHighestAndLowest(highest: Option<int>, lowest: Option<int>, t: int): (r: (Option<int>, Option<int>))
    ensures r.0.Some? && t <= r.0.value && (r.0.value == t || Some(r.0.value) == highest)
    ensures r.1.Some? && r.1.value <= t && (r.1.value == t || Some(r.1.value) == lowest)
    ensures highest.Some? ==> highest.value <= r.0.value
    ensures lowest.Some? ==> r.1.value <= lowest.value
  {
    var h := if highest.None? then Some(t) else if highest.value < t then Some(t) else highest;
    var l := if lowest.None? then Some(t) else if lowest.value > t then Some(t) else lowest;
    (h, l)
  }

  /** A non-zero reading keeps the running values equal to the extrema of everything recorded. */
  lemma UpdateTracksExtrema(ts: seq<int>, highest: Option<int>, lowest: Option<int>, t: int)
    requires IsHighest(ts, highest) && IsLowest(ts, lowest)
    requires t != 0
    ensures IsHighest(ts + [t], UpdateHighestAndLowest(highest, lowest, t).0)
    ensures IsLowest(ts + [t], UpdateHighestAndLowest(highest, lowest, t).1)
  {
    var ts' := ts + [t];
    var r := UpdateHighestAndLowest(highest, lowest, t);
    assert ts'[|ts|] == t;
    if r.0.value != t {
      var i :| 0 <= i < |ts| && ts[i] == r.0.value;
      assert ts'[i] == r.0.value;
    }
    if r.1.value != t {
      var i :| 0 <= i < |ts| && ts[i] == r.1.value;
      assert ts'[i] == r.1.value;
    }
  }

  /** A sentinel reading leaves the running values untouched and they stay correct. */
  lemma SentinelKeepsExtrema(ts: seq<int>, highest: Option<int>, lowest: Option<int>)
    requires IsHighest(ts, highest) && IsLowest(ts, lowest)
    ensures IsHighest(ts + [0], highest) && IsLowest(ts + [0], lowest)
  {
    var ts' := ts + [0];
    if highest.Some? {
      var i :| 0 <= i < |ts| && ts[i] == highest.value;
      assert ts'[i] == highest.value;
    }
    if lowest.Some? {
      var i :| 0 <= i < |ts| && ts[i] == lowest.value;
      assert ts'[i] == lowest.value;
    }
  }

  /** Both running values are set together, and the lowest never exceeds the highest. */
  lemma LowestAtMostHighest(ts: seq<int>, highest: Option<int>, lowest: Option<int>)
    requires IsHighest(ts, highest) && IsLowest(ts, lowest)
    ensures highest.Some? <==> lowest.Some?
    ensures highest.Some? ==> lowest.value <= highest.value
  {
    if highest.Some? {
      var i :| 0 <= i < |ts| && ts[i] == highest.value;
      assert ts[i] != 0;
    }
    if lowest.Some? {
      var i :| 0 <= i < |ts| && ts[i] == lowest.value;
      assert ts[i] != 0;
    }
  }
}
