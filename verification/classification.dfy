/**
  The range classifier of `__update_percentage_spent_lists`: a recorded
  temperature (hundredths of a degree F) is an error reading, below, above or
  within the target window, tested in that order.
*/
module Classification {

  /** `TARGET_TEMP`, `TARGET_TEMP_POSITIVE_ALLOWANCE`, `TARGET_TEMP_NEGATIVE_ALLOWANCE`, in hundredths of a degree F. */
  datatype TargetRange = TargetRange(target: int, positiveAllowance: int, negativeAllowance: int)

  /** `negative_range`: the lowest temperature still within range. */
  function LowerBound(c: TargetRange): int {
    c.target - c.negativeAllowance
  }

  /** `positive_range`: the highest temperature still within range. */
  function UpperBound(c: TargetRange): int {
    c.target + c.positiveAllowance
  }

  datatype Status = Error | Below | Above | Within

  /** The status word passed to the LED. */
  function StatusName(s: Status): string {
    match s
    case Error => "ERROR"
    case Below => "BELOW"
    case Above => "ABOVE"
    case Within => "WITHIN"
  }

  /**
    The elif chain: the 0.0 sentinel is an error; otherwise below the lower
    bound, above the upper bound, or within with both bounds inclusive.
  */
  function Classify(t: int, c: TargetRange): (s: Status)
    ensures s == Error <==> t == 0
    ensures s == Below <==> t != 0 && t < LowerBound(c)
    ensures s == Above <==> t != 0 && LowerBound(c) <= t && UpperBound(c) < t
    ensures s == Within <==> t != 0 && LowerBound(c) <= t <= UpperBound(c)
  {
    if t == 0 then Error
    else if t < LowerBound(c) then Below
    else if t > UpperBound(c) then Above
    else if LowerBound(c) <= t <= UpperBound(c) then Within
    else assert false; Within
  }

  /** Target 68.00 F with 2.00 F either way: both bounds are within, one hundredth past them is not. */
  lemma BoundaryExamples()
    ensures Classify(7000, TargetRange(6800, 200, 200)) == Within
    ensures Classify(6600, TargetRange(6800, 200, 200)) == Within
    ensures Classify(7001, TargetRange(6800, 200, 200)) == Above
    ensures Classify(6599, TargetRange(6800, 200, 200)) == Below
  {
  }

  /** The values of `ts` with status `st`, in recording order: one of the four class lists. */
  function Sel(ts: seq<int>, st: Status, c: TargetRange): (r: seq<int>)
    ensures |r| <= |ts|
    ensures forall i :: 0 <= i < |r| ==> Classify(r[i], c) == st
    decreases |ts|
  {
    if |ts| == 0 then []
    else
      var t := ts[|ts| - 1];
      Sel(ts[..|ts| - 1], st, c) + (if Classify(t, c) == st then [t] else [])
  }

  /** Recording one more temperature grows exactly its own class list, by that temperature. */
  lemma SelAppend(ts: seq<int>, t: int, st: Status, c: TargetRange)
    ensures Sel(ts + [t], st, c) == Sel(ts, st, c) + (if Classify(t, c) == st then [t] else [])
  {
    assert (ts + [t])[..|ts|] == ts;
  }

  function CountSum(ts: seq<int>, c: TargetRange): nat {
    |Sel(ts, Error, c)| + |Sel(ts, Below, c)| + |Sel(ts, Above, c)| + |Sel(ts, Within, c)|
  }

  /** Every recorded temperature is in exactly one class list: the four lengths add up to the total. */
  lemma {:induction false} CountsAddUp(ts: seq<int>, c: TargetRange)
    ensures CountSum(ts, c) == |ts|
    decreases |ts|
  {
    if |ts| > 0 {
      CountsAddUp(ts[..|ts| - 1], c);
    }
  }
}
