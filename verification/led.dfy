/**
  The RGB status LED of `helpers/temp_sensor_led.py`, modelled as the triple
  of values last written to the red, green and blue pins (0 = on, 1 = off).
*/
module Led {
  import opened Text

  type Bit = b: int | 0 <= b <= 1

  datatype Rgb = Rgb(red: Bit, green: Bit, blue: Bit)

  const White := Rgb(0, 0, 0)
  const Blue := Rgb(1, 1, 0)
  const Green := Rgb(1, 0, 1)
  const Red := Rgb(0, 1, 1)
  const Off := Rgb(1, 1, 1)

  /** `__setup_pins` leaves the LED green. */
  function SetupPins(): (r: Rgb)
    ensures r == UpdateColor("WITHIN")
  {
    Green
  }

  /** `update_color`: the status is upper-cased, then mapped; anything unknown turns every colour off. */
  function UpdateColor(tempStatus: string): (r: Rgb)
    ensures Upper(tempStatus) == "ABOVE" <==> r == White
    ensures Upper(tempStatus) == "BELOW" <==> r == Blue
    ensures Upper(tempStatus) == "WITHIN" <==> r == Green
    ensures Upper(tempStatus) == "ERROR" <==> r == Red
    ensures r in {White, Blue, Green, Red, Off}
  {
    var status := Upper(tempStatus);
    if status == "ABOVE" then White
    else if status == "BELOW" then Blue
    else if status == "WITHIN" then Green
    else if status == "ERROR" then Red
    else Off
  }

  /** Matching ignores case: a status and its upper-cased form light the same colour. */
  lemma UpdateColorIgnoresCase(tempStatus: string)
    ensures UpdateColor(tempStatus) == UpdateColor(Upper(tempStatus))
  {
    UpperIdempotent(tempStatus);
  }

  /** The fallback is used exactly for the statuses that are none of the four known words. */
  lemma UnknownStatusTurnsOff(tempStatus: string)
    ensures UpdateColor(tempStatus) == Off <==> Upper(tempStatus) !in ["ABOVE", "BELOW", "WITHIN", "ERROR"]
  {
  }

  /** The four recognised statuses and the fallback light five different outputs. */
  lemma ColorsDistinct()
    ensures |{White, Blue, Green, Red, Off}| == 5
  {
  }
}
