// The simulator board's conversions between the HAL's event numbers and the
// names the page shows (src/board/conversions.ts): the microphone threshold
// kinds and the accelerometer gestures. The numbers are those of
// bitsflowhal.h.

module Conversions {
  import opened Wrappers
  import Gestures

  /** BITSFLOW_HAL_MICROPHONE_SET_THRESHOLD_LOW and _HIGH. */
  const ThresholdLow: int := 0
  const ThresholdHigh: int := 1

  /** The Error thrown for a value outside a switch, with the value. */
  datatype ConversionError = InvalidNumber(n: int) | InvalidString(s: string)

  /** convertSoundThresholdNumberToString. */
  function ThresholdName(value: int): (r: Result<string, ConversionError>)
    ensures r.Ok? <==> value == ThresholdLow || value == ThresholdHigh
    ensures r.Err? ==> r.error == InvalidNumber(value)
    ensures r.Ok? ==> r.value in ["low", "high"]
  {
    if value == ThresholdLow then Ok("low")
    else if value == ThresholdHigh then Ok("high")
    else Err(InvalidNumber(value))
  }

  /** The two threshold kinds have different names, so the name tells the
    * kind back: low is "low" and high is "high". */
  lemma ThresholdNamesDistinct(a: int, b: int)
    ensures ThresholdName(ThresholdLow) == Ok("low") && ThresholdName(ThresholdHigh) == Ok("high")
    ensures ThresholdName(a).Ok? && ThresholdName(b).Ok? && ThresholdName(a) == ThresholdName(b) ==> a == b
  {
  }

  /** The name of each accelerometer event number, from EVT_NONE (0) to
    * EVT_2G (12), as listed by the two switches. */
  const AccelNames: seq<string> :=
    ["none", "up", "down", "left", "right", "face up", "face down", "freefall", "3g", "6g", "8g", "shake", "2g"]

  /** convertAccelerometerStringToNumber. */
  function AccelNumber(value: string): (r: Result<int, ConversionError>)
    ensures r.Ok? ==> Gestures.None <= r.value <= Gestures.TwoG
    ensures r.Err? ==> r.error == InvalidString(value)
  {
    if value == "none" then Ok(Gestures.None)
    else if value == "up" then Ok(Gestures.TiltUp)
    else if value == "down" then Ok(Gestures.TiltDown)
    else if value == "left" then Ok(Gestures.TiltLeft)
    else if value == "right" then Ok(Gestures.TiltRight)
    else if value == "face up" then Ok(Gestures.FaceUp)
    else if value == "face down" then Ok(Gestures.FaceDown)
    else if value == "freefall" then Ok(Gestures.Freefall)
    else if value == "2g" then Ok(Gestures.TwoG)
    else if value == "3g" then Ok(Gestures.ThreeG)
    else if value == "6g" then Ok(Gestures.SixG)
    else if value == "8g" then Ok(Gestures.EightG)
    else if value == "shake" then Ok(Gestures.Shake)
    else Err(InvalidString(value))
  }

  /** convertAccelerometerNumberToString. */
  function AccelName(value: int): (r: Result<string, ConversionError>)
    ensures r.Ok? <==> Gestures.None <= value <= Gestures.TwoG
    ensures r.Err? ==> r.error == InvalidNumber(value)
  {
    if value == Gestures.None then Ok("none")
    else if value == Gestures.TiltUp then Ok("up")
    else if value == Gestures.TiltDown then Ok("down")
    else if value == Gestures.TiltLeft then Ok("left")
    else if value == Gestures.TiltRight then Ok("right")
    else if value == Gestures.FaceUp then Ok("face up")
    else if value == Gestures.FaceDown then Ok("face down")
    else if value == Gestures.Freefall then Ok("freefall")
    else if value == Gestures.TwoG then Ok("2g")
    else if value == Gestures.ThreeG then Ok("3g")
    else if value == Gestures.SixG then Ok("6g")
    else if value == Gestures.EightG then Ok("8g")
    else if value == Gestures.Shake then Ok("shake")
    else Err(InvalidNumber(value))
  }

  /** A number converts exactly when it is one of the thirteen events, to
    * that event's name; any other number throws. */
  lemma AccelNameIsTable(value: int)
    ensures AccelName(value).Ok? <==> 0 <= value < |AccelNames|
    ensures AccelName(value).Ok? ==> AccelName(value).value == AccelNames[value]
    ensures AccelName(value).Err? ==> AccelName(value).error == InvalidNumber(value)
  {
  }

  /** A string converts exactly when it is one of the thirteen names, to
    * that name's number; any other string throws. */
  lemma AccelNumberIsTable(value: string)
    ensures AccelNumber(value).Ok? <==> value in AccelNames
    ensures AccelNumber(value).Ok? ==> 0 <= AccelNumber(value).value < |AccelNames| && AccelNames[AccelNumber(value).value] == value
    ensures AccelNumber(value).Err? ==> AccelNumber(value).error == InvalidString(value)
  {
  }

  /** Number to name and back gives the number. */
  lemma NumberNameRoundTrip(value: int)
    requires AccelName(value).Ok?
    ensures AccelNumber(AccelName(value).value) == Ok(value)
  {
    AccelNameIsTable(value);
    AccelNumberIsTable(AccelNames[value]);
    AccelNamesDistinct();
  }

  /** Name to number and back gives the name. */
  lemma NameNumberRoundTrip(value: string)
    requires AccelNumber(value).Ok?
    ensures AccelName(AccelNumber(value).value) == Ok(value)
  {
    AccelNumberIsTable(value);
    AccelNameIsTable(AccelNumber(value).value);
  }

  /** The names are distinct, so the string switch is one-to-one. */
  lemma AccelNamesDistinct()
    ensures forall i, j :: 0 <= i < j < |AccelNames| ==> AccelNames[i] != AccelNames[j]
  {
  }

  /** The board names every gesture but the first as the firmware's
    * gesture_name_map does; EVT_NONE is "none" here and "" there. */
  lemma AccelNamesMatchFirmware()
    ensures |AccelNames| == |Gestures.GestureNames|
    ensures forall i :: 0 < i < |AccelNames| ==> AccelNames[i] == Gestures.GestureNames[i]
    ensures AccelNames[0] == "none" && Gestures.GestureNames[0] == ""
  {
  }
}
