// The board's pin objects and the pin modes (modbitsflow.h, bitsflow_pin.c,
// bitsflow_pinmode.c): which pins exist, of which kind, in which mode they
// start, and how a mode is released.

module Pins {
  import opened Wrappers

  /** The four pin object types: touch, analog/digital, digital, touch-only (the logo). */
  datatype Kind = Touch | AnalogDigital | Digital | TouchOnly

  /** The pin modes of the bitsflow_pinmodes table. */
  datatype Mode =
    | Unused | ReadDigital | WriteDigital | Display | Button
    | Music | AudioPlay | TouchMode | I2C | Spi | WriteAnalog

  /** What leaving a mode does (the release entry of bitsflow_pinmodes). */
  datatype Release =
    | Noop          // nothing to undo
    | Refuse        // pinmode_error: the pin is owned and cannot be taken
    | AudioMusic    // audio_music_release: refuse while sound plays, else unroute audio
    | AnalogStop    // analog_release, which does nothing yet

  /** The number of a mode in bitsflow_pinmodes (MODE_UNUSED .. MODE_WRITE_ANALOG). */
  function ModeIndex(m: Mode): (i: int)
    ensures 1 <= i <= 11
  {
    match m
    case Unused => 1
    case ReadDigital => 2
    case WriteDigital => 3
    case Display => 4
    case Button => 5
    case Music => 6
    case AudioPlay => 7
    case TouchMode => 8
    case I2C => 9
    case Spi => 10
    case WriteAnalog => 11
  }

  /** The mode stored under table index i. */
  function ModeAt(i: int): (m: Mode)
    requires 1 <= i <= 11
    ensures ModeIndex(m) == i
  {
    if i == 1 then Unused
    else if i == 2 then ReadDigital
    else if i == 3 then WriteDigital
    else if i == 4 then Display
    else if i == 5 then Button
    else if i == 6 then Music
    else if i == 7 then AudioPlay
    else if i == 8 then TouchMode
    else if i == 9 then I2C
    else if i == 10 then Spi
    else WriteAnalog
  }

  /** Storing a mode by its index and reading it back gives the same mode,
    * so distinct modes have distinct indices. */
  lemma ModeIndexRoundTrip(m: Mode)
    ensures ModeAt(ModeIndex(m)) == m
  {
    assert ModeIndex(ModeAt(ModeIndex(m))) == ModeIndex(m);
    match m
    case Unused =>
    case ReadDigital =>
    case WriteDigital =>
    case Display =>
    case Button =>
    case Music =>
    case AudioPlay =>
    case TouchMode =>
    case I2C =>
    case Spi =>
    case WriteAnalog =>
  }

  /** The name pin.get_mode() reports (the qstr of the table entry). */
  function ModeName(m: Mode): (s: string)
    ensures |s| > 0
  {
    match m
    case Unused => "unused"
    case ReadDigital => "read_digital"
    case WriteDigital => "write_digital"
    case Display => "display"
    case Button => "button"
    case Music => "music"
    case AudioPlay => "audio"
    case TouchMode => "touch"
    case I2C => "i2c"
    case Spi => "spi"
    case WriteAnalog => "write_analog"
  }

  /** The release function of each mode. */
  function ReleaseOf(m: Mode): (r: Release)
    ensures r == Refuse <==> m in {Display, Button, I2C, Spi}
    ensures r == AudioMusic <==> m in {Music, AudioPlay}
  {
    match m
    case Unused => Noop
    case ReadDigital => Noop
    case WriteDigital => Noop
    case Display => Refuse
    case Button => Refuse
    case Music => AudioMusic
    case AudioPlay => AudioMusic
    case TouchMode => Noop
    case I2C => Refuse
    case Spi => Refuse
    case WriteAnalog => AnalogStop
  }

  /** Index of the pin in the 32-entry mode table. */
  type PinNumber = n: int | 0 <= n < 32

  /** No pin object starts in the music or audio mode: those are entered
    * only by routing the audio to the pin. */
  type InitialMode = m: Mode | m != Music && m != AudioPlay witness Unused

  /** bitsflow_pin_obj_t: the pin's type, its board number and its mode at reset.
    * The GPIO identifier is the board's and is represented by the number. */
  datatype Pin = Pin(kind: Kind, number: PinNumber, initial: InitialMode)

  const P0: Pin := Pin(Touch, 0, Unused)
  const P1: Pin := Pin(Touch, 1, Unused)
  const P2: Pin := Pin(Touch, 2, Unused)
  const P3: Pin := Pin(AnalogDigital, 3, Display)
  const P4: Pin := Pin(AnalogDigital, 4, Display)
  const P5: Pin := Pin(Digital, 5, Button)
  const P6: Pin := Pin(Digital, 6, Display)
  const P7: Pin := Pin(Digital, 7, Display)
  const P8: Pin := Pin(Digital, 8, Unused)
  const P9: Pin := Pin(Digital, 9, Unused)
  const P10: Pin := Pin(AnalogDigital, 10, Display)
  const P11: Pin := Pin(Digital, 11, Button)
  const P12: Pin := Pin(Digital, 12, Unused)
  const P13: Pin := Pin(Digital, 13, Unused)
  const P14: Pin := Pin(Digital, 14, Unused)
  const P15: Pin := Pin(Digital, 15, Unused)
  const P16: Pin := Pin(Digital, 16, Unused)
  const P19: Pin := Pin(Digital, 19, I2C)
  const P20: Pin := Pin(Digital, 20, I2C)
  const Logo: Pin := Pin(TouchOnly, 30, Unused)
  const Speaker: Pin := Pin(Digital, 31, Unused)

  /** The pin the audio goes to when none is given (bitsflow_pin_default_audio_obj). */
  const DefaultAudio: Pin := P0

  /** Every pin object of the board. */
  const Board: seq<Pin> :=
    [P0, P1, P2, P3, P4, P5, P6, P7, P8, P9, P10, P11, P12, P13, P14, P15, P16, P19, P20, Logo, Speaker]

  /** The pins that drive the LED matrix (display on and off). */
  const DisplayPins: seq<Pin> := [P3, P4, P6, P7, P10]

  /** No two pin objects share a table entry, and the display pins are
    * board pins that start in the display mode. */
  lemma BoardTable()
    ensures forall i, j :: 0 <= i < j < |Board| ==> Board[i].number != Board[j].number
    ensures forall i :: 0 <= i < |DisplayPins| ==> DisplayPins[i] in Board && DisplayPins[i].initial == Display
  {
  }

  /** A Python object handed to a function that wants a pin. */
  datatype Obj = NoneObj | PinObj(pin: Pin) | OtherObj

  /** The errors the pin layer raises. */
  datatype PinError =
    | InMode(number: int, mode: Mode)    // ValueError "Pin %d in %q mode"
    | ExpectingPin                       // TypeError "expecting a pin"
    | SpeakerNotAllowed                  // ValueError "pin_speaker not allowed"
    | ValueNotBit                        // ValueError "value must be 0 or 1"
    | ValueOutOfRange                    // ValueError "value must be between 0 and 1023"
    | InvalidPeriod                      // ValueError "invalid period"

  /** bitsflow_obj_get_pin: touch, analog/digital and digital pins are pins;
    * the touch-only logo and every other object are refused. */
  function GetPin(o: Obj): (r: Result<Pin, PinError>)
    ensures r.Ok? <==> o.PinObj? && o.pin.kind != TouchOnly
    ensures r.Ok? ==> r.value == o.pin
    ensures r.Err? ==> r.error == ExpectingPin
  {
    match o
    case PinObj(p) =>
      (match p.kind
       case Touch => Ok(p)
       case AnalogDigital => Ok(p)
       case Digital => Ok(p)
       case TouchOnly => Err(ExpectingPin))
    case _ => Err(ExpectingPin)
  }
}
