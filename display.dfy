// The display object (bitsflow_display.c): how show and scroll turn their
// argument into either an immediate picture or an animation source, and the
// display's own state: on/off, the pins it holds, and its pixel checks.

module Displays {
  import opened Wrappers
  import opened Words
  import Screen
  import Pictures
  import opened Pins
  import opened PinModes
  import opened Scrolling

  /** DEFAULT_PRINT_SPEED_MS, the default delay of show. */
  const DefaultPrintSpeedMs: int := 400

  /** The object handed to show or scroll. A float carries the text str()
    * makes of it; a bytes object carries its bytes; an other object (a list
    * of images, say) is passed on. */
  datatype ShowArg =
    | IntArg(n: int)
    | BoolArg(b: bool)
    | FloatArg(repr: string)
    | StrArg(s: string)
    | ImageArg(img: Pictures.Image)
    | BytesArg(id: int, data: seq<uint8>)
    | OtherArg(id: int)

  /** What is animated. */
  datatype Source =
    | Facade(text: string)              // bitsflow_string_facade: one glyph per frame
    | OneTuple(img: Pictures.Image)              // a 1-tuple holding the image
    | Passed(id: int)                   // the argument itself
    | Scroller(s: ScrollingString)      // scrolling_string_image_iterable
    | Repeat(inner: Source)             // bitsflow_repeat_iterator around it

  /** The calls show and scroll make into the display driver. */
  datatype DisplayCall =
    | Stop                              // bitsflow_display_stop
    | ShowGlyph(c: char)                // bitsflow_display_show of the glyph image of c
    | ShowImage(img: Pictures.Image)             // bitsflow_display_show of the image
    | Animate(src: Source, delay: int, clear: bool, wait: bool)

  /** The decimal digit character of d. */
  function DigitChar(d: int): (c: char)
    requires 0 <= d < 10
    ensures '0' <= c <= '9' && c as int - '0' as int == d
  {
    (d + '0' as int) as char
  }

  /** The decimal digits of n, most significant first. */
  function NatDigits(n: nat): (s: string)
    ensures |s| >= 1 && (|s| == 1 <==> n < 10)
    ensures forall i :: 0 <= i < |s| ==> '0' <= s[i] <= '9'
    decreases n
  {
    if n < 10 then [DigitChar(n)] else NatDigits(n / 10) + [DigitChar(n % 10)]
  }

  /** The number a string of decimal digits spells. */
  function DecimalValue(s: string): (v: int)
    requires forall i :: 0 <= i < |s| ==> '0' <= s[i] <= '9'
    ensures v >= 0
  {
    if s == [] then 0 else DecimalValue(s[..|s| - 1]) * 10 + (s[|s| - 1] as int - '0' as int)
  }

  /** Reading back the digits gives the number. */
  lemma {:induction false} NatDigitsRoundTrip(n: nat)
    ensures DecimalValue(NatDigits(n)) == n
    decreases n
  {
    if n >= 10 {
      NatDigitsRoundTrip(n / 10);
      var s := NatDigits(n);
      assert s[..|s| - 1] == NatDigits(n / 10);
    }
  }

  /** str() of an integer: an optional minus sign and the decimal digits. */
  function IntToString(n: int): (s: string)
    ensures |s| >= 1
    ensures n >= 0 ==> s == NatDigits(n)
    ensures n < 0 ==> s == "-" + NatDigits(-n) && |s| >= 2
  {
    if n < 0 then "-" + NatDigits(-n) else NatDigits(n)
  }

  /** The conversion both show and scroll apply first: integers (booleans
    * among them) and floats become their str() text. */
  function Normalise(a: ShowArg): (r: ShowArg)
    ensures !r.IntArg? && !r.BoolArg? && !r.FloatArg?
    ensures a.StrArg? || a.ImageArg? || a.BytesArg? || a.OtherArg? ==> r == a
  {
    match a
    case IntArg(n) => StrArg(IntToString(n))
    case BoolArg(b) => StrArg(if b then "True" else "False")
    case FloatArg(repr) => StrArg(repr)
    case _ => a
  }

  /** The source wrapped in the repeat iterator when loop is set. */
  function Looped(src: Source, loop: bool): (r: Source)
  {
    if loop then Repeat(src) else src
  }

  /** bitsflow_display_show_func: the driver calls made for
    * show(arg, delay, clear=clear, wait=wait, loop=loop). */
  function Show(arg: ShowArg, delay: int, clear: bool, wait: bool, loop: bool): (r: seq<DisplayCall>)
    ensures 1 <= |r| <= 2
  {
    [Stop] +
    match Normalise(arg)
    case StrArg(s) =>
      if |s| == 0 then []
      else if |s| == 1 && !clear && !loop then [ShowGlyph(s[0])]
      else [Animate(Looped(Facade(s), loop), delay, clear, wait)]
    case ImageArg(img) =>
      if !clear && !loop then [ShowImage(img)]
      else [Animate(Looped(OneTuple(img), loop), delay, clear, wait)]
    case BytesArg(id, _) => [Animate(Looped(Passed(id), loop), delay, clear, wait)]
    case OtherArg(id) => [Animate(Looped(Passed(id), loop), delay, clear, wait)]
    case _ => []
  }

  /** show always stops the running animation first, also when it then does
    * nothing (the empty string); it draws at once exactly for one character
    * or an image without clear or loop; otherwise it animates, through the
    * repeat iterator exactly when loop is set, with the caller's delay,
    * clear and wait. */
  lemma ShowDecisions(arg: ShowArg, delay: int, clear: bool, wait: bool, loop: bool)
    ensures var r := Show(arg, delay, clear, wait, loop);
      var a := Normalise(arg);
      && r[0] == Stop
      && (|r| == 1 <==> a.StrArg? && |a.s| == 0)
      && (|r| == 2 && (r[1].ShowGlyph? || r[1].ShowImage?) <==>
            !clear && !loop && ((a.StrArg? && |a.s| == 1) || a.ImageArg?))
      && (|r| == 2 && r[1].Animate? ==>
            r[1].delay == delay && r[1].clear == clear && r[1].wait == wait && (r[1].src.Repeat? <==> loop))
      && (|r| == 2 && r[1].Animate? && a.StrArg? ==> r[1].src == Looped(Facade(a.s), loop))
  {
  }

  /** An integer is shown as its decimal text: 0..9 at once as one digit
    * glyph (without clear and loop), and every other integer, negative ones
    * included, as a facade over its digits. */
  lemma ShowInteger(n: int, delay: int, clear: bool, wait: bool, loop: bool)
    ensures var r := Show(IntArg(n), delay, clear, wait, loop);
      && |r| == 2
      && (0 <= n < 10 && !clear && !loop ==> r[1] == ShowGlyph(DigitChar(n)))
      && (n < 0 || n >= 10 ==> r[1] == Animate(Looped(Facade(IntToString(n)), loop), delay, clear, wait))
  {
    var s := IntToString(n);
    if 0 <= n < 10 {
      assert s == [DigitChar(n)];
    }
  }

  /** The error of scroll on an object with no text. */
  datatype ScrollError = NotAString   // TypeError of mp_obj_str_get_data

  /** The text a buffer of bytes stands for, one character per byte. */
  function ByteText(data: seq<uint8>): (t: string)
    ensures |t| == |data|
    ensures forall i :: 0 <= i < |data| ==> t[i] as int == data[i]
  {
    seq(|data|, i requires 0 <= i < |data| => data[i] as char)
  }

  /** The text mp_obj_str_get_data finds in a str or a bytes object. */
  function TextOf(a: ShowArg): (r: Option<string>)
    ensures r.Some? <==> a.StrArg? || a.BytesArg?
    ensures a.StrArg? ==> r == Some(a.s)
    ensures a.BytesArg? ==> r == Some(ByteText(a.data))
  {
    match a
    case StrArg(s) => Some(s)
    case BytesArg(_, data) => Some(ByteText(data))
    case _ => None
  }

  /** bitsflow_display_scroll_func: the scrolling iterable over the text,
    * animated without clear; monospace and loop go to the iterable. A bytes
    * object scrolls too; any other object has no text. */
  function Scroll(arg: ShowArg, delay: int, wait: bool, monospace: bool, loop: bool): (r: Result<DisplayCall, ScrollError>)
    ensures r.Ok? <==> Normalise(arg).StrArg? || arg.BytesArg?
    ensures r.Ok? ==> r.value == Animate(Scroller(ScrollingString(TextOf(Normalise(arg)).value, monospace, loop)), delay, false, wait)
    ensures arg.BytesArg? ==> r.Ok? && r.value.src.s.text == ByteText(arg.data)
  {
    match TextOf(Normalise(arg))
    case Some(s) => Ok(Animate(Scroller(ScrollingString(s, monospace, loop)), delay, false, wait))
    case None => Err(NotAString)
  }

  /** Integers scroll as their decimal text, like show. */
  lemma ScrollInteger(n: int, delay: int, wait: bool, monospace: bool, loop: bool)
    ensures Scroll(IntArg(n), delay, wait, monospace, loop) ==
      Ok(Animate(Scroller(ScrollingString(IntToString(n), monospace, loop)), delay, false, wait))
    ensures Scroll(IntArg(n), delay, wait, monospace, loop).value.src.s.text != []
  {
  }

  /** Acquiring each pin of a list in turn, stopping at the first refusal. */
  function AcquireAll(s: PinState, pins: seq<Pin>, m: Mode, playing: bool): (r: (Outcome<PinError>, PinState))
    requires WellFormed(s.table)
    ensures WellFormed(r.1.table)
    decreases |pins|
  {
    if pins == [] then (Pass, s)
    else
      var (first, s1) := AcquireSpec(s, pins[0], m, playing);
      if first.Err? then (Fail(first.error), s1)
      else AcquireAll(s1, pins[1..], m, playing)
  }

  /** Freeing each pin of a list. */
  function FreeAll(t: seq<int>, pins: seq<Pin>): (r: seq<int>)
    requires |t| == 32
    ensures |r| == 32
    decreases |pins|
  {
    if pins == [] then t else FreeAll(Freed(t, Some(pins[0])), pins[1..])
  }

  /** Pins with pairwise distinct table entries. */
  ghost predicate Distinct(pins: seq<Pin>) {
    forall i, j :: 0 <= i < j < |pins| ==> pins[i].number != pins[j].number
  }

  /** Table entries of none of the pins. */
  ghost predicate Elsewhere(k: int, pins: seq<Pin>) {
    forall i :: 0 <= i < |pins| ==> pins[i].number != k
  }

  /** When every acquire succeeds, every pin of the list ends in mode m; in
    * any case only their entries change and the audio stays owned. (For
    * read_digital a button pin would stay a button.) */
  lemma {:induction false} AcquireAllEndsIn(s: PinState, pins: seq<Pin>, m: Mode, playing: bool)
    requires WellFormed(s.table) && AudioOwned(s.table, s.routed)
    requires m != Music && m != AudioPlay && m != Mode.ReadDigital
    requires Distinct(pins)
    ensures var (r, s') := AcquireAll(s, pins, m, playing);
      && AudioOwned(s'.table, s'.routed)
      && (forall k :: 0 <= k < 32 && Elsewhere(k, pins) ==> s'.table[k] == s.table[k])
      && (r.Pass? ==> forall i :: 0 <= i < |pins| ==> ModeIn(s'.table, pins[i]) == m)
    decreases |pins|
  {
    if pins != [] {
      var (first, s1) := AcquireSpec(s, pins[0], m, playing);
      AcquireTouchesOnlyItsPin(s, pins[0], m, playing);
      AcquireSpecMeans(s, pins[0], m, playing);
      if first.Ok? {
        var rest := pins[1..];
        assert Distinct(rest);
        AcquireAllEndsIn(s1, rest, m, playing);
        var (r, s') := AcquireAll(s1, rest, m, playing);
        assert Elsewhere(pins[0].number, rest);
        assert s'.table[pins[0].number] == s1.table[pins[0].number];
        if first.value {
          assert ModeIn(s1.table, pins[0]) == m;
        } else {
          assert s1 == s;
          assert Decide(ModeIn(s.table, pins[0]), m, playing) == Keep;
          assert ModeIn(s1.table, pins[0]) == m;
        }
        forall k | 0 <= k < 32 && Elsewhere(k, pins)
          ensures s'.table[k] == s.table[k]
        {
          assert Elsewhere(k, rest) by {
            forall i | 0 <= i < |rest| ensures rest[i].number != k {
              assert rest[i] == pins[i + 1];
            }
          }
        }
        if r.Pass? {
          forall i | 0 <= i < |pins|
            ensures ModeIn(s'.table, pins[i]) == m
          {
            if i > 0 {
              assert rest[i - 1] == pins[i];
            }
          }
        }
      }
    }
  }

  /** After freeing, every pin of the list is unused and the others keep
    * their entries. */
  lemma {:induction false} FreeAllEndsIn(t: seq<int>, pins: seq<Pin>)
    requires |t| == 32
    ensures forall i :: 0 <= i < |pins| ==> FreeAll(t, pins)[pins[i].number] == ModeIndex(Unused)
    ensures forall k :: 0 <= k < 32 && Elsewhere(k, pins) ==> FreeAll(t, pins)[k] == t[k]
    decreases |pins|
  {
    if pins != [] {
      var t1 := Freed(t, Some(pins[0]));
      FreeAllEndsIn(t1, pins[1..]);
      forall i | 0 <= i < |pins|
        ensures FreeAll(t, pins)[pins[i].number] == ModeIndex(Unused)
      {
        if i > 0 {
          assert pins[1..][i - 1] == pins[i];
        } else if !Elsewhere(pins[0].number, pins[1..]) {
          var j :| 0 <= j < |pins[1..]| && pins[1..][j].number == pins[0].number;
          assert pins[1..][j] == pins[j + 1];
        }
      }
      forall k | 0 <= k < 32 && Elsewhere(k, pins)
        ensures FreeAll(t, pins)[k] == t[k]
      {
        assert Elsewhere(k, pins[1..]) by {
          forall i | 0 <= i < |pins[1..]| ensures pins[1..][i].number != k {
            assert pins[1..][i] == pins[i + 1];
          }
        }
      }
    }
  }

  /** The errors of the display's pixel access. */
  datatype DisplayError =
    | IndexOutOfBounds        // ValueError "index out of bounds"
    | BrightnessOutOfBounds   // ValueError "brightness out of bounds"

  /** The index check of display set_pixel and get_pixel. */
  predicate OnScreen(x: int, y: int) {
    0 <= x < Screen.W && 0 <= y < Screen.H
  }

  /** bitsflow_display_obj_t: whether the display is on, and the LED
    * brightnesses the board holds (leds[x, y]). */
  class Display {
    var active: bool
    const leds: array2<int>

    predicate Valid() {
      leds.Length0 == Screen.W && leds.Length1 == Screen.H
    }

    /** The display object at start-up is on. */
    constructor ()
      ensures Valid() && active && fresh(leds)
    {
      active := true;
      leds := new int[Screen.W, Screen.H]((x, y) => 0);
    }

    /** display.is_on(): the flag that On sets and Off clears. */
    function IsOn(): (b: bool)
      reads this
      ensures b <==> active
    {
      active
    }

    /** display.on(): acquire the five display pins for the display in turn
      * (a refusal raises and leaves the display as it was), then mark it on.
      * Pins that already drive the display are kept as they are. */
    method On(t: PinTable, playing: bool) returns (r: Outcome<PinError>)
      requires t.Valid()
      modifies this`active, t.indices, t`routed, t`halAudio
      ensures t.Valid()
      ensures (r, t.State()) == AcquireAll(old(t.State()), DisplayPins, Mode.Display, playing)
      ensures r.Pass? ==> active && forall i :: 0 <= i < |DisplayPins| ==> t.GetMode(DisplayPins[i]) == Mode.Display
      ensures r.Fail? ==> active == old(active)
    {
      ghost var s0 := t.State();
      AcquireAllEndsIn(s0, DisplayPins, Mode.Display, playing);
      assert DisplayPins[1..] == [P4, P6, P7, P10];
      assert DisplayPins[2..] == [P6, P7, P10];
      assert DisplayPins[3..] == [P7, P10];
      assert DisplayPins[4..] == [P10];
      assert DisplayPins[5..] == [];
      var a := t.Acquire(P3, Mode.Display, playing);
      assert AcquireAll(s0, DisplayPins, Mode.Display, playing) ==
        if a.Err? then (Fail(a.error), t.State()) else AcquireAll(t.State(), DisplayPins[1..], Mode.Display, playing);
      if a.Err? { return Fail(a.error); }
      ghost var s1 := t.State();
      a := t.Acquire(P4, Mode.Display, playing);
      assert AcquireAll(s1, DisplayPins[1..], Mode.Display, playing) ==
        if a.Err? then (Fail(a.error), t.State()) else AcquireAll(t.State(), DisplayPins[2..], Mode.Display, playing);
      if a.Err? { return Fail(a.error); }
      ghost var s2 := t.State();
      a := t.Acquire(P6, Mode.Display, playing);
      assert AcquireAll(s2, DisplayPins[2..], Mode.Display, playing) ==
        if a.Err? then (Fail(a.error), t.State()) else AcquireAll(t.State(), DisplayPins[3..], Mode.Display, playing);
      if a.Err? { return Fail(a.error); }
      ghost var s3 := t.State();
      a := t.Acquire(P7, Mode.Display, playing);
      assert AcquireAll(s3, DisplayPins[3..], Mode.Display, playing) ==
        if a.Err? then (Fail(a.error), t.State()) else AcquireAll(t.State(), DisplayPins[4..], Mode.Display, playing);
      if a.Err? { return Fail(a.error); }
      ghost var s4 := t.State();
      a := t.Acquire(P10, Mode.Display, playing);
      assert AcquireAll(s4, DisplayPins[4..], Mode.Display, playing) ==
        if a.Err? then (Fail(a.error), t.State()) else AcquireAll(t.State(), DisplayPins[5..], Mode.Display, playing);
      if a.Err? { return Fail(a.error); }
      active := true;
      return Pass;
    }

    /** display.off(): mark the display off and free the five display pins. */
    method Off(t: PinTable)
      requires t.Valid()
      modifies this`active, t.indices
      ensures t.Valid() && !active
      ensures t.Table() == FreeAll(old(t.Table()), DisplayPins)
      ensures forall i :: 0 <= i < |DisplayPins| ==> t.GetMode(DisplayPins[i]) == Unused
      ensures t.routed == old(t.routed) && t.halAudio == old(t.halAudio)
    {
      active := false;
      ghost var t0 := t.Table();
      assert DisplayPins[1..] == [P4, P6, P7, P10];
      assert DisplayPins[2..] == [P6, P7, P10];
      assert DisplayPins[3..] == [P7, P10];
      assert DisplayPins[4..] == [P10];
      assert DisplayPins[5..] == [];
      t.Free(Some(P3));
      assert FreeAll(t0, DisplayPins) == FreeAll(t.Table(), DisplayPins[1..]);
      ghost var t1 := t.Table();
      t.Free(Some(P4));
      assert FreeAll(t1, DisplayPins[1..]) == FreeAll(t.Table(), DisplayPins[2..]);
      ghost var t2 := t.Table();
      t.Free(Some(P6));
      assert FreeAll(t2, DisplayPins[2..]) == FreeAll(t.Table(), DisplayPins[3..]);
      ghost var t3 := t.Table();
      t.Free(Some(P7));
      assert FreeAll(t3, DisplayPins[3..]) == FreeAll(t.Table(), DisplayPins[4..]);
      ghost var t4 := t.Table();
      t.Free(Some(P10));
      assert FreeAll(t4, DisplayPins[4..]) == FreeAll(t.Table(), DisplayPins[5..]);
      FreeAllEndsIn(old(t.Table()), DisplayPins);
      ModeIndexRoundTrip(Unused);
    }

    /** display.set_pixel(x, y, b): the index is checked before the brightness. */
    method SetPixel(x: int, y: int, b: int) returns (r: Outcome<DisplayError>)
      requires Valid()
      modifies leds
      ensures !OnScreen(x, y) ==> r == Fail(IndexOutOfBounds)
      ensures OnScreen(x, y) && !(0 <= b <= Screen.MAX) ==> r == Fail(BrightnessOutOfBounds)
      ensures r.Fail? ==> forall i, j :: 0 <= i < Screen.W && 0 <= j < Screen.H ==> leds[i, j] == old(leds[i, j])
      ensures r.Pass? ==> leds[x, y] == b
      ensures r.Pass? ==> forall i, j :: 0 <= i < Screen.W && 0 <= j < Screen.H && (i != x || j != y) ==> leds[i, j] == old(leds[i, j])
    {
      if x < 0 || y < 0 || x >= Screen.W || y >= Screen.H {
        return Fail(IndexOutOfBounds);
      }
      if b < 0 || b > Screen.MAX {
        return Fail(BrightnessOutOfBounds);
      }
      leds[x, y] := b;
      return Pass;
    }

    /** display.get_pixel(x, y): the same index check, then the LED's brightness. */
    method GetPixel(x: int, y: int) returns (r: Result<int, DisplayError>)
      requires Valid()
      ensures r.Err? <==> !OnScreen(x, y)
      ensures r.Err? ==> r.error == IndexOutOfBounds
      ensures r.Ok? ==> r.value == leds[x, y]
    {
      if x < 0 || y < 0 || x >= Screen.W || y >= Screen.H {
        return Err(IndexOutOfBounds);
      }
      return Ok(leds[x, y]);
    }
  }
}
