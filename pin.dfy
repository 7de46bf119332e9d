// The pin methods of bitsflow_pin.c as far as they move pins between modes:
// their argument checks and the acquisitions they make before handing the
// value to the board. The reads and writes of the pin level are the board's.

module PinOps {
  import opened Wrappers
  import opened Words
  import opened Pins
  import opened PinModes

  /** A raised error of acquire as the outcome of the calling method. */
  function OutcomeOf(r: Result<bool, PinError>): (o: Outcome<PinError>)
    ensures o.Pass? <==> r.Ok?
    ensures o.Fail? ==> r == Err(o.error)
  {
    if r.Ok? then Pass else Fail(r.error)
  }

  /** The check of write_digital: the value shifted right by one is zero. The
    * shift is arithmetic, so it is the floor of half the value. */
  predicate IsBit(v: int) {
    v / 2 == 0
  }

  /** Only 0 and 1 pass, negative values included. */
  lemma IsBitExactly(v: int)
    ensures IsBit(v) <==> v == 0 || v == 1
  {
    if v < 0 {
      assert v / 2 < 0;
    } else if v >= 2 {
      assert v / 2 >= 1;
    }
  }

  /** pin.write_digital(v): v must be 0 or 1, then the pin is acquired for
    * digital output. */
  method WriteDigital(t: PinTable, p: Pin, v: int32, playing: bool) returns (r: Outcome<PinError>)
    requires t.Valid()
    modifies t.indices, t`routed, t`halAudio
    ensures t.Valid()
    ensures !(v == 0 || v == 1) ==> r == Fail(ValueNotBit) && t.State() == old(t.State())
    ensures v == 0 || v == 1 ==>
      var a := AcquireSpec(old(t.State()), p, Mode.WriteDigital, playing);
      r == OutcomeOf(a.0) && t.State() == a.1
  {
    IsBitExactly(v);
    if !IsBit(v) {
      return Fail(ValueNotBit);
    }
    var acquired := t.Acquire(p, Mode.WriteDigital, playing);
    return OutcomeOf(acquired);
  }

  /** pin.read_digital() and pin.set_pull(pull): the pin is acquired for
    * digital input (a button pin keeps the button mode). */
  method ReadDigital(t: PinTable, p: Pin, playing: bool) returns (r: Outcome<PinError>)
    requires t.Valid()
    modifies t.indices, t`routed, t`halAudio
    ensures t.Valid()
    ensures var a := AcquireSpec(old(t.State()), p, Mode.ReadDigital, playing);
      r == OutcomeOf(a.0) && t.State() == a.1
  {
    var acquired := t.Acquire(p, Mode.ReadDigital, playing);
    return OutcomeOf(acquired);
  }

  /** pin.get_pull(): only in the read_digital or button mode; otherwise the
    * "Pin %d in %q mode" error. Nothing changes in either case. */
  method GetPull(t: PinTable, p: Pin) returns (r: Outcome<PinError>)
    requires t.Valid()
    ensures r.Pass? <==> t.GetMode(p) == Mode.ReadDigital || t.GetMode(p) == Button
    ensures r.Fail? ==> r.error == InMode(p.number, t.GetMode(p))
  {
    var mode := t.GetMode(p);
    if mode != Mode.ReadDigital && mode != Button {
      return Fail(InMode(p.number, mode));
    }
    return Pass;
  }

  /** The whole effect of write_analog(v) once v is in [0, 1023]: acquire for
    * analog output, and for 0 acquire the unused mode after the write. */
  function WriteAnalogSpec(s: PinState, p: Pin, v: int, playing: bool): (r: (Outcome<PinError>, PinState))
    requires WellFormed(s.table)
    ensures WellFormed(r.1.table)
  {
    var (first, s1) := AcquireSpec(s, p, Mode.WriteAnalog, playing);
    if first.Err? then (Fail(first.error), s1)
    else if v != 0 then (Pass, s1)
    else
      var (second, s2) := AcquireSpec(s1, p, Unused, playing);
      (OutcomeOf(second), s2)
  }

  /** Writing 0 leaves the pin unused, never raises after the first acquire,
    * and writing any other accepted value leaves it in the analog mode. */
  lemma WriteAnalogEndsIn(s: PinState, p: Pin, v: int, playing: bool)
    requires WellFormed(s.table)
    ensures var (r, s') := WriteAnalogSpec(s, p, v, playing);
      && (r.Pass? <==> AcquireSpec(s, p, Mode.WriteAnalog, playing).0.Ok?)
      && (r.Pass? && v == 0 ==> ModeIn(s'.table, p) == Unused)
      && (r.Pass? && v != 0 ==> ModeIn(s'.table, p) == Mode.WriteAnalog)
  {
    var (first, s1) := AcquireSpec(s, p, Mode.WriteAnalog, playing);
    AcquireSpecMeans(s, p, Mode.WriteAnalog, playing);
    if first.Ok? {
      ModeIndexRoundTrip(Mode.WriteAnalog);
      assert ModeIn(s1.table, p) == Mode.WriteAnalog;
      AcquireSpecMeans(s1, p, Unused, playing);
    }
  }

  /** pin.write_analog(v) for an integer v: v must lie in [0, 1023]. */
  method WriteAnalog(t: PinTable, p: Pin, v: int32, playing: bool) returns (r: Outcome<PinError>)
    requires t.Valid()
    modifies t.indices, t`routed, t`halAudio
    ensures t.Valid()
    ensures (v < 0 || v > 1023) ==> r == Fail(ValueOutOfRange) && t.State() == old(t.State())
    ensures 0 <= v <= 1023 ==> (r, t.State()) == WriteAnalogSpec(old(t.State()), p, v, playing)
  {
    if v < 0 || v > 1023 {
      return Fail(ValueOutOfRange);
    }
    var first := t.Acquire(p, Mode.WriteAnalog, playing);
    if first.Err? {
      return Fail(first.error);
    }
    if v == 0 {
      var second := t.Acquire(p, Unused, playing);
      return OutcomeOf(second);
    }
    return Pass;
  }

  /** pin.read_analog(): the pin is acquired in the unused mode. */
  method ReadAnalog(t: PinTable, p: Pin, playing: bool) returns (r: Outcome<PinError>)
    requires t.Valid()
    modifies t.indices, t`routed, t`halAudio
    ensures t.Valid()
    ensures var a := AcquireSpec(old(t.State()), p, Unused, playing);
      r == OutcomeOf(a.0) && t.State() == a.1
  {
    var acquired := t.Acquire(p, Unused, playing);
    return OutcomeOf(acquired);
  }

  /** pin.is_touched() and pin.set_touch_mode(m): a pin not in the touch or
    * button mode is acquired for touch. */
  method PrepareTouch(t: PinTable, p: Pin, playing: bool) returns (r: Outcome<PinError>)
    requires t.Valid()
    modifies t.indices, t`routed, t`halAudio
    ensures t.Valid()
    ensures old(t.GetMode(p)) == TouchMode || old(t.GetMode(p)) == Button ==> r == Pass && t.State() == old(t.State())
    ensures old(t.GetMode(p)) != TouchMode && old(t.GetMode(p)) != Button ==>
      var a := AcquireSpec(old(t.State()), p, TouchMode, playing);
      r == OutcomeOf(a.0) && t.State() == a.1
  {
    var mode := t.GetMode(p);
    if mode != TouchMode && mode != Button {
      var acquired := t.Acquire(p, TouchMode, playing);
      return OutcomeOf(acquired);
    }
    return Pass;
  }

  /** pin.set_analog_period(ms): the period in microseconds, ms * 1000 in a
    * machine word, is refused when the board answers -1. */
  method SetAnalogPeriod(ms: int32, boardAccepts: int32 -> bool) returns (r: Outcome<PinError>, us: int32)
    ensures -2147483 <= ms <= 2147483 ==> us == ms * 1000
    ensures (us - ms * 1000) % U32 == 0
    ensures r.Pass? <==> boardAccepts(us)
    ensures r.Fail? ==> r.error == InvalidPeriod
  {
    us := Signed32(ms * 1000);
    if !boardAccepts(us) {
      return Fail(InvalidPeriod), us;
    }
    return Pass, us;
  }

  /** pin.set_analog_period_microseconds(us): the period is passed unchanged. */
  method SetAnalogPeriodMicroseconds(us: int32, boardAccepts: int32 -> bool) returns (r: Outcome<PinError>)
    ensures r.Pass? <==> boardAccepts(us)
    ensures r.Fail? ==> r.error == InvalidPeriod
  {
    if !boardAccepts(us) {
      return Fail(InvalidPeriod);
    }
    return Pass;
  }
}
