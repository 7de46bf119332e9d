// The pin-mode arbiter and the audio router (bitsflow_pinmode.c and
// bitsflow_pinaudio.c). Every pin has an entry in a 32-entry table: 0 means
// "still in its initial mode", otherwise the index of its current mode. A pin
// changes mode only through acquire, which first runs the release function of
// the mode it leaves; the audio router keeps track of the one pin the sound
// output is sent to.

module PinModes {
  import opened Wrappers
  import opened Pins

  /** A table of 32 entries, each 0 or a mode index. */
  ghost predicate WellFormed(t: seq<int>) {
    |t| == 32 && forall i :: 0 <= i < |t| ==> 0 <= t[i] <= 11
  }

  /** bitsflow_pin_get_mode on a table: the initial mode while the entry is 0. */
  function ModeIn(t: seq<int>, p: Pin): (m: Mode)
    requires |t| == 32 && 0 <= t[p.number] <= 11
    ensures t[p.number] == 0 ==> m == p.initial
    ensures t[p.number] != 0 ==> ModeIndex(m) == t[p.number]
  {
    if t[p.number] == 0 then p.initial else ModeAt(t[p.number])
  }

  /** Only the pin the audio is routed to can be in the music or audio mode. */
  ghost predicate AudioOwned(t: seq<int>, routed: Option<Pin>) {
    forall i :: 0 <= i < |t| && (t[i] == ModeIndex(Music) || t[i] == ModeIndex(AudioPlay)) ==>
      routed.Some? && routed.value.number == i
  }

  /** bitsflow_obj_pin_free on a table: a given pin becomes unused. */
  function Freed(t: seq<int>, p: Option<Pin>): (r: seq<int>)
    requires |t| == 32
    ensures |r| == 32
    ensures forall i :: 0 <= i < 32 && (p.None? || i != p.value.number) ==> r[i] == t[i]
    ensures p.Some? ==> r[p.value.number] == ModeIndex(Unused)
  {
    if p.Some? then t[p.value.number := ModeIndex(Unused)] else t
  }

  /** What acquiring mode m does to a pin now in mode cur. */
  datatype Decision =
    | Keep                  // nothing changes, acquire answers false
    | Refused               // the release raises "Pin %d in %q mode"
    | Switch(unroute: bool) // the mode changes; unroute: the audio is unrouted first

  /** bitsflow_obj_pin_acquire, as a decision on the two modes. */
  function Decide(cur: Mode, m: Mode, playing: bool): (d: Decision)
    ensures d == Keep <==> cur == m || (cur == Button && m == ReadDigital)
    ensures d == Refused <==> d != Keep && (ReleaseOf(cur) == Refuse || (ReleaseOf(cur) == AudioMusic && playing))
    ensures d.Switch? && d.unroute <==> d != Keep && ReleaseOf(cur) == AudioMusic && !playing
  {
    if cur == Button && m == ReadDigital then Keep
    else if cur == m then Keep
    else match ReleaseOf(cur)
      case Refuse => Refused
      case AudioMusic => if playing then Refused else Switch(true)
      case Noop => Switch(false)
      case AnalogStop => Switch(false)
  }

  /** bitsflow_obj_pin_can_be_acquired: the mode's release does not always raise. */
  predicate CanBeAcquired(cur: Mode) {
    ReleaseOf(cur) != Refuse
  }

  /** A pin that can be acquired is refused only while sound plays, and then
    * only when it is in the music or audio mode; one that cannot be acquired
    * is refused every change of mode except button to read_digital. */
  lemma CanBeAcquiredMeans(cur: Mode, m: Mode, playing: bool)
    ensures CanBeAcquired(cur) && Decide(cur, m, playing) == Refused ==> playing && (cur == Music || cur == AudioPlay)
    ensures !CanBeAcquired(cur) && cur != m && !(cur == Button && m == ReadDigital) ==> Decide(cur, m, playing) == Refused
    ensures CanBeAcquired(cur) && !playing ==> Decide(cur, m, playing) != Refused
  {
  }

  /** The arbiter's whole state: the table, the routed pin, and the argument
    * of the last bitsflow_hal_audio_select_pin call (-1: no pin). */
  datatype PinState = PinState(table: seq<int>, routed: Option<Pin>, halAudio: int)

  /** bitsflow_obj_pin_acquire on a state: its answer and the state after it. */
  function AcquireSpec(s: PinState, p: Pin, m: Mode, playing: bool): (r: (Result<bool, PinError>, PinState))
    requires WellFormed(s.table)
    ensures WellFormed(r.1.table)
  {
    var cur := ModeIn(s.table, p);
    match Decide(cur, m, playing)
    case Keep => (Ok(false), s)
    case Refused => (Err(InMode(p.number, cur)), s)
    case Switch(unroute) =>
      if unroute then
        (Ok(true), PinState(Freed(s.table, s.routed)[p.number := ModeIndex(m)], None,
                            if s.routed.Some? then -1 else s.halAudio))
      else
        (Ok(true), s.(table := s.table[p.number := ModeIndex(m)]))
  }

  /** Acquire answers true exactly when the pin's mode changes, and then the
    * pin is in the new mode; it raises exactly when the release refuses, and
    * then nothing changes; a pin it neither acquires nor unroutes keeps its
    * entry; and it unroutes the audio only when leaving music or audio with
    * no sound playing. */
  lemma AcquireSpecMeans(s: PinState, p: Pin, m: Mode, playing: bool)
    requires WellFormed(s.table)
    ensures var (r, s') := AcquireSpec(s, p, m, playing);
      var cur := ModeIn(s.table, p);
      && (r == Ok(true) <==> Decide(cur, m, playing).Switch?)
      && (r == Ok(true) ==> ModeIn(s'.table, p) == m)
      && (r.Ok? ==> r.value || s' == s)
      && (r.Err? <==> Decide(cur, m, playing) == Refused)
      && (r.Err? ==> r.error == InMode(p.number, cur) && s' == s)
      && (forall q: Pin :: q.number != p.number && (s.routed.None? || q.number != s.routed.value.number) ==>
            ModeIn(s'.table, q) == ModeIn(s.table, q))
      && (s'.routed != s.routed ==> s'.routed == None && (cur == Music || cur == AudioPlay) && !playing)
  {
    var cur := ModeIn(s.table, p);
    ModeIndexRoundTrip(m);
    var d := Decide(cur, m, playing);
  }

  /** With the audio owned by the routed pin, acquiring a mode other than
    * music or audio changes the pin's own entry and no other, and keeps the
    * audio owned: when it unroutes, the routed pin was the acquired one. */
  lemma AcquireTouchesOnlyItsPin(s: PinState, p: Pin, m: Mode, playing: bool)
    requires WellFormed(s.table) && AudioOwned(s.table, s.routed) && m != Music && m != AudioPlay
    ensures var s' := AcquireSpec(s, p, m, playing).1;
      && AudioOwned(s'.table, s'.routed)
      && (forall i :: 0 <= i < 32 && i != p.number ==> s'.table[i] == s.table[i])
  {
    var cur := ModeIn(s.table, p);
    var s' := AcquireSpec(s, p, m, playing).1;
    if Decide(cur, m, playing) == Switch(true) {
      assert cur == Music || cur == AudioPlay;
      ModeIndexRoundTrip(cur);
      assert s.table[p.number] == ModeIndex(cur);
      assert s.routed.Some? && s.routed.value.number == p.number;
    }
    ModeIndexRoundTrip(m);
  }

  /** The mode table, the pin the audio is routed to, and the argument of the
    * last bitsflow_hal_audio_select_pin call (-1: no pin). */
  class PinTable {
    const indices: array<int>
    var routed: Option<Pin>
    var halAudio: int

    ghost predicate Valid()
      reads this, indices
    {
      indices.Length == 32 && WellFormed(indices[..]) && AudioOwned(indices[..], routed)
    }

    /** The current state. */
    function State(): (s: PinState)
      reads this, indices
    {
      PinState(indices[..], routed, halAudio)
    }

    /** The current table contents. */
    function Table(): (t: seq<int>)
      reads indices
    {
      indices[..]
    }

    /** bitsflow_pin_get_mode. */
    function GetMode(p: Pin): (m: Mode)
      reads this, indices
      requires Valid()
      ensures m == ModeIn(Table(), p)
    {
      ModeIn(indices[..], p)
    }

    /** The table at reset: every entry 0, so every pin is in its initial mode,
      * and no audio pin. */
    constructor ()
      ensures Valid() && fresh(indices) && Table() == seq(32, i => 0)
      ensures routed == None && halAudio == -1
      ensures forall p: Pin :: GetMode(p) == p.initial
    {
      indices := new int[32](i => 0);
      routed := None;
      halAudio := -1;
    }

    /** bitsflow_pin_set_mode: only the pin's own entry changes. Entering the
      * music or audio mode is for the routed pin only. */
    method SetMode(p: Pin, m: Mode)
      requires Valid() && ((m == Music || m == AudioPlay) ==> routed == Some(p))
      modifies indices
      ensures Valid() && Table() == old(Table())[p.number := ModeIndex(m)]
      ensures GetMode(p) == m
      ensures forall q: Pin :: q.number != p.number ==> GetMode(q) == old(GetMode(q))
    {
      indices[p.number] := ModeIndex(m);
      ModeIndexRoundTrip(m);
    }

    /** bitsflow_obj_pin_free: no pin, nothing; otherwise the pin becomes unused. */
    method Free(p: Option<Pin>)
      requires Valid()
      modifies indices
      ensures Valid() && Table() == Freed(old(Table()), p)
    {
      if p.Some? {
        SetMode(p.value, Unused);
      }
    }

    /** bitsflow_pin_audio_free: the routed pin, if any, becomes unused and
      * the audio output is switched off. */
    method AudioFree()
      requires Valid()
      modifies indices, this`routed, this`halAudio
      ensures Valid() && Table() == Freed(old(Table()), old(routed)) && routed == None
      ensures halAudio == if old(routed).Some? then -1 else old(halAudio)
    {
      if routed.Some? {
        Free(routed);
        routed := None;
        halAudio := -1;
      }
    }

    /** bitsflow_obj_pin_acquire: answers whether the mode changed. When it
      * changes, the old mode's release runs first (which for music and audio
      * unroutes the audio), then the new mode is stored. When the release
      * raises, nothing changes. The music and audio modes are entered only
      * by the audio router, for the pin it routes to. */
    method Acquire(p: Pin, m: Mode, playing: bool) returns (r: Result<bool, PinError>)
      requires Valid()
      requires (m == Music || m == AudioPlay) ==>
        routed == Some(p) && ReleaseOf(ModeIn(Table(), p)) != AudioMusic
      modifies indices, this`routed, this`halAudio
      ensures Valid() && (r, State()) == AcquireSpec(old(State()), p, m, playing)
    {
      var cur := GetMode(p);
      var d := Decide(cur, m, playing);
      if d == Keep {
        return Ok(false);
      } else if d == Refused {
        return Err(InMode(p.number, cur));
      }
      if d.unroute {
        AudioFree();
      }
      SetMode(p, m);
      return Ok(true);
    }

    /** bitsflow_pin_audio_select: route the audio to the given pin (None: to
      * no pin) in mode m. Routing to a new pin frees the old one and records
      * the new one before acquiring it, so a refused acquire leaves the new
      * pin recorded but in its old mode. Selecting the routed pin again only
      * rewrites its mode. */
    method AudioSelect(select: Obj, m: Mode, playing: bool) returns (r: Outcome<PinError>)
      requires Valid() && (m == Music || m == AudioPlay)
      modifies indices, this`routed, this`halAudio
      ensures Valid()
      ensures select == PinObj(Speaker) ==> r == Fail(SpeakerNotAllowed)
      ensures select != PinObj(Speaker) && select != NoneObj && GetPin(select).Err? ==> r == Fail(ExpectingPin)
      ensures r.Fail? && (r.error == SpeakerNotAllowed || r.error == ExpectingPin) ==>
        Table() == old(Table()) && routed == old(routed) && halAudio == old(halAudio)
      ensures select == NoneObj ==>
        && r == Pass && routed == None
        && Table() == Freed(old(Table()), old(routed))
        && halAudio == (if old(routed).Some? then -1 else old(halAudio))
      ensures select.PinObj? && select.pin != Speaker && GetPin(select).Ok? && old(routed) == Some(select.pin) ==>
        && r == Pass && routed == old(routed) && halAudio == old(halAudio)
        && Table() == old(Table())[select.pin.number := ModeIndex(m)]
      ensures select.PinObj? && select.pin != Speaker && GetPin(select).Ok? && old(routed) != Some(select.pin) ==>
        var q := select.pin;
        var freed := Freed(old(Table()), old(routed));
        && routed == Some(q)
        && (CanBeAcquired(ModeIn(freed, q)) ==>
              r == Pass && halAudio == q.number && Table() == freed[q.number := ModeIndex(m)])
        && (!CanBeAcquired(ModeIn(freed, q)) ==>
              r == Fail(InMode(q.number, ModeIn(freed, q))) && halAudio == old(halAudio) && Table() == freed)
    {
      var selected: Option<Pin>;
      if select == NoneObj {
        selected := None;
      } else if select == PinObj(Speaker) {
        return Fail(SpeakerNotAllowed);
      } else {
        var got := GetPin(select);
        if got.Err? {
          return Fail(got.error);
        }
        selected := Some(got.value);
      }
      if selected != routed {
        if routed.Some? {
          Free(routed);
        }
        routed := selected;
        if routed.None? {
          halAudio := -1;
        } else {
          var q := routed.value;
          var acquired := Acquire(q, m, playing);
          if acquired.Err? {
            return Fail(acquired.error);
          }
          halAudio := q.number;
        }
      } else if routed.Some? {
        SetMode(routed.value, m);
      }
      return Pass;
    }
  }
}
