// The music module (modmusic.c): the note parser of start_note with its
// period and duration arithmetic, the background player driven by the tick
// interrupt, and the calls that set it up (play, pitch, stop, set_tempo,
// reset, get_tempo and the module's initialisation).

module Music {
  import opened Wrappers
  import opened Words
  import opened Pins
  import opened PinModes

  const DefaultBpm: int := 120
  const DefaultTicks: int := 4
  const DefaultOctave: int := 4
  const DefaultDuration: int := 4
  const ArticulationMs: int := 10
  const AmplitudeOff: int := 0
  const AmplitudeOn: int := 128

  /** Periods in microseconds of octave 4, A to B then C to G. */
  const PeriodsUs: seq<int> := [2273, 2025, 3822, 3405, 3034, 2863, 2551]
  /** The same for A#, -, C#, D#, -, F#, G# (0 where there is no sharp). */
  const SharpPeriodsUs: seq<int> := [2145, 0, 3608, 3214, 0, 2703, 2408]

  /** A note is the bytes of a str or bytes object. */
  type NoteBytes = seq<uint8>

  const Sharp: int := '#' as int
  const Flat: int := 'b' as int
  const Colon: int := ':' as int

  // ---------------------------------------------------------------------
  // The note string [NOTE](#|b)(octave)(:length), field by field.

  /** The first byte; an empty string has only its terminating NUL. */
  function FirstByte(note: NoteBytes): (b: uint8)
  {
    if |note| > 0 then note[0] else 0
  }

  /** (note[0] & 0x1f) - 1 as a uint8_t: A is 0, G is 6, R is 17. */
  function LetterIndex(note: NoteBytes): (i: uint8)
  {
    Wrap8(FirstByte(note) % 32 - 1)
  }

  /** A '#' or 'b' right after the letter. */
  predicate HasAccidental(note: NoteBytes) {
    |note| > 1 && (note[1] == Sharp || note[1] == Flat)
  }

  /** The index after the accidental: a flat moves one note down, wrapping A to G. */
  function NoteIndex(note: NoteBytes): (i: uint8)
    ensures !(HasAccidental(note) && note[1] == Flat) ==> i == LetterIndex(note)
    ensures HasAccidental(note) && note[1] == Flat && LetterIndex(note) < 7 ==> i == (LetterIndex(note) + 6) % 7
  {
    var base := LetterIndex(note);
    if HasAccidental(note) && note[1] == Flat then (if base == 0 then 6 else base - 1) else base
  }

  /** Where the octave digit would be. */
  function OctavePos(note: NoteBytes): (p: nat)
  {
    if HasAccidental(note) then 2 else 1
  }

  /** An octave field: any byte at that position other than ':'. */
  predicate HasOctave(note: NoteBytes) {
    OctavePos(note) < |note| && note[OctavePos(note)] != Colon
  }

  /** The octave remembered after the note: its low four bits, or the previous one. */
  function NewOctave(note: NoteBytes, lastOctave: uint8): (o: uint8)
    ensures !HasOctave(note) ==> o == lastOctave
    ensures HasOctave(note) ==> o < 16
    ensures HasOctave(note) && '0' as int <= note[OctavePos(note)] <= '9' as int ==> o == note[OctavePos(note)] - '0' as int
  {
    if HasOctave(note) then note[OctavePos(note)] % 16 else lastOctave
  }

  /** A decimal digit byte. */
  predicate IsDigit(b: uint8) {
    '0' as int <= b <= '9' as int
  }

  /** Where the ':' of a duration would be. */
  function DurationPos(note: NoteBytes): (p: nat)
  {
    OctavePos(note) + (if HasOctave(note) then 1 else 0)
  }

  /** A duration field: ':' followed by at least one byte. Only the first
    * two bytes after ':' are read, whatever they are. */
  function NewDuration(note: NoteBytes, lastDuration: uint8): (d: uint8)
    ensures !(DurationPos(note) + 1 < |note| && note[DurationPos(note)] == Colon) ==> d == lastDuration
    ensures var p := DurationPos(note);
      p + 2 == |note| && note[p] == Colon && IsDigit(note[p + 1]) ==> d == note[p + 1] - '0' as int
    ensures var p := DurationPos(note);
      p + 2 < |note| && note[p] == Colon && IsDigit(note[p + 1]) && IsDigit(note[p + 2]) ==>
        d == (note[p + 1] - '0' as int) * 10 + (note[p + 2] - '0' as int)
  {
    var p := DurationPos(note);
    if p + 1 < |note| && note[p] == Colon then
      if p + 2 < |note| then (note[p + 1] % 16) * 10 + note[p + 2] % 16 else note[p + 1] % 16
    else lastDuration
  }

  /** The octave relative to octave 4, one lower for the Cb edge case. */
  function RelativeOctave(note: NoteBytes, lastOctave: uint8): (o: int)
    requires lastOctave < 16
    ensures -5 <= o <= 11
  {
    (if HasAccidental(note) && note[1] == Flat && NoteIndex(note) == 1 then -1 else 0)
    + NewOctave(note, lastOctave) - 4
  }

  /** The guard of start_note as written: note indices below 10 are played. */
  predicate PlaysAsWritten(note: NoteBytes) {
    NoteIndex(note) < 10
  }

  /** The guard as intended: only the seven letters A to G are played;
    * every other index is a rest. */
  predicate Plays(note: NoteBytes) {
    NoteIndex(note) < |PeriodsUs|
  }

  /** The written guard lets 'h', 'i' and 'j' (indices 7 to 9) through, past
    * the end of the seven-entry period tables. */
  lemma GuardAsWrittenReadsPastTable()
    ensures var h: NoteBytes := ['h' as int];
      PlaysAsWritten(h) && NoteIndex(h) == 7 && NoteIndex(h) >= |PeriodsUs| && NoteIndex(h) >= |SharpPeriodsUs|
    ensures forall note: NoteBytes :: Plays(note) ==> PlaysAsWritten(note)
  {
  }

  /** The period sent to the output: the octave 4 period halved per octave up
    * and doubled per octave down, from the sharp table after '#' or 'b'. */
  function NotePeriod(note: NoteBytes, lastOctave: uint8): (p: int)
    requires Plays(note) && lastOctave < 16
    ensures 0 <= p <= 3822 * 32
  {
    var base := if HasAccidental(note) then SharpPeriodsUs[NoteIndex(note)] else PeriodsUs[NoteIndex(note)];
    assert 0 <= base <= 3822;
    var o := RelativeOctave(note, lastOctave);
    if o >= 0 then
      DivAtMost(base, Pow2(o));
      base / Pow2(o)
    else
      MulAtMost(base, 3822, Pow2(-o), 32);
      base * Pow2(-o)
  }

  lemma MulAtMost(a: nat, a': nat, b: nat, b': nat)
    requires a <= a' && b <= b'
    ensures a * b <= a' * b'
  {
    assert a * b <= a' * b;
    assert a' * b <= a' * b';
  }

  function Pow2(k: nat): (r: nat)
    ensures r >= 1
    ensures k == 0 ==> r == 1
    ensures k <= 1 ==> r <= 2
    ensures k <= 2 ==> r <= 4
    ensures k <= 3 ==> r <= 8
    ensures k <= 4 ==> r <= 16
    ensures k <= 5 ==> r <= 32
  {
    if k == 0 then 1 else 2 * Pow2(k - 1)
  }

  /** (60000 / bpm) / ticks in unsigned arithmetic. */
  function MsPerTick(bpm: uint16, ticks: uint16): (m: int)
    requires bpm > 0 && ticks > 0
    ensures 0 <= m <= 60000
  {
    DivAtMost(60000, bpm);
    DivAtMost(60000 / bpm, ticks);
    (60000 / bpm) / ticks
  }

  lemma DivAtMost(a: nat, b: int)
    requires b > 0
    ensures 0 <= a / b <= a
  {
    var q := a / b;
    assert a == b * q + a % b && 0 <= a % b;
    MulAtLeast(b, q);
  }

  lemma MulAtLeast(b: int, q: int)
    requires b >= 1
    ensures q >= 0 ==> b * q >= q
  {
    if q >= 0 {
      assert b * q == (b - 1) * q + q;
    }
  }

  /** The gap before the next note: ms_per_tick * duration - 10 computed in
    * 32-bit unsigned arithmetic, read back as a signed machine word, and
    * raised to 10 when below. */
  function Gap(msPerTick: int, duration: uint8): (g: int)
    requires 0 <= msPerTick <= 60000
  {
    var signed := Signed32(Wrap32(msPerTick * duration - ArticulationMs));
    if signed < ArticulationMs then ArticulationMs else signed
  }

  /** The wrap-around does no harm here: the gap is the note's length less
    * the articulation, but never below the articulation, even for a zero
    * duration. */
  lemma GapIsClampedLength(msPerTick: int, duration: uint8)
    requires 0 <= msPerTick <= 60000
    ensures Gap(msPerTick, duration) == if msPerTick * duration - 10 < 10 then 10 else msPerTick * duration - 10
  {
    var x := msPerTick * duration;
    assert 0 <= x <= 60000 * 255 by {
      assert msPerTick * duration <= 60000 * duration;
    }
    if x < 10 {
      assert Wrap32(x - 10) == x - 10 + U32;
      assert Signed32(Wrap32(x - 10)) == x - 10;
    } else {
      assert Wrap32(x - 10) == x - 10;
    }
  }

  /** The letters A-G and a-g are 0..6, R and r a rest. */
  lemma NoteLetters(c: uint8)
    ensures 'A' as int <= c <= 'G' as int ==> LetterIndex([c]) == c - 'A' as int && Plays([c])
    ensures 'a' as int <= c <= 'g' as int ==> LetterIndex([c]) == c - 'a' as int && Plays([c])
    ensures c == 'R' as int || c == 'r' as int ==> NoteIndex([c]) == 17 && !Plays([c])
  {
  }

  /** A flat is the sharp of the note below: Eb sounds as D#, and Ab as G#,
    * in every octave. */
  lemma FlatIsSharpBelow(digit: uint8)
    requires '0' as int <= digit <= '9' as int
    ensures var eb: NoteBytes := ['E' as int, Flat, digit];
      var ds: NoteBytes := ['D' as int, Sharp, digit];
      NoteIndex(eb) == NoteIndex(ds) == 3 && NotePeriod(eb, 4) == NotePeriod(ds, 4)
    ensures var ab: NoteBytes := ['A' as int, Flat, digit];
      var gs: NoteBytes := ['G' as int, Sharp, digit];
      NoteIndex(ab) == NoteIndex(gs) == 6 && NotePeriod(ab, 4) == NotePeriod(gs, 4)
  {
    FlatPair('E' as int, 'D' as int, digit);
    FlatPair('A' as int, 'G' as int, digit);
  }

  /** The flat of one letter and the sharp of another, with the same octave
    * digit, sound alike when the flat's index is the sharp's and the flat
    * is not Cb (which changes octave). */
  lemma FlatPair(flatLetter: uint8, sharpLetter: uint8, digit: uint8)
    requires IsDigit(digit)
    requires NoteIndex([flatLetter, Flat, digit]) == NoteIndex([sharpLetter, Sharp, digit]) < 7
    requires NoteIndex([flatLetter, Flat, digit]) != 1
    ensures NotePeriod([flatLetter, Flat, digit], 4) == NotePeriod([sharpLetter, Sharp, digit], 4)
  {
    var fl: NoteBytes := [flatLetter, Flat, digit];
    var sh: NoteBytes := [sharpLetter, Sharp, digit];
    assert RelativeOctave(fl, 4) == RelativeOctave(sh, 4) == digit % 16 - 4;
    SharpPairPeriod(fl, sh, 4);
  }

  /** Two notes with an accidental, the same index and the same relative
    * octave have the same period. */
  lemma SharpPairPeriod(flat: NoteBytes, sharp: NoteBytes, lastOctave: uint8)
    requires lastOctave < 16 && Plays(flat) && Plays(sharp) && HasAccidental(flat) && HasAccidental(sharp)
    requires NoteIndex(flat) == NoteIndex(sharp) && RelativeOctave(flat, lastOctave) == RelativeOctave(sharp, lastOctave)
    ensures NotePeriod(flat, lastOctave) == NotePeriod(sharp, lastOctave)
  {
  }

  /** Middle C ("C4") has period 3822, an octave up halves it and an octave
    * down doubles it; a note without octave or duration keeps the previous
    * ones; "C4:8" sets duration 8 and ":16" reads two digits. */
  lemma NoteExamples()
    ensures NotePeriod(['C' as int, '4' as int], 0) == 3822
    ensures NotePeriod(['C' as int, '5' as int], 0) == 1911
    ensures NotePeriod(['C' as int, '3' as int], 0) == 7644
    ensures NotePeriod(['A' as int], 4) == 2273
    ensures NewOctave(['A' as int], 6) == 6 && NewDuration(['A' as int], 2) == 2
    ensures NewDuration(['C' as int, '4' as int, Colon, '8' as int], 4) == 8
    ensures NewDuration(['C' as int, Colon, '1' as int, '6' as int], 4) == 16
    ensures NewOctave(['C' as int, Colon, '1' as int, '6' as int], 3) == 3
  {
    assert NoteIndex(['C' as int, '4' as int]) == 2;
    assert RelativeOctave(['C' as int, '5' as int], 0) == 1;
    assert RelativeOctave(['C' as int, '3' as int], 0) == -1;
  }

  /** The letter and accidental of a note, as start_note reads them: the
    * index, whether a '#' or 'b' was seen, the octave correction of a flat
    * C, and where the octave field starts. */
  method ReadLetter(note: NoteBytes) returns (index: uint8, sharp: bool, octave: int, pos: nat)
    ensures index == NoteIndex(note) && sharp == HasAccidental(note) && pos == OctavePos(note)
    ensures octave == if HasAccidental(note) && note[1] == Flat && NoteIndex(note) == 1 then -1 else 0
  {
    index := Wrap8(FirstByte(note) % 32 - 1);
    octave := 0;
    sharp := false;
    pos := 1;
    if pos < |note| && (note[pos] == Sharp || note[pos] == Flat) {
      if note[pos] == Flat {
        if index == 0 {
          index := 6;
        } else {
          index := index - 1;
        }
        if index == 1 {
          octave := octave - 1;
        }
      }
      sharp := true;
      pos := pos + 1;
    }
  }

  /** The duration field of a note from position pos (after the octave), as
    * start_note reads it: ':' then one digit, or two. */
  method ReadDuration(note: NoteBytes, pos: nat, lastDuration: uint8) returns (d: uint8)
    requires pos == DurationPos(note)
    ensures d == NewDuration(note, lastDuration)
  {
    d := lastDuration;
    var p := pos;
    if p < |note| && note[p] == Colon {
      p := p + 1;
      if p < |note| {
        d := note[p] % 16;
        p := p + 1;
        if p < |note| {
          d := d * 10 + note[p] % 16;
        }
      }
    }
  }

  /** The end of start_note: the note's length less the articulation, in
    * machine words, but at least the articulation. */
  method HoldFor(msPerTick: int, duration: uint8) returns (gap: int)
    requires 0 <= msPerTick <= 60000
    ensures gap == Gap(msPerTick, duration) && gap >= ArticulationMs
  {
    gap := Signed32(Wrap32(msPerTick * duration - ArticulationMs));
    if gap < ArticulationMs {
      gap := ArticulationMs;
    }
  }

  // ---------------------------------------------------------------------
  // The background player.

  datatype AsyncState = Idle | NextNote | Articulate

  /** A note object of a tune: a str or bytes note, or anything else. */
  datatype Note = StrNote(bytes: NoteBytes) | NotAString

  /** The music argument of play: one note, or a list or tuple of notes, or
    * an object that is neither. */
  datatype Tune = OneNote(bytes: NoteBytes) | Notes(items: seq<Note>) | NotATune

  /** The notes a tune plays: a single note is a tune of one note. */
  function NotesOf(tune: Tune): (notes: seq<Note>)
    requires !tune.NotATune?
    ensures tune.OneNote? ==> notes == [StrNote(tune.bytes)]
    ensures tune.Notes? ==> notes == tune.items
  {
    if tune.OneNote? then [StrNote(tune.bytes)] else tune.items
  }

  /** The errors the module raises. */
  datatype MusicError =
    | PinFailure(cause: PinError)   // raised by the audio pin selection
    | NotAList                  // TypeError of mp_obj_get_array
    | InvalidPitch              // ValueError "invalid pitch"

  /** What the NEXT_NOTE step does with the note index. */
  datatype NextStep = Finish | ReadAt(i: nat)

  /** The NEXT_NOTE step as written: past the end, a looping tune starts
    * again at 0 without checking that the tune has a note 0. */
  function NextStepAsWritten(index: nat, len: nat, loop: bool): (s: NextStep)
  {
    if index >= len then (if loop then ReadAt(0) else Finish) else ReadAt(index)
  }

  /** play([], loop=True) reaches the read of note 0 of an empty list. */
  lemma EmptyLoopReadsPastEnd()
    ensures NextStepAsWritten(0, 0, true) == ReadAt(0)
    ensures exists len: nat :: NextStepAsWritten(0, len, true).ReadAt? && NextStepAsWritten(0, len, true).i >= len
  {
    assert NextStepAsWritten(0, 0, true).ReadAt?;
  }

  /** The NEXT_NOTE step as intended: an empty tune finishes even when it loops. */
  function NextStepOf(index: nat, len: nat, loop: bool): (s: NextStep)
    ensures s.ReadAt? ==> s.i < len
    ensures s == Finish <==> len == 0 || (index >= len && !loop)
    ensures s.ReadAt? ==> s.i == (if index >= len then 0 else index)
  {
    if index >= len then (if loop && len > 0 then ReadAt(0) else Finish) else ReadAt(index)
  }

  /** Both agree on every tune that has a note. */
  lemma NextStepAgrees(index: nat, len: nat, loop: bool)
    requires len > 0
    ensures NextStepOf(index, len, loop) == NextStepAsWritten(index, len, loop)
  {
  }

  /** set_tempo as written: an argument is stored when it is non-zero, then
    * truncated to uint16_t. Answers (bpm, ticks). */
  function SetTempoAsWritten(bpm: uint16, ticks: uint16, argTicks: int, argBpm: int): (r: (uint16, uint16))
  {
    (if argBpm != 0 then Wrap16(argBpm) else bpm, if argTicks != 0 then Wrap16(argTicks) else ticks)
  }

  /** set_tempo(bpm=65536) stores a tempo of 0, and the next note divides by it. */
  lemma TempoAsWrittenStoresZero()
    ensures SetTempoAsWritten(120, 4, 0, 65536) == (0, 4)
    ensures SetTempoAsWritten(120, 4, 65536, 0) == (120, 0)
  {
  }

  /** set_tempo as intended: an argument whose uint16_t value is 0 is ignored
    * like an absent one, so neither value can become 0. */
  function TempoAfter(bpm: uint16, ticks: uint16, argTicks: int, argBpm: int): (r: (uint16, uint16))
    ensures bpm > 0 && ticks > 0 ==> r.0 > 0 && r.1 > 0
    ensures argBpm != 0 && Wrap16(argBpm) != 0 ==> r.0 == Wrap16(argBpm)
    ensures argTicks != 0 && Wrap16(argTicks) != 0 ==> r.1 == Wrap16(argTicks)
    ensures Wrap16(argBpm) == 0 ==> r.0 == bpm
    ensures Wrap16(argTicks) == 0 ==> r.1 == ticks
  {
    (if Wrap16(argBpm) != 0 then Wrap16(argBpm) else bpm, if Wrap16(argTicks) != 0 then Wrap16(argTicks) else ticks)
  }

  /** It differs from the written code only on the arguments that would store 0. */
  lemma TempoAfterAgrees(bpm: uint16, ticks: uint16, argTicks: int, argBpm: int)
    requires Wrap16(argBpm) != 0 || argBpm == 0
    requires Wrap16(argTicks) != 0 || argTicks == 0
    ensures TempoAfter(bpm, ticks, argTicks, argBpm) == SetTempoAsWritten(bpm, ticks, argTicks, argBpm)
  {
  }

  /** The audio selection every music call makes first: with a pin, the
    * audio is routed to it in the music mode; with None, the audio is
    * unrouted and nothing is raised. */
  method RouteMusic(pins: PinTable, pin: Obj, playing: bool) returns (r: Outcome<PinError>)
    requires pins.Valid()
    modifies pins.indices, pins`routed, pins`halAudio
    ensures pins.Valid()
    ensures pin == NoneObj ==> r.Pass? && pins.routed == None
    ensures pin == PinObj(Speaker) ==> r == Fail(SpeakerNotAllowed)
    ensures r.Pass? && pin != NoneObj ==> pin.PinObj? && pins.routed == Some(pin.pin) && pins.GetMode(pin.pin) == Music
  {
    r := pins.AudioSelect(pin, Music, playing);
    if r.Pass? && pin != NoneObj {
      ModeIndexRoundTrip(Music);
    }
  }

  /** music_data_t, together with what was last sent to the output: the
    * amplitude and the period in microseconds. */
  class MusicData {
    var bpm: uint16
    var ticks: uint16
    var lastOctave: uint8
    var lastDuration: uint8
    var state: AsyncState
    var loop: bool
    var waitTicks: uint32
    var notesLen: uint16
    var notesIndex: uint16
    /** async_note: the notes of the tune (a one-note tune holds its note). */
    var notes: seq<Note>
    var amplitude: int
    var period: int

    ghost predicate Valid()
      reads this
    {
      bpm > 0 && ticks > 0 && lastOctave < 16 && notesIndex <= notesLen <= |notes|
    }

    /** bitsflow_music_is_playing: the background player is not idle. */
    function IsPlaying(): (b: bool)
      reads this
      ensures b <==> state != Idle
    {
      state != Idle
    }

    /** music_init: default tempo, octave and duration, nothing playing. */
    constructor ()
      ensures Valid() && state == Idle && notes == []
      ensures bpm == DefaultBpm && ticks == DefaultTicks
      ensures lastOctave == DefaultOctave && lastDuration == DefaultDuration
    {
      bpm, ticks := DefaultBpm, DefaultTicks;
      lastOctave, lastDuration := DefaultOctave, DefaultDuration;
      state := Idle;
      loop := false;
      waitTicks := 0;
      notesLen, notesIndex := 0, 0;
      notes := [];
      amplitude, period := AmplitudeOff, 0;
    }

    /** music.reset(): the default tempo, octave and duration. */
    method Reset()
      requires Valid()
      modifies this
      ensures Valid()
      ensures bpm == DefaultBpm && ticks == DefaultTicks
      ensures lastOctave == DefaultOctave && lastDuration == DefaultDuration
      ensures state == old(state) && notes == old(notes) && notesIndex == old(notesIndex) && notesLen == old(notesLen)
      ensures loop == old(loop) && waitTicks == old(waitTicks) && amplitude == old(amplitude) && period == old(period)
    {
      bpm, ticks := DefaultBpm, DefaultTicks;
      lastOctave, lastDuration := DefaultOctave, DefaultDuration;
    }

    /** music.get_tempo(): (bpm, ticks). */
    function GetTempo(): (r: (uint16, uint16))
      reads this
      ensures r == (bpm, ticks)
      ensures Valid() ==> r.0 > 0 && r.1 > 0
    {
      (bpm, ticks)
    }

    /** music.set_tempo(ticks=, bpm=) with the zero check made on the stored
      * value. */
    method SetTempo(argTicks: int, argBpm: int)
      requires Valid()
      modifies this`bpm, this`ticks
      ensures Valid() && (bpm, ticks) == TempoAfter(old(bpm), old(ticks), argTicks, argBpm)
    {
      var t := Wrap16(argTicks);
      if t != 0 {
        ticks := t;
      }
      var b := Wrap16(argBpm);
      if b != 0 {
        bpm := b;
      }
    }

    /** start_note: amplitude on, parse the note, send its period (or, for a
      * rest, switch the amplitude off), remember its octave and duration,
      * and answer how long to hold it. */
    method StartNote(note: NoteBytes) returns (delay: int)
      requires Valid()
      modifies this`lastOctave, this`lastDuration, this`amplitude, this`period
      ensures Valid()
      ensures lastOctave == NewOctave(note, old(lastOctave))
      ensures lastDuration == NewDuration(note, old(lastDuration))
      ensures Plays(note) ==> amplitude == AmplitudeOn && period == NotePeriod(note, old(lastOctave))
      ensures !Plays(note) ==> amplitude == AmplitudeOff && period == old(period)
      ensures delay == Gap(MsPerTick(bpm, ticks), lastDuration) && delay >= ArticulationMs
    {
      amplitude := AmplitudeOn;
      var msPerTick := (60000 / bpm) / ticks;
      assert msPerTick == MsPerTick(bpm, ticks);
      var index, sharp, octave, pos := ReadLetter(note);
      if pos < |note| && note[pos] != Colon {
        lastOctave := note[pos] % 16;
        pos := pos + 1;
      }
      assert lastOctave == NewOctave(note, old(lastOctave)) && pos == DurationPos(note);
      octave := octave + lastOctave;
      lastDuration := ReadDuration(note, pos, lastDuration);
      assert lastDuration == NewDuration(note, old(lastDuration));
      octave := octave - 4;
      assert octave == RelativeOctave(note, old(lastOctave));
      SetOutput(note, old(lastOctave), index, sharp, octave);
      delay := HoldFor(msPerTick, lastDuration);
    }

    /** The output for a parsed note, switched on beforehand: it keeps
      * sounding at the note's period when the note plays, and goes off
      * for a rest. */
    method SetOutput(note: NoteBytes, ghost lastOctave0: uint8, index: uint8, sharp: bool, octave: int)
      requires lastOctave0 < 16 && amplitude == AmplitudeOn
      requires index == NoteIndex(note) && sharp == HasAccidental(note) && octave == RelativeOctave(note, lastOctave0)
      modifies this`amplitude, this`period
      ensures Plays(note) ==> amplitude == AmplitudeOn && period == NotePeriod(note, lastOctave0)
      ensures !Plays(note) ==> amplitude == AmplitudeOff && period == old(period)
    {
      if index < |PeriodsUs| {
        var base := if sharp then SharpPeriodsUs[index] else PeriodsUs[index];
        if octave >= 0 {
          period := base / Pow2(octave);
        } else {
          period := base * Pow2(-octave);
        }
      } else {
        amplitude := AmplitudeOff;
      }
    }

    /** bitsflow_music_tick at time now (ms): nothing while idle or before
      * the wait expires; after a note, silence for the articulation; then
      * the next note, or the end of the tune (from the start again when
      * looping), or the end on a note that is not a string. */
    method Tick(now: uint32)
      requires Valid()
      modifies this
      ensures Valid()
      ensures bpm == old(bpm) && ticks == old(ticks) && notes == old(notes) && notesLen == old(notesLen) && loop == old(loop)
      ensures old(state) == Idle || now < old(waitTicks) ==>
        && state == old(state) && waitTicks == old(waitTicks) && notesIndex == old(notesIndex)
        && amplitude == old(amplitude) && period == old(period)
        && lastOctave == old(lastOctave) && lastDuration == old(lastDuration)
      ensures old(state) == Articulate && now >= old(waitTicks) ==>
        && state == NextNote && amplitude == AmplitudeOff && waitTicks == Wrap32(now as int + ArticulationMs)
        && notesIndex == old(notesIndex) && period == old(period)
        && lastOctave == old(lastOctave) && lastDuration == old(lastDuration)
      ensures old(state) == NextNote && now >= old(waitTicks) ==>
        var step := NextStepOf(old(notesIndex), old(notesLen), old(loop));
        && (step == Finish ==> state == Idle && amplitude == old(amplitude) && period == old(period))
        && (step.ReadAt? && notes[step.i].NotAString? ==> state == Idle && notesIndex == step.i && amplitude == old(amplitude))
        && (step.ReadAt? && notes[step.i].StrNote? ==>
              var note := notes[step.i].bytes;
              && state == Articulate && notesIndex == step.i + 1
              && lastOctave == NewOctave(note, old(lastOctave)) && lastDuration == NewDuration(note, old(lastDuration))
              && waitTicks == Wrap32(now as int + Gap(MsPerTick(bpm, ticks), lastDuration))
              && (Plays(note) ==> amplitude == AmplitudeOn && period == NotePeriod(note, old(lastOctave)))
              && (!Plays(note) ==> amplitude == AmplitudeOff && period == old(period)))
    {
      if state == Idle || now < waitTicks {
        return;
      }
      if state == Articulate {
        amplitude := AmplitudeOff;
        waitTicks := Wrap32(now as int + ArticulationMs);
        state := NextNote;
        return;
      }
      PlayNext(now);
    }

    /** The NEXT_NOTE case of the tick, once its deadline is reached: finish
      * or play the next note of the tune. */
    method PlayNext(now: uint32)
      requires Valid() && state == NextNote
      modifies this
      ensures Valid()
      ensures bpm == old(bpm) && ticks == old(ticks) && notes == old(notes) && notesLen == old(notesLen) && loop == old(loop)
      ensures var step := NextStepOf(old(notesIndex), old(notesLen), old(loop));
        && (step == Finish ==> state == Idle && amplitude == old(amplitude) && period == old(period))
        && (step.ReadAt? && notes[step.i].NotAString? ==> state == Idle && notesIndex == step.i && amplitude == old(amplitude))
        && (step.ReadAt? && notes[step.i].StrNote? ==>
              var note := notes[step.i].bytes;
              && state == Articulate && notesIndex == step.i + 1
              && lastOctave == NewOctave(note, old(lastOctave)) && lastDuration == NewDuration(note, old(lastDuration))
              && waitTicks == Wrap32(now as int + Gap(MsPerTick(bpm, ticks), lastDuration))
              && (Plays(note) ==> amplitude == AmplitudeOn && period == NotePeriod(note, old(lastOctave)))
              && (!Plays(note) ==> amplitude == AmplitudeOff && period == old(period)))
    {
      if notesIndex >= notesLen {
        if loop {
          notesIndex := 0;
        } else {
          state := Idle;
          return;
        }
      }
      if notesIndex >= notesLen {
        state := Idle;
        return;
      }
      var note := notes[notesIndex];
      if note.NotAString? {
        state := Idle;
        return;
      }
      var delay := StartNote(note.bytes);
      waitTicks := Wrap32(now as int + delay);
      notesIndex := notesIndex + 1;
      state := Articulate;
    }

    /** music.play(music, pin, wait, loop) up to the point where it would
      * wait: octave and duration back to the defaults, the tune's notes
      * fetched, the player stopped, the audio routed to pin, and the tune
      * started at its first note. */
    method Play(tune: Tune, pin: Obj, repeat: bool, now: uint32, pins: PinTable, audioPlaying: bool)
      returns (r: Outcome<MusicError>)
      requires Valid() && pins.Valid()
      requires tune.Notes? ==> |tune.items| < U16
      modifies this`lastOctave, this`lastDuration, this`state, this`waitTicks, this`loop, this`notesLen, this`notesIndex,
        this`notes, pins.indices, pins`routed, pins`halAudio
      ensures Valid() && pins.Valid()
      ensures lastOctave == DefaultOctave && lastDuration == DefaultDuration
      ensures tune.NotATune? ==> r == Fail(NotAList) && state == old(state) && notes == old(notes)
      ensures r.Pass? ==>
        && state == NextNote && notes == NotesOf(tune) && notesLen == |notes| && notesIndex == 0
        && waitTicks == now && loop == repeat
      ensures !tune.NotATune? && r.Fail? ==> state == Idle && r.error.PinFailure?
      ensures !tune.NotATune? && pin == NoneObj ==> r.Pass?
      ensures tune.NotATune? ==> pins.Table() == old(pins.Table()) && pins.routed == old(pins.routed)
      ensures r.Pass? && pin != NoneObj ==> pin.PinObj? && pins.routed == Some(pin.pin) && pins.GetMode(pin.pin) == Music
      ensures !tune.NotATune? && pin == NoneObj ==> pins.routed == None
      ensures !tune.NotATune? && pin == PinObj(Speaker) ==> r == Fail(PinFailure(SpeakerNotAllowed))
    {
      lastOctave := DefaultOctave;
      lastDuration := DefaultDuration;
      var items: seq<Note>;
      if tune.OneNote? {
        items := [StrNote(tune.bytes)];
      } else if tune.Notes? {
        items := tune.items;
      } else {
        return Fail(NotAList);
      }
      state := Idle;
      var selected := RouteMusic(pins, pin, audioPlaying || IsPlaying());
      if selected.Fail? {
        return Fail(PinFailure(selected.error));
      }
      Load(items, now, repeat);
      return Pass;
    }

    /** The player takes the notes from the first, at now. */
    method Load(items: seq<Note>, now: uint32, repeat: bool)
      requires Valid() && |items| < U16
      modifies this`state, this`waitTicks, this`loop, this`notesLen, this`notesIndex, this`notes
      ensures Valid()
      ensures state == NextNote && notes == items && notesLen == |notes| && notesIndex == 0
      ensures waitTicks == now && loop == repeat
    {
      waitTicks := now;
      loop := repeat;
      notesLen := |items|;
      notesIndex := 0;
      notes := items;
      state := NextNote;
    }

    /** music.pitch(frequency, duration, pin, wait) up to the wait: stop the
      * player, route the audio, amplitude on, period 1000000 / frequency
      * (a period outside the ones the output accepts raises "invalid
      * pitch"); with a duration, let the
      * player switch the sound off after it. */
    method Pitch(frequency: int32, duration: int32, pin: Obj, now: uint32, pins: PinTable, audioPlaying: bool,
                 accepted: set<int>)
      returns (r: Outcome<MusicError>)
      requires Valid() && pins.Valid()
      modifies this`state, this`amplitude, this`period, this`waitTicks, this`loop, this`notesLen, this`notesIndex, this`notes,
        pins.indices, pins`routed, pins`halAudio
      ensures Valid() && pins.Valid()
      ensures r.Fail? ==> state == Idle
      ensures r.Pass? ==> amplitude == AmplitudeOn
      ensures r.Pass? && Wrap32(frequency) != 0 ==> period == 1000000 / (Wrap32(frequency) as int)
      ensures r.Pass? && duration >= 0 ==>
        && state == Articulate && waitTicks == Wrap32(now as int + duration) && !loop
        && notesLen == 0 && notesIndex == 0 && notes == []
      ensures r.Pass? && duration < 0 ==> state == Idle
      ensures r == Fail(InvalidPitch) ==>
        Wrap32(frequency) != 0 && (1000000 / (Wrap32(frequency) as int)) !in accepted && amplitude == AmplitudeOn
      ensures r.Pass? ==> Wrap32(frequency) == 0 || (1000000 / (Wrap32(frequency) as int)) in accepted
      ensures r.Fail? && r.error != InvalidPitch ==> r.error.PinFailure? && amplitude == old(amplitude)
      ensures pin == NoneObj && (Wrap32(frequency) == 0 || (1000000 / (Wrap32(frequency) as int)) in accepted) ==> r.Pass?
      ensures !(r.Fail? && r.error.PinFailure?) && pin != NoneObj ==>
        pin.PinObj? && pins.routed == Some(pin.pin) && pins.GetMode(pin.pin) == Music
      ensures pin == NoneObj ==> pins.routed == None
      ensures pin == PinObj(Speaker) ==> r == Fail(PinFailure(SpeakerNotAllowed))
    {
      var f := Wrap32(frequency);
      state := Idle;
      var selected := RouteMusic(pins, pin, audioPlaying || IsPlaying());
      if selected.Fail? {
        return Fail(PinFailure(selected.error));
      }
      r := Sound(f, duration, now, accepted);
    }

    /** The sound of pitch once the output is routed: amplitude on, period
      * 1000000 / f for a non-zero f (refused outside the accepted periods),
      * and with a non-negative duration the player set to switch it off
      * then. */
    method Sound(f: uint32, duration: int32, now: uint32, accepted: set<int>) returns (r: Outcome<MusicError>)
      requires Valid() && state == Idle
      modifies this`state, this`amplitude, this`period, this`waitTicks, this`loop, this`notesLen, this`notesIndex, this`notes
      ensures Valid() && amplitude == AmplitudeOn
      ensures r.Pass? || r == Fail(InvalidPitch)
      ensures r.Fail? ==> state == Idle && f != 0 && (1000000 / (f as int)) !in accepted
      ensures r.Pass? <==> f == 0 || (1000000 / (f as int)) in accepted
      ensures r.Pass? && f != 0 ==> period == 1000000 / (f as int)
      ensures r.Pass? && duration >= 0 ==>
        && state == Articulate && waitTicks == Wrap32(now as int + duration) && !loop
        && notesLen == 0 && notesIndex == 0 && notes == []
      ensures r.Pass? && duration < 0 ==> state == Idle
    {
      amplitude := AmplitudeOn;
      if f != 0 {
        period := 1000000 / (f as int);
        if period !in accepted {
          return Fail(InvalidPitch);
        }
      }
      if duration >= 0 {
        waitTicks := Wrap32(now as int + duration);
        loop := false;
        notesLen := 0;
        notesIndex := 0;
        notes := [];
        state := Articulate;
      }
      return Pass;
    }

    /** music.stop(pin): route the audio to pin in music mode (which raises
      * if the pin cannot be had), stop the player, amplitude off. */
    method Stop(pin: Obj, pins: PinTable, audioPlaying: bool) returns (r: Outcome<MusicError>)
      requires Valid() && pins.Valid()
      modifies this`state, this`amplitude, pins.indices, pins`routed, pins`halAudio
      ensures Valid() && pins.Valid()
      ensures r.Fail? ==> state == old(state) && amplitude == old(amplitude) && r.error.PinFailure?
      ensures r.Pass? ==> state == Idle && amplitude == AmplitudeOff
      ensures r.Pass? && pin != NoneObj ==> pin.PinObj? && pins.routed == Some(pin.pin) && pins.GetMode(pin.pin) == Music
      ensures pin == NoneObj ==> r.Pass? && pins.routed == None
      ensures pin == PinObj(Speaker) ==> r == Fail(PinFailure(SpeakerNotAllowed))
    {
      var selected := RouteMusic(pins, pin, audioPlaying || IsPlaying());
      if selected.Fail? {
        return Fail(PinFailure(selected.error));
      }
      state := Idle;
      amplitude := AmplitudeOff;
      return Pass;
    }
  }
}
