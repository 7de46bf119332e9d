// The gesture recorder of the accelerometer (bitsflow_accelerometer.c): the
// board reports gestures by number through a callback; each one sets its
// bit in a 16-bit mask and is appended, four bits per gesture, to an
// eight-byte list that holds at most sixteen of them.

module Gestures {
  import opened Wrappers

  /** The gesture numbers of the board's event table. */
  const None: int := 0
  const TiltUp: int := 1
  const TiltDown: int := 2
  const TiltLeft: int := 3
  const TiltRight: int := 4
  const FaceUp: int := 5
  const FaceDown: int := 6
  const Freefall: int := 7
  const ThreeG: int := 8
  const SixG: int := 9
  const EightG: int := 10
  const Shake: int := 11
  const TwoG: int := 12

  /** gesture_name_map: the name of each gesture number. */
  const GestureNames: seq<string> :=
    ["", "up", "down", "left", "right", "face up", "face down", "freefall", "3g", "6g", "8g", "shake", "2g"]

  /** A gesture the callback records: the numbers after None up to 2g. */
  predicate IsEvent(v: int) {
    None < v <= TwoG
  }

  /** The names are distinct, so a name determines its number. */
  lemma GestureNamesDistinct()
    ensures |GestureNames| == TwoG + 1
    ensures forall i, j :: 0 <= i < j < |GestureNames| ==> GestureNames[i] != GestureNames[j]
  {
  }

  const ListSize: int := 8
  const Capacity: int := 2 * ListSize

  datatype GestureError = InvalidGesture

  /** gesture_from_obj for a str argument: the index of the name in the
    * table, or ValueError "invalid gesture". The empty name is None. */
  method GestureFromName(name: string) returns (r: Result<nat, GestureError>)
    ensures r.Ok? ==> r.value < |GestureNames| && GestureNames[r.value] == name
    ensures r.Err? <==> name !in GestureNames
    ensures r.Err? ==> r.error == InvalidGesture
  {
    var i := 0;
    while i < |GestureNames|
      invariant 0 <= i <= |GestureNames|
      invariant name !in GestureNames[..i]
    {
      if GestureNames[i] == name {
        return Ok(i);
      }
      i := i + 1;
    }
    return Err(InvalidGesture);
  }

  /** The gesture stored at position i of the list: the low four bits of
    * byte i / 2 for even i, the high four bits for odd i. */
  function NibbleAt(list: seq<bv8>, i: nat): (g: int)
    requires i / 2 < |list|
    ensures 0 <= g < 16
  {
    (if i % 2 == 0 then list[i / 2] & 0x0F else (list[i / 2] >> 4) & 0x0F) as int
  }

  /** The gestures recorded in the first n positions. */
  function Unpack(list: seq<bv8>, n: nat): (gs: seq<int>)
    requires n <= 2 * |list|
    ensures |gs| == n
    ensures forall i :: 0 <= i < n ==> gs[i] == NibbleAt(list, i)
  {
    if n == 0 then [] else Unpack(list, n - 1) + [NibbleAt(list, n - 1)]
  }

  /** The byte after storing gesture v at position i, as the callback stores
    * it: the other half of the byte is kept. */
  function StoreNibble(entry: bv8, i: nat, v: bv8): (e: bv8)
    requires v < 16
  {
    if i % 2 == 1 then (entry & 0x0F) | (v << 4) else (entry & 0xF0) | v
  }

  /** Storing a nibble reads back as that nibble and keeps the other half. */
  lemma StoreNibbleReadsBack(entry: bv8, i: nat, v: bv8)
    requires v < 16
    ensures var e := StoreNibble(entry, i, v);
      && (if i % 2 == 0 then e & 0x0F else (e >> 4) & 0x0F) == v
      && (if i % 2 == 0 then (e >> 4) & 0x0F == (entry >> 4) & 0x0F else e & 0x0F == entry & 0x0F)
  {
  }

  /** The recorder's globals: gesture_state, gesture_list and gesture_list_cur. */
  class Recorder {
    var state: bv16
    const list: array<bv8>
    var cur: int

    /** Every recorded gesture is an event, and no more than sixteen are held. */
    ghost predicate Valid()
      reads this, list
    {
      && list.Length == ListSize
      && 0 <= cur <= Capacity
      && forall i :: 0 <= i < cur ==> IsEvent(NibbleAt(list[..], i))
    }

    /** The recorded gestures in the order they arrived. */
    function Recorded(): (gs: seq<int>)
      reads this, list
      requires list.Length == ListSize && 0 <= cur <= Capacity
    {
      Unpack(list[..], cur)
    }

    /** The zero-initialised globals: no gesture seen, none recorded. */
    constructor ()
      ensures Valid() && fresh(list)
      ensures state == 0 && Recorded() == []
    {
      state := 0;
      list := new bv8[ListSize](_ => 0);
      cur := 0;
    }

    /** bitsflow_hal_gesture_callback(v): an event sets its bit and is
      * appended while there is room; anything else is ignored. */
    method Callback(v: int)
      requires Valid()
      modifies this`state, this`cur, list
      ensures Valid()
      ensures !IsEvent(v) ==> state == old(state) && Recorded() == old(Recorded())
      ensures IsEvent(v) ==> state == old(state) | (1 << v)
      ensures IsEvent(v) && old(cur) < Capacity ==> Recorded() == old(Recorded()) + [v]
      ensures IsEvent(v) && old(cur) == Capacity ==> Recorded() == old(Recorded())
    {
      if IsEvent(v) {
        state := state | (1 << v);
        if cur < Capacity {
          var k := cur / 2;
          ghost var before := list[..];
          var entry := StoreNibble(list[k], cur, v as bv8);
          StoreNibbleReadsBack(list[k], cur, v as bv8);
          list[k] := entry;
          assert forall i :: 0 <= i < cur ==> NibbleAt(list[..], i) == NibbleAt(before, i);
          assert NibbleAt(list[..], cur) == v;
          cur := cur + 1;
          assert Recorded() == Unpack(before, cur - 1) + [v];
        }
      }
    }

    /** accelerometer.was_gesture(name) for the number g of a name: whether
      * it was seen, after which its bit alone is cleared and the list
      * emptied. */
    method WasGesture(g: int) returns (seen: bool)
      requires Valid() && 0 <= g <= TwoG
      modifies this`state, this`cur
      ensures Valid()
      ensures seen == BitSet(old(state), g) && state == old(state) & !(1 << g)
      ensures Recorded() == []
    {
      seen := state & (1 << g) != 0;
      state := state & !(1 << g);
      cur := 0;
    }

    /** accelerometer.get_gestures(): the names of the recorded gestures in
      * order, after which the list is empty. */
    method GetGestures() returns (names: seq<string>)
      requires Valid()
      modifies this`cur
      ensures Valid() && Recorded() == []
      ensures |names| == |old(Recorded())|
      ensures forall i :: 0 <= i < |names| ==> names[i] == GestureNames[old(Recorded())[i]]
    {
      names := [];
      var i := 0;
      while i < cur
        invariant 0 <= i <= cur
        invariant |names| == i
        invariant forall j :: 0 <= j < i ==> names[j] == GestureNames[NibbleAt(list[..], j)]
      {
        var g := (if i % 2 == 0 then list[i / 2] & 0x0F else (list[i / 2] >> 4) & 0x0F) as int;
        assert g == NibbleAt(list[..], i);
        names := names + [GestureNames[g]];
        i := i + 1;
      }
      cur := 0;
    }
  }

  /** Bit g of a mask. */
  predicate BitSet(s: bv16, g: int)
    requires 0 <= g <= TwoG
  {
    s & (1 << g) != 0
  }

  /** Clearing bit g of a mask clears it and keeps every other bit. */
  lemma ClearKeepsOthers(s: bv16, g: int)
    requires 0 <= g <= TwoG
    ensures !BitSet(s & !(1 << g), g)
    ensures forall h :: 0 <= h <= TwoG && h != g ==> (BitSet(s & !(1 << g), h) <==> BitSet(s, h))
  {
    forall h | 0 <= h <= TwoG && h != g
      ensures BitSet(s & !(1 << g), h) <==> BitSet(s, h)
    {
      DistinctBits(g, h);
    }
  }

  /** Setting bit g of a mask sets it and keeps every other bit. */
  lemma SetKeepsOthers(s: bv16, g: int)
    requires 0 <= g <= TwoG
    ensures BitSet(s | (1 << g), g)
    ensures forall h :: 0 <= h <= TwoG && h != g ==> (BitSet(s | (1 << g), h) <==> BitSet(s, h))
  {
    forall h | 0 <= h <= TwoG && h != g
      ensures BitSet(s | (1 << g), h) <==> BitSet(s, h)
    {
      DistinctBits(g, h);
    }
  }

  lemma DistinctBits(g: int, h: int)
    requires 0 <= g <= TwoG && 0 <= h <= TwoG && g != h
    ensures ((1 as bv16) << g) & ((1 as bv16) << h) == 0
  {
  }
}
