// The soft timer (drv_softtimer.c): timer entries queued by expiry time in a
// heap ordered by wrap-around tick differences, and the handler that fires
// every due entry, re-queueing the periodic ones.

module SoftTimers {
  import opened Wrappers
  import opened Words
  import Iters

  /** TICKS_PERIOD: tick differences are taken modulo 2^31. */
  const TicksPeriod: int := 0x8000_0000
  const TicksHalf: int := 0x4000_0000

  /** TICKS_DIFF(t1, t0): t1 - t0 + TICKS_PERIOD / 2 in uint32_t, masked to 31
    * bits, less TICKS_PERIOD / 2 in uint32_t, read as an int32_t: a
    * difference in [-2^30, 2^30). */
  function TicksDiff(t1: uint32, t0: uint32): (d: int32)
    ensures -TicksHalf <= d < TicksHalf
  {
    var x := Wrap32(t1 - t0 + TicksHalf) % TicksPeriod - TicksHalf;
    SignedOfWrap(x);
    Signed32(Wrap32(x))
  }

  /** x brought into [-2^30, 2^30) modulo 2^31. */
  function Centred(x: int): (c: int)
    ensures -TicksHalf <= c < TicksHalf
  {
    (x + TicksHalf) % TicksPeriod - TicksHalf
  }

  lemma CentredPeriodic(x: int, m: int)
    ensures Centred(x + m * TicksPeriod) == Centred(x)
  {
    var q, r := (x + TicksHalf) / TicksPeriod, (x + TicksHalf) % TicksPeriod;
    assert x + m * TicksPeriod + TicksHalf == (q + m) * TicksPeriod + r;
    Iters.DivModUnique(x + m * TicksPeriod + TicksHalf, TicksPeriod, q + m, r);
  }

  lemma CentredSmall(x: int)
    requires -TicksHalf <= x < TicksHalf
    ensures Centred(x) == x
  {
    Iters.DivModUnique(x + TicksHalf, TicksPeriod, 0, x + TicksHalf);
  }

  /** Reducing modulo 2^32 first does not change the remainder modulo 2^31. */
  lemma WrapKeepsHalfRemainder(n: int)
    ensures Wrap32(n) % TicksPeriod == n % TicksPeriod
  {
    var q, w := n / U32, Wrap32(n);
    assert n == q * U32 + w;
    var q2, r := w / TicksPeriod, w % TicksPeriod;
    assert n == (2 * q + q2) * TicksPeriod + r;
    Iters.DivModUnique(n, TicksPeriod, 2 * q + q2, r);
  }

  /** Storing a value of int32 range as uint32_t and reading it back signed
    * gives the value. */
  lemma SignedOfWrap(v: int)
    requires I32_MIN <= v <= I32_MAX
    ensures Signed32(Wrap32(v)) == v
  {
    if v >= 0 {
      Iters.DivModUnique(v, U32, 0, v);
    } else {
      Iters.DivModUnique(v, U32, -1, v + U32);
      Iters.DivModUnique(v + U32, U32, 0, v + U32);
    }
  }

  /** The difference is t1 - t0 brought into [-2^30, 2^30) modulo 2^31:
    * the 32-bit wrap-arounds do not show. */
  lemma TicksDiffIsCentred(t1: uint32, t0: uint32)
    ensures TicksDiff(t1, t0) == Centred(t1 - t0)
  {
    var n := t1 - t0 + TicksHalf;
    WrapKeepsHalfRemainder(n);
    SignedOfWrap(n % TicksPeriod - TicksHalf);
  }

  /** A time never differs from itself. */
  lemma TicksDiffSelf(t: uint32)
    ensures TicksDiff(t, t) == 0
  {
    TicksDiffIsCentred(t, t);
    CentredSmall(0);
  }

  /** Adding d ticks in uint32_t is undone by the difference, for every d in
    * [-2^30, 2^30): the wrap-around of the counter is invisible. */
  lemma TicksDiffAfterAdding(t0: uint32, d: int)
    requires -TicksHalf <= d < TicksHalf
    ensures TicksDiff(Wrap32(t0 + d), t0) == d
  {
    var t1 := Wrap32(t0 + d);
    TicksDiffIsCentred(t1, t0);
    var k := (t0 + d) / U32;
    assert t1 - t0 == d + (-2 * k) * TicksPeriod;
    CentredPeriodic(d, -2 * k);
    CentredSmall(d);
  }

  /** Adding delta ticks to t adds delta to its difference to now, modulo
    * 2^31. */
  lemma TicksDiffAdd(t: uint32, now: uint32, delta: int)
    ensures TicksDiff(Wrap32(t + delta), now) == Centred(TicksDiff(t, now) + delta)
  {
    var d := TicksDiff(t, now);
    TicksDiffIsCentred(t, now);
    var t1 := Wrap32(t + delta);
    TicksDiffIsCentred(t1, now);
    var j := (t - now + TicksHalf) / TicksPeriod;
    assert t - now == d + j * TicksPeriod;
    var k := (t + delta) / U32;
    assert t1 - now == (d + delta) + (j - 2 * k) * TicksPeriod;
    CentredPeriodic(d + delta, j - 2 * k);
  }

  /** Moving an expiry later by delta moves its difference to now by delta,
    * as long as it stays below 2^30. */
  lemma TicksDiffShift(t: uint32, now: uint32, delta: int)
    requires 0 <= delta && TicksDiff(t, now) + delta < TicksHalf
    ensures TicksDiff(Wrap32(t + delta), now) == TicksDiff(t, now) + delta
  {
    TicksDiffAdd(t, now, delta);
    CentredSmall(TicksDiff(t, now) + delta);
  }

  /** bitsflow_soft_timer_lt: expiry e1 comes before e2. */
  predicate Earlier(e1: uint32, e2: uint32) {
    TicksDiff(e1, e2) < 0
  }

  /** The heap order is irreflexive; two expiries exactly 2^30 apart each
    * come before the other. */
  lemma EarlierFacts(t: uint32)
    ensures !Earlier(t, t)
    ensures Earlier(t, Wrap32(t + TicksHalf)) && Earlier(Wrap32(t + TicksHalf), t)
  {
    TicksDiffSelf(t);
    var u := Wrap32(t + TicksHalf);
    var k := (t + TicksHalf) / U32;
    TicksDiffIsCentred(u, t);
    assert u - t == -TicksHalf + (1 - 2 * k) * TicksPeriod;
    CentredPeriodic(-TicksHalf, 1 - 2 * k);
    CentredSmall(-TicksHalf);
    TicksDiffIsCentred(t, u);
    assert t - u == -TicksHalf + 2 * k * TicksPeriod;
    CentredPeriodic(-TicksHalf, 2 * k);
  }

  /** An entry is due when its expiry is at or before now. */
  predicate Due(expiry: uint32, now: uint32) {
    TicksDiff(expiry, now) <= 0
  }

  datatype TimerMode = OneShot | Periodic

  /** bitsflow_soft_timer_entry_t: expiry, period and mode, and whether the
    * callback is a Python object (scheduled) or a C function (called). */
  class TimerEntry {
    var expiry: uint32
    const delta: uint32
    var mode: TimerMode
    const pyCallback: bool

    constructor (delta: uint32, mode: TimerMode, pyCallback: bool)
      ensures this.delta == delta && this.mode == mode && this.pyCallback == pyCallback
    {
      this.delta := delta;
      this.mode := mode;
      this.pyCallback := pyCallback;
      expiry := 0;
    }

    /** expiry_ms += delta_ms for a due periodic entry: unless the entry is
      * stuck it owes less afterwards; a stuck one stays due and stuck.
      * Answers whether it was stuck. */
    method MoveOn(now: uint32) returns (stuck: bool)
      requires mode == Periodic && Due(expiry, now)
      modifies this`expiry
      ensures expiry == Wrap32(old(expiry) + delta)
      ensures stuck <==> Stuck(delta, TicksDiff(old(expiry), now))
      ensures stuck ==> StuckEntry(this, now)
      ensures !stuck ==> Owed(expiry, delta, Periodic, now) < Owed(old(expiry), delta, Periodic, now)
    {
      stuck := Stuck(delta, TicksDiff(expiry, now));
      if stuck {
        StuckStaysDue(expiry, delta, now);
      } else {
        AdvanceOwesLess(expiry, delta, now);
      }
      expiry := Wrap32(expiry as int + delta);
    }
  }

  /** An expiry moved on by n periods in uint32_t, as the handler loop does
    * once per turn. */
  function Advanced(expiry: uint32, delta: uint32, n: nat): uint32
  {
    if n == 0 then expiry else Wrap32(Advanced(expiry, delta, n - 1) + delta)
  }

  /** Moving on first by one period and then by n is moving on by n + 1. */
  lemma {:induction false} AdvancedShift(expiry: uint32, delta: uint32, n: nat)
    ensures Advanced(Wrap32(expiry + delta), delta, n) == Advanced(expiry, delta, n + 1)
  {
    if n > 0 {
      AdvancedShift(expiry, delta, n - 1);
    }
  }

  /** A due periodic entry that moving on does not bring nearer to being
    * worked off: its period is 0 modulo 2^31, or it is 2^30 modulo 2^31
    * while the entry is exactly 0 or 2^30 late. */
  predicate Stuck(delta: uint32, d: int) {
    var r := delta % TicksPeriod;
    r == 0 || (r == TicksHalf && (d == 0 || d == -TicksHalf))
  }

  /** Moving a due periodic entry on by its period: the new difference to
    * now is the old one plus the period's remainder modulo 2^31, centred. */
  lemma AdvanceDiff(expiry: uint32, delta: uint32, now: uint32)
    ensures TicksDiff(Wrap32(expiry + delta), now) == Centred(TicksDiff(expiry, now) + delta % TicksPeriod)
  {
    var d := TicksDiff(expiry, now);
    TicksDiffAdd(expiry, now, delta);
    assert d + delta == (d + delta % TicksPeriod) + (delta / TicksPeriod) * TicksPeriod;
    CentredPeriodic(d + delta % TicksPeriod, delta / TicksPeriod);
  }

  /** What a queued entry still owes the handler loop: nothing when it is
    * not due; one turn for a due one-shot entry; for a due periodic entry a
    * count that each turn lowers unless the entry is stuck. */
  function Owed(expiry: uint32, delta: uint32, mode: TimerMode, now: uint32): (n: nat)
  {
    var d := TicksDiff(expiry, now);
    var r := delta % TicksPeriod;
    if d > 0 then 0
    else if mode == OneShot then 1
    else if 0 < r < TicksHalf then 1 - d
    else if r > TicksHalf then d + TicksHalf + 1
    else 1
  }

  /** A due periodic entry that is not stuck owes less once moved on by its
    * period. With a remainder r below 2^30 it gets less late by r; above
    * 2^30 it is either no longer due or 2^31 - r later still, but never
    * more than 2^30 late. */
  lemma AdvanceOwesLess(expiry: uint32, delta: uint32, now: uint32)
    requires Due(expiry, now) && !Stuck(delta, TicksDiff(expiry, now))
    ensures Owed(Wrap32(expiry + delta), delta, Periodic, now) < Owed(expiry, delta, Periodic, now)
  {
    var x := TicksDiff(expiry, now) + delta % TicksPeriod;
    AdvanceDiff(expiry, delta, now);
    if x < TicksHalf {
      CentredSmall(x);
    } else {
      CentredPeriodic(x - TicksPeriod, 1);
      CentredSmall(x - TicksPeriod);
    }
  }

  /** A stuck entry moved on by its period is due and stuck again. */
  lemma StuckStaysDue(expiry: uint32, delta: uint32, now: uint32)
    requires Due(expiry, now) && Stuck(delta, TicksDiff(expiry, now))
    ensures Due(Wrap32(expiry + delta), now)
    ensures Stuck(delta, TicksDiff(Wrap32(expiry + delta), now))
  {
    var x := TicksDiff(expiry, now) + delta % TicksPeriod;
    AdvanceDiff(expiry, delta, now);
    if x == TicksHalf {
      CentredPeriodic(-TicksHalf, 1);
      CentredSmall(-TicksHalf);
    } else {
      CentredSmall(x);
    }
  }

  /** However many periods a stuck entry is moved on by, it stays due: the
    * handler loop never works it off. Whether the loop itself ends depends
    * on where the entry goes back in the queue: behind an entry that is not
    * due, the loop stops (HalfPeriodOnTime, HalfPeriodLate). */
  lemma {:induction false} StuckForever(expiry: uint32, delta: uint32, now: uint32, n: nat)
    requires Due(expiry, now) && Stuck(delta, TicksDiff(expiry, now))
    ensures Due(Advanced(expiry, delta, n), now)
    ensures Stuck(delta, TicksDiff(Advanced(expiry, delta, n), now))
  {
    if n > 0 {
      StuckForever(expiry, delta, now, n - 1);
      StuckStaysDue(Advanced(expiry, delta, n - 1), delta, now);
    }
  }

  /** A periodic entry that is not stuck is no longer due after at most as
    * many periods as it owes: with StuckForever, the handler loop works an
    * entry off exactly when it is not stuck. */
  lemma {:induction false} WorkedOff(expiry: uint32, delta: uint32, now: uint32)
    requires !Stuck(delta, TicksDiff(expiry, now))
    ensures exists n: nat :: n <= Owed(expiry, delta, Periodic, now) && !Due(Advanced(expiry, delta, n), now)
    decreases Owed(expiry, delta, Periodic, now)
  {
    if Due(expiry, now) {
      var next := Wrap32(expiry + delta);
      AdvanceOwesLess(expiry, delta, now);
      if Due(next, now) {
        WorkedOff(next, delta, now);
        var m: nat :| m <= Owed(next, delta, Periodic, now) && !Due(Advanced(next, delta, m), now);
        AdvancedShift(expiry, delta, m);
        assert !Due(Advanced(expiry, delta, m + 1), now);
      } else {
        assert !Due(Advanced(expiry, delta, 1), now);
      }
    } else {
      assert !Due(Advanced(expiry, delta, 0), now);
    }
  }

  /** A queued entry as the handler loop sees it: the entry, its expiry,
    * its period and its mode. */
  datatype Slot = Slot(entry: TimerEntry, expiry: uint32, delta: uint32, mode: TimerMode)

  function SlotOf(e: TimerEntry): Slot
    reads e
  {
    Slot(e, e.expiry, e.delta, e.mode)
  }

  /** The queue as values, head first. */
  function SlotsOf(s: seq<TimerEntry>): seq<Slot>
    reads set e | e in s
  {
    seq(|s|, i requires 0 <= i < |s| reads s => SlotOf(s[i]))
  }

  lemma SlotsOfInsert(s: seq<TimerEntry>, k: nat, e: TimerEntry)
    requires k <= |s|
    ensures SlotsOf(s[..k] + [e] + s[k..]) == SlotsOf(s)[..k] + [SlotOf(e)] + SlotsOf(s)[k..]
  {
  }

  lemma SlotsOfTail(s: seq<TimerEntry>)
    requires s != []
    ensures SlotsOf(s[1..]) == SlotsOf(s)[1..] && SlotsOf(s)[0] == SlotOf(s[0])
  {
  }

  /** Where mp_pairheap_push puts an entry expiring at x: in front of the
    * first queued entry it comes before. */
  function PushPos(q: seq<Slot>, x: uint32): (k: nat)
    ensures k <= |q|
    ensures forall i :: 0 <= i < k ==> !Earlier(x, q[i].expiry)
    ensures k < |q| ==> Earlier(x, q[k].expiry)
  {
    if q == [] || Earlier(x, q[0].expiry) then 0 else 1 + PushPos(q[1..], x)
  }

  /** The position is the only one with those properties. */
  lemma {:induction false} PushPosIs(q: seq<Slot>, x: uint32, k: nat)
    requires k <= |q|
    requires forall i :: 0 <= i < k ==> !Earlier(x, q[i].expiry)
    requires k < |q| ==> Earlier(x, q[k].expiry)
    ensures PushPos(q, x) == k
  {
    if k > 0 {
      assert !Earlier(x, q[0].expiry);
      PushPosIs(q[1..], x, k - 1);
    }
  }

  /** The queue with s pushed. */
  function Pushed(q: seq<Slot>, s: Slot): seq<Slot>
  {
    var k := PushPos(q, s.expiry);
    q[..k] + [s] + q[k..]
  }

  /** expiry_ms += delta_ms in uint32_t. */
  function MovedOn(s: Slot): Slot
  {
    s.(expiry := Wrap32(s.expiry + s.delta))
  }

  /** The queue has a due head, so the handler loop takes another turn. */
  predicate HeadDue(q: seq<Slot>, now: uint32) {
    q != [] && Due(q[0].expiry, now)
  }

  /** One turn of the handler loop on the queue as values: the head is
    * popped, and pushed again one period later when it is periodic. What
    * the queue becomes depends on the queue alone. */
  function Turned(q: seq<Slot>): (r: seq<Slot>)
    requires q != []
    ensures |r| <= |q|
  {
    if q[0].mode == OneShot then q[1..] else Pushed(q[1..], MovedOn(q[0]))
  }

  /** The queue after at most n turns of the loop at time now: the loop
    * stops early when the head is not due. */
  function Rounds(q: seq<Slot>, n: nat, now: uint32): seq<Slot>
    decreases n
  {
    if n == 0 || !HeadDue(q, now) then q else Rounds(Turned(q), n - 1, now)
  }

  /** The due head of the queue is a stuck periodic entry. */
  predicate StuckHead(q: seq<Slot>, now: uint32)
    requires HeadDue(q, now)
  {
    q[0].mode == Periodic && Stuck(q[0].delta, TicksDiff(q[0].expiry, now))
  }

  /** The successive queues of a run of the handler loop: every queue but
    * the last has a due head, and each is the turn of the one before. */
  predicate LoopTrace(trace: seq<seq<Slot>>, now: uint32) {
    forall j :: 0 <= j < |trace| - 1 ==> HeadDue(trace[j], now) && trace[j + 1] == Turned(trace[j])
  }

  /** What the queued entries owe the handler loop in all. */
  function TotalOwed(q: seq<Slot>, now: uint32): (n: nat)
  {
    if q == [] then 0 else Owed(q[0].expiry, q[0].delta, q[0].mode, now) + TotalOwed(q[1..], now)
  }

  lemma {:induction false} TotalOwedSplit(a: seq<Slot>, b: seq<Slot>, now: uint32)
    ensures TotalOwed(a + b, now) == TotalOwed(a, now) + TotalOwed(b, now)
  {
    if a != [] {
      assert (a + b)[1..] == a[1..] + b;
      TotalOwedSplit(a[1..], b, now);
    } else {
      assert a + b == b;
    }
  }

  /** Inserting an entry anywhere adds what it owes to the total. */
  lemma InsertOwed(q: seq<Slot>, k: nat, s: Slot, now: uint32)
    requires k <= |q|
    ensures TotalOwed(q[..k] + [s] + q[k..], now) == TotalOwed(q, now) + Owed(s.expiry, s.delta, s.mode, now)
  {
    TotalOwedSplit(q[..k] + [s], q[k..], now);
    TotalOwedSplit(q[..k], [s], now);
    assert q == q[..k] + q[k..];
    TotalOwedSplit(q[..k], q[k..], now);
  }

  /** A turn never raises what the queue owes, and lowers it unless the
    * head is stuck: only stuck entries can keep the loop going. */
  lemma TurnOwes(q: seq<Slot>, now: uint32)
    requires HeadDue(q, now)
    ensures TotalOwed(Turned(q), now) <= TotalOwed(q, now)
    ensures !StuckHead(q, now) ==> TotalOwed(Turned(q), now) < TotalOwed(q, now)
  {
    var h := q[0];
    if h.mode == Periodic {
      var m := MovedOn(h);
      InsertOwed(q[1..], PushPos(q[1..], m.expiry), m, now);
      if Stuck(h.delta, TicksDiff(h.expiry, now)) {
        StuckStaysDue(h.expiry, h.delta, now);
      } else {
        AdvanceOwesLess(h.expiry, h.delta, now);
      }
    }
  }

  /** A run of the loop that comes back to a queue it has been at never
    * ends: however many more turns it takes, the head is due. */
  lemma {:induction false} RepeatedQueueNeverEnds(trace: seq<seq<Slot>>, now: uint32, i: nat, j: nat, n: nat)
    requires LoopTrace(trace, now)
    requires i < |trace| - 1 && trace[i] == trace[|trace| - 1]
    requires i <= j < |trace|
    ensures HeadDue(Rounds(trace[j], n, now), now)
    decreases n
  {
    var j' := if j == |trace| - 1 then i else j;
    assert trace[j'] == trace[j];
    if n > 0 {
      RepeatedQueueNeverEnds(trace, now, i, j' + 1, n - 1);
    }
  }

  lemma PushedAlone(s: Slot)
    ensures Pushed([], s) == [s]
  {
  }

  /** A stuck entry alone in the queue is pushed back as the due head on
    * every turn: the loop never ends. */
  lemma {:induction false} StuckAloneNeverEnds(s: Slot, now: uint32, n: nat)
    requires s.mode == Periodic && Due(s.expiry, now) && Stuck(s.delta, TicksDiff(s.expiry, now))
    ensures HeadDue(Rounds([s], n, now), now)
    decreases n
  {
    if n > 0 {
      var m := MovedOn(s);
      StuckStaysDue(s.expiry, s.delta, now);
      assert [s][1..] == [] && [s][0] == s;
      PushedAlone(m);
      assert Turned([s]) == [m];
      StuckAloneNeverEnds(m, now, n - 1);
    }
  }

  /** An entry with a period of 2^30 is stuck, yet the loop ends when an
    * entry that is not due waits behind it: popped on time, it goes back in
    * behind that entry at once. */
  lemma HalfPeriodOnTime(s: TimerEntry, b: TimerEntry, m: TimerMode)
    ensures var s0, b0 := Slot(s, 0, TicksHalf, Periodic), Slot(b, 1, 0, m);
      StuckHead([s0, b0], 0) && Turned([s0, b0]) == [b0, MovedOn(s0)] && !HeadDue([b0, MovedOn(s0)], 0)
  {
    var s0, b0 := Slot(s, 0, TicksHalf, Periodic), Slot(b, 1, 0, m);
    TicksDiffIsCentred(0, 0);
    assert Due(0, 0);
    var s1 := MovedOn(s0);
    assert s1.expiry == TicksHalf;
    TicksDiffIsCentred(TicksHalf, 1);
    assert !Earlier(TicksHalf, 1);
    assert PushPos([b0], TicksHalf) == 1;
    TicksDiffIsCentred(1, 0);
    assert !Due(1, 0);
  }

  /** Popped exactly 2^30 late, the same entry comes before the waiting one
    * once more and is popped twice before the loop ends. */
  lemma HalfPeriodLate(s: TimerEntry, b: TimerEntry, m: TimerMode)
    ensures var s0, b0 := Slot(s, 0, TicksHalf, Periodic), Slot(b, TicksHalf + 1, 0, m);
      var s1, s2 := MovedOn(s0), MovedOn(MovedOn(s0));
      StuckHead([s0, b0], TicksHalf)
      && Turned([s0, b0]) == [s1, b0] && StuckHead([s1, b0], TicksHalf)
      && Turned([s1, b0]) == [b0, s2] && !HeadDue([b0, s2], TicksHalf)
  {
    var s0, b0 := Slot(s, 0, TicksHalf, Periodic), Slot(b, TicksHalf + 1, 0, m);
    TicksDiffIsCentred(0, TicksHalf);
    assert TicksDiff(0, TicksHalf) == -TicksHalf;
    var s1 := MovedOn(s0);
    assert s1.expiry == TicksHalf;
    TicksDiffIsCentred(TicksHalf, TicksHalf + 1);
    assert Earlier(TicksHalf, TicksHalf + 1);
    assert PushPos([b0], TicksHalf) == 0;
    TicksDiffIsCentred(TicksHalf, TicksHalf);
    assert TicksDiff(TicksHalf, TicksHalf) == 0;
    var s2 := MovedOn(s1);
    assert s2.expiry == 2 * TicksHalf;
    TicksDiffIsCentred(2 * TicksHalf, TicksHalf + 1);
    assert !Earlier(2 * TicksHalf, TicksHalf + 1);
    assert PushPos([b0], 2 * TicksHalf) == 1;
    TicksDiffIsCentred(TicksHalf + 1, TicksHalf);
    assert !Due(TicksHalf + 1, TicksHalf);
  }

  /** Every slot made of the entries E. */
  ghost function Slots(E: set<TimerEntry>): set<Slot>
  {
    set e, x: int, d: int, m | e in E && 0 <= x < U32 && 0 <= d < U32 && m in {OneShot, Periodic} :: Slot(e, x, d, m)
  }

  /** Every queue of at most n slots made of the entries E: finitely many,
    * which bounds how many different queues a run of the loop can meet. */
  ghost function Queues(E: set<TimerEntry>, n: nat): set<seq<Slot>>
  {
    if n == 0 then {[]}
    else Queues(E, n - 1) + set q, s | q in Queues(E, n - 1) && s in Slots(E) :: q + [s]
  }

  lemma {:induction false} QueueIn(q: seq<Slot>, E: set<TimerEntry>, n: nat)
    requires |q| <= n && forall i :: 0 <= i < |q| ==> q[i].entry in E
    ensures q in Queues(E, n)
  {
    if n == 0 {
      assert q == [];
    } else if |q| < n {
      QueueIn(q, E, n - 1);
    } else {
      var p, s := q[..|q| - 1], q[|q| - 1];
      QueueIn(p, E, n - 1);
      assert s.mode == OneShot || s.mode == Periodic;
      assert s == Slot(s.entry, s.expiry, s.delta, s.mode);
      assert s in Slots(E);
      assert q == p + [s];
    }
  }

  lemma QueueOfIn(s: seq<TimerEntry>, E: set<TimerEntry>, n: nat)
    requires |s| <= n && forall e :: e in s ==> e in E
    ensures SlotsOf(s) in Queues(E, n)
  {
    QueueIn(SlotsOf(s), E, n);
  }

  /** Meeting a queue not met before leaves fewer to meet. */
  lemma FewerUnseen(all: set<seq<Slot>>, seen: set<seq<Slot>>, q: seq<Slot>)
    requires q in all && q !in seen
    ensures |all - (seen + {q})| < |all - seen|
  {
    assert all - seen == (all - (seen + {q})) + {q};
  }

  /** A run of the handler loop from queue q0 to queue q at time now: the
    * queues it went through (trace), each popped entry the head of its
    * queue; when hung, the last queue is one the run had already been at. */
  predicate Ran(trace: seq<seq<Slot>>, popped: seq<TimerEntry>, q0: seq<Slot>, q: seq<Slot>, now: uint32, hung: bool) {
    LoopTrace(trace, now) && |trace| == |popped| + 1 && trace[0] == q0 && trace[|popped|] == q
    && (forall i :: 0 <= i < |popped| ==> trace[i][0].entry == popped[i])
    && (hung ==> exists i :: 0 <= i < |popped| && trace[i] == q)
  }

  /** The expiry of each entry of s. */
  function Expiries(s: seq<TimerEntry>): map<TimerEntry, uint32>
    reads set e | e in s
  {
    map e | e in s :: e.expiry
  }

  /** The bookkeeping of a run of the handler loop: the queues it went
    * through, one more than the entries popped, each popped entry the head
    * of its queue; the queues seen are those before the current one; and
    * what the queue owes has never risen. */
  predicate Traced(trace: seq<seq<Slot>>, popped: seq<TimerEntry>, seen: set<seq<Slot>>, now: uint32) {
    LoopTrace(trace, now) && |trace| == |popped| + 1
    && (forall i :: 0 <= i < |popped| ==> trace[i][0].entry == popped[i])
    && (forall q :: q in seen ==> exists i :: 0 <= i < |popped| && trace[i] == q)
    && (forall i :: 0 <= i < |trace| ==> TotalOwed(trace[i], now) >= TotalOwed(trace[|popped|], now))
  }

  /** One more turn of the loop extends the bookkeeping. */
  lemma TraceExtends(trace: seq<seq<Slot>>, popped: seq<TimerEntry>, seen: set<seq<Slot>>, now: uint32,
                     entry: TimerEntry, after: seq<Slot>)
    requires Traced(trace, popped, seen, now)
    requires HeadDue(trace[|popped|], now) && trace[|popped|][0].entry == entry && after == Turned(trace[|popped|])
    ensures Traced(trace + [after], popped + [entry], seen + {trace[|popped|]}, now)
  {
    var before := trace[|popped|];
    TurnOwes(before, now);
    var t, p := trace + [after], popped + [entry];
    forall q | q in seen + {before}
      ensures exists i :: 0 <= i < |p| && t[i] == q
    {
      if q == before {
        assert t[|popped|] == q;
      } else {
        var i :| 0 <= i < |popped| && trace[i] == q;
        assert t[i] == q;
      }
    }
  }

  /** A turn that brings the loop back to a queue it has seen popped a
    * stuck entry: any other turn lowers what the queue owes, which has never
    * risen before. */
  lemma RepeatIsStuck(trace: seq<seq<Slot>>, popped: seq<TimerEntry>, seen: set<seq<Slot>>, now: uint32,
                      entry: TimerEntry, after: seq<Slot>)
    requires Traced(trace, popped, seen, now)
    requires HeadDue(trace[|popped|], now) && after == Turned(trace[|popped|])
    requires after in seen + {trace[|popped|]}
    ensures StuckHead(trace[|popped|], now)
  {
    var before := trace[|popped|];
    TurnOwes(before, now);
    if after != before {
      var i :| 0 <= i < |popped| && trace[i] == after;
    }
  }

  /** Inserting an entry in front of the first entry it comes before pushes
    * its slot. */
  lemma PushedSlots(s: seq<TimerEntry>, k: nat, e: TimerEntry)
    requires k <= |s|
    requires forall i :: 0 <= i < k ==> !Earlier(e.expiry, s[i].expiry)
    requires k < |s| ==> Earlier(e.expiry, s[k].expiry)
    ensures SlotsOf(s[..k] + [e] + s[k..]) == Pushed(SlotsOf(s), SlotOf(e))
  {
    PushPosIs(SlotsOf(s), e.expiry, k);
    SlotsOfInsert(s, k, e);
  }

  /** A queued entry the handler loop can never work off. */
  predicate StuckEntry(e: TimerEntry, now: uint32)
    reads e
  {
    e.mode == Periodic && Due(e.expiry, now) && Stuck(e.delta, TicksDiff(e.expiry, now))
  }

  /** The entry popped last is still queued, and stuck. */
  predicate StuckLast(popped: seq<TimerEntry>, q: seq<TimerEntry>, now: uint32)
    reads set e | e in popped
  {
    popped != [] && popped[|popped| - 1] in q && StuckEntry(popped[|popped| - 1], now)
  }

  /** The soft timer's globals: the queued entries, head first, and the
    * pause flag. The pairing heap is kept as a sequence; an entry is pushed
    * in front of the first entry it comes before. */
  class SoftTimer {
    var heap: seq<TimerEntry>
    var paused: bool

    /** An entry is queued at most once. */
    ghost predicate Valid()
      reads this
    {
      forall i, j :: 0 <= i < j < |heap| ==> heap[i] != heap[j]
    }

    /** Nothing queued, not paused. */
    constructor ()
      ensures Valid() && heap == [] && !paused
    {
      heap := [];
      paused := false;
    }

    /** bitsflow_soft_timer_deinit: drop every entry and unpause. */
    method Deinit()
      modifies this
      ensures Valid() && heap == [] && !paused
    {
      heap := [];
      paused := false;
    }

    /** mp_pairheap_push: the entry goes in front of the first queued entry
      * it comes before, after all the others. Answers its position. */
    method Push(entry: TimerEntry) returns (k: nat)
      requires Valid() && entry !in heap
      modifies this`heap
      ensures Valid()
      ensures k <= |old(heap)| && heap == old(heap)[..k] + [entry] + old(heap)[k..]
      ensures forall i :: 0 <= i < k ==> !Earlier(entry.expiry, heap[i].expiry)
      ensures k < |old(heap)| ==> Earlier(entry.expiry, old(heap)[k].expiry)
      ensures forall e :: e in heap <==> e in old(heap) || e == entry
      ensures SlotsOf(heap) == Pushed(old(SlotsOf(heap)), SlotOf(entry))
    {
      k := 0;
      while k < |heap| && !Earlier(entry.expiry, heap[k].expiry)
        invariant 0 <= k <= |heap|
        invariant forall i :: 0 <= i < k ==> !Earlier(entry.expiry, heap[i].expiry)
      {
        k := k + 1;
      }
      PushedSlots(heap, k, entry);
      heap := heap[..k] + [entry] + heap[k..];
    }

    /** bitsflow_soft_timer_insert: the entry expires initialDelta after now
      * and is queued. */
    method Insert(entry: TimerEntry, initialDelta: uint32, now: uint32)
      requires Valid() && entry !in heap
      modifies this`heap, entry`expiry
      ensures Valid()
      ensures entry.expiry == Wrap32(now + initialDelta)
      ensures TicksDiff(entry.expiry, now) == Centred(initialDelta)
      ensures initialDelta < TicksHalf ==> TicksDiff(entry.expiry, now) == initialDelta
      ensures entry in heap && |heap| == |old(heap)| + 1
      ensures forall e :: e in heap <==> e in old(heap) || e == entry
    {
      entry.expiry := Wrap32(now as int + initialDelta);
      TicksDiffAdd(now, now, initialDelta);
      Iters.DivModUnique(now, U32, 0, now);
      TicksDiffSelf(now);
      if initialDelta < TicksHalf {
        CentredSmall(initialDelta);
      }
      var _ := Push(entry);
    }

    /** bitsflow_soft_timer_handler_run(run_callbacks) at time now: pop the
      * head while it is due, fire it when callbacks run, and queue a
      * periodic one again one period later. Answers the entries popped, in
      * order, those whose callbacks ran, and the queues the loop went
      * through (trace). A turn depends only on the queue, so once the queue
      * comes back to one it has been at, the source repeats the same turns
      * for ever (RepeatedQueueNeverEnds); the model then stops and answers
      * hung. Only a stuck entry can bring the queue back (TurnOwes). */
    method HandlerRun(now: uint32, runCallbacks: bool)
      returns (popped: seq<TimerEntry>, fired: seq<TimerEntry>, hung: bool, ghost trace: seq<seq<Slot>>)
      requires Valid()
      modifies this`heap, set e | e in heap
      ensures Valid()
      ensures LoopTrace(trace, now) && |trace| == |popped| + 1
      ensures trace[0] == old(SlotsOf(heap)) && trace[|popped|] == SlotsOf(heap)
      ensures forall i :: 0 <= i < |popped| ==> trace[i][0].entry == popped[i]
      ensures !hung ==> heap == [] || !Due(heap[0].expiry, now)
      ensures hung ==> exists i :: 0 <= i < |popped| && trace[i] == trace[|popped|]
      ensures hung ==> StuckLast(popped, heap, now)
      ensures fired == if runCallbacks then popped else []
      ensures Ran(trace, popped, old(SlotsOf(heap)), SlotsOf(heap), now, hung)
      ensures Accounted(old(heap), old(Expiries(heap)), now, popped)
      ensures forall e :: e in heap ==> e in old(heap)
      ensures forall e :: e in popped ==> e in old(heap)
      ensures forall e :: e in old(heap) ==> e.mode == old(e.mode)
      ensures forall e :: e in old(heap) && !Due(old(e.expiry), now) ==>
        e in heap && e !in popped && e.expiry == old(e.expiry)
      ensures forall e :: e in old(heap) && e.mode == Periodic ==>
        e in heap && e.expiry == Advanced(old(e.expiry), e.delta, multiset(popped)[e])
      ensures forall e :: e in old(heap) && e.mode == OneShot ==>
        e.expiry == old(e.expiry) && multiset(popped)[e] <= 1 && (e in heap <==> e !in popped)
    {
      ghost var start := heap;
      ghost var e0 := Expiries(heap);
      assert Accounted(start, e0, now, []);
      popped, hung, trace := WorkOff(now, start, e0);
      fired := if runCallbacks then popped else [];
    }

    /** The handler loop itself, accounted against the queue start it
      * begins with and the expiries e0 its entries have then. It remembers
      * the queues it has been at, and stops with hung when it comes back to
      * one. */
    method WorkOff(now: uint32, ghost start: seq<TimerEntry>, ghost e0: map<TimerEntry, uint32>)
      returns (popped: seq<TimerEntry>, hung: bool, ghost trace: seq<seq<Slot>>)
      requires Valid() && Accounted(start, e0, now, [])
      modifies this`heap, (set e | e in start)`expiry
      ensures Valid() && Accounted(start, e0, now, popped)
      ensures forall e :: e in start ==> e.mode == old(e.mode)
      ensures LoopTrace(trace, now) && |trace| == |popped| + 1
      ensures trace[0] == old(SlotsOf(heap)) && trace[|popped|] == SlotsOf(heap)
      ensures forall i :: 0 <= i < |popped| ==> trace[i][0].entry == popped[i]
      ensures !hung ==> heap == [] || !Due(heap[0].expiry, now)
      ensures hung ==> exists i :: 0 <= i < |popped| && trace[i] == trace[|popped|]
      ensures hung ==> StuckLast(popped, heap, now)
    {
      ghost var entries, n, q0 := set e | e in start, |heap|, SlotsOf(heap);
      popped, hung, trace := [], false, [q0];
      var seen: set<seq<Slot>> := {};
      while heap != [] && Due(heap[0].expiry, now)
        invariant Valid() && Accounted(start, e0, now, popped) && !hung && |heap| <= n
        invariant forall e :: e in start ==> e in entries && e.mode == old(e.mode)
        invariant Traced(trace, popped, seen, now) && trace[0] == q0 && trace[|popped|] == SlotsOf(heap)
        invariant SlotsOf(heap) !in seen
        decreases |Queues(entries, n) - seen|
      {
        popped, trace, seen, hung := Step(now, start, e0, popped, trace, seen, entries, n);
        if hung {
          return;
        }
      }
    }

    /** One turn of the handler loop with its bookkeeping: the queue before
      * the turn is added to those seen, and the turn answers whether the
      * queue after it is one already seen. */
    method Step(now: uint32, ghost start: seq<TimerEntry>, ghost e0: map<TimerEntry, uint32>,
                popped: seq<TimerEntry>, ghost trace: seq<seq<Slot>>, seen: set<seq<Slot>>,
                ghost entries: set<TimerEntry>, ghost n: nat)
      returns (popped': seq<TimerEntry>, ghost trace': seq<seq<Slot>>, seen': set<seq<Slot>>, repeat: bool)
      requires Valid() && heap != [] && Due(heap[0].expiry, now)
      requires Accounted(start, e0, now, popped) && |heap| <= n
      requires forall e :: e in start ==> e in entries
      requires Traced(trace, popped, seen, now) && trace[|popped|] == SlotsOf(heap) && SlotsOf(heap) !in seen
      modifies this`heap, (set e | e in start)`expiry
      ensures Valid() && Accounted(start, e0, now, popped') && |heap| <= n
      ensures forall e :: e in start ==> e.mode == old(e.mode)
      ensures Traced(trace', popped', seen', now) && trace'[0] == trace[0] && trace'[|popped'|] == SlotsOf(heap)
      ensures |Queues(entries, n) - seen'| < |Queues(entries, n) - seen|
      ensures !repeat ==> SlotsOf(heap) !in seen'
      ensures repeat ==> exists i :: 0 <= i < |popped'| && trace'[i] == trace'[|popped'|]
      ensures repeat ==> StuckLast(popped', heap, now)
    {
      var before := SlotsOf(heap);
      QueueOfIn(heap, entries, n);
      FewerUnseen(Queues(entries, n), seen, before);
      var stuck;
      popped', stuck := Turn(heap[0], now, start, e0, popped);
      var after := SlotsOf(heap);
      seen' := seen + {before};
      trace' := trace + [after];
      TraceExtends(trace, popped, seen, now, popped'[|popped'| - 1], after);
      repeat := after in seen';
      if repeat {
        RepeatIsStuck(trace, popped, seen, now, popped'[|popped'| - 1], after);
        assert after in seen' && Traced(trace', popped', seen', now);
      }
    }

    /** What the handler loop has done so far, measured against the queue
      * start it began with and the expiries e0 its entries had then: only
      * those entries are queued or popped; an entry not due at the start is
      * untouched; a periodic entry is still queued, moved on by one period
      * per pop; a one-shot entry keeps its expiry and is popped at most
      * once, leaving the queue when it is. */
    ghost predicate Accounted(start: seq<TimerEntry>, e0: map<TimerEntry, uint32>, now: uint32, popped: seq<TimerEntry>)
      reads this, set e | e in start
    {
      (forall e :: e in start ==> e in e0)
      && (forall e :: e in heap ==> e in start)
      && (forall e :: e in popped ==> e in start)
      && (forall e :: e in start && !Due(e0[e], now) ==> e in heap && e !in popped && e.expiry == e0[e])
      && (forall e :: e in start && e.mode == Periodic ==>
            e in heap && e.expiry == Advanced(e0[e], e.delta, multiset(popped)[e]))
      && (forall e :: e in start && e.mode == OneShot ==>
            e.expiry == e0[e] && multiset(popped)[e] <= 1 && (e in heap <==> e !in popped))
    }

    /** One turn of the handler loop with its account: the due head is
      * popped and added to the entries popped. */
    method Turn(entry: TimerEntry, now: uint32, ghost start: seq<TimerEntry>, ghost e0: map<TimerEntry, uint32>,
                popped: seq<TimerEntry>) returns (next: seq<TimerEntry>, stuck: bool)
      requires Valid() && heap != [] && entry == heap[0] && Due(entry.expiry, now)
      requires Accounted(start, e0, now, popped)
      modifies this`heap, entry`expiry
      ensures Valid() && Accounted(start, e0, now, next) && next == popped + [entry]
      ensures forall e :: e in start ==> e.mode == old(e.mode)
      ensures SlotsOf(heap) == Turned(old(SlotsOf(heap))) && |heap| <= old(|heap|)
      ensures stuck <==> StuckHead(old(SlotsOf(heap)), now)
      ensures stuck ==> entry in heap && StuckEntry(entry, now)
    {
      label Before:
      var k := multiset(popped)[entry];
      stuck := PopDue(entry, now);
      next := popped + [entry];
      assert multiset(next)[entry] == k + 1;
      forall e: TimerEntry | e in start && e.mode == Periodic
        ensures e in heap && e.expiry == Advanced(e0[e], e.delta, multiset(next)[e])
      {
        if e == entry {
          assert Advanced(e0[e], e.delta, k + 1) == Wrap32(Advanced(e0[e], e.delta, k) + e.delta);
        } else {
          assert multiset(next)[e] == multiset(popped)[e];
          assert e.expiry == old@Before(e.expiry);
        }
      }
      forall e: TimerEntry | e in start && e != entry
        ensures multiset(next)[e] == multiset(popped)[e]
      {
      }
    }

    /** One turn of the handler loop, the callback aside: pop the due head
      * and queue it again one period later when it is periodic. Answers
      * whether the entry was stuck. */
    method PopDue(entry: TimerEntry, now: uint32) returns (stuck: bool)
      requires Valid() && heap != [] && entry == heap[0] && Due(entry.expiry, now)
      modifies this`heap, entry`expiry
      ensures Valid()
      ensures SlotsOf(heap) == Turned(old(SlotsOf(heap))) && |heap| <= old(|heap|)
      ensures stuck <==> entry.mode == Periodic && Stuck(entry.delta, TicksDiff(old(entry.expiry), now))
      ensures stuck ==> StuckEntry(entry, now)
      ensures entry.mode == Periodic ==> entry in heap && entry.expiry == Wrap32(old(entry.expiry) + entry.delta)
      ensures entry.mode == OneShot ==> entry !in heap && entry.expiry == old(entry.expiry)
      ensures forall e :: e in heap ==> e in old(heap)
      ensures forall e :: e in old(heap) && e != entry ==> e in heap
    {
      ghost var q := SlotsOf(heap);
      Drop();
      stuck := false;
      if entry.mode == Periodic {
        stuck := Requeue(entry, now);
      }
    }

    /** The head leaves the queue. */
    method Drop()
      requires Valid() && heap != []
      modifies this`heap
      ensures Valid() && heap == old(heap)[1..] && old(heap)[0] !in heap
      ensures SlotsOf(heap) == old(SlotsOf(heap))[1..] && SlotOf(old(heap)[0]) == old(SlotsOf(heap))[0]
    {
      SlotsOfTail(heap);
      heap := heap[1..];
    }

    /** A popped periodic entry moved on by its period and pushed again.
      * Answers whether it was stuck. */
    method Requeue(entry: TimerEntry, now: uint32) returns (stuck: bool)
      requires Valid() && entry !in heap
      requires entry.mode == Periodic && Due(entry.expiry, now)
      modifies this`heap, entry`expiry
      ensures Valid()
      ensures entry in heap && entry.expiry == Wrap32(old(entry.expiry) + entry.delta)
      ensures SlotsOf(heap) == Pushed(old(SlotsOf(heap)), MovedOn(old(SlotOf(entry))))
      ensures stuck <==> Stuck(entry.delta, TicksDiff(old(entry.expiry), now))
      ensures stuck ==> StuckEntry(entry, now)
      ensures forall e :: e in heap ==> e in old(heap) || e == entry
      ensures forall e :: e in old(heap) ==> e in heap
    {
      ghost var q, s0 := SlotsOf(heap), SlotOf(entry);
      stuck := entry.MoveOn(now);
      assert SlotsOf(heap) == q;
      assert SlotOf(entry) == MovedOn(s0);
      var _ := Push(entry);
    }

    /** bitsflow_soft_timer_handler: run the handler with callbacks unless
      * paused. Every entry popped fires; the run is accounted as in
      * HandlerRun. */
    method Handler(now: uint32) returns (fired: seq<TimerEntry>, hung: bool, ghost trace: seq<seq<Slot>>)
      requires Valid()
      modifies this`heap, set e | e in heap
      ensures Valid()
      ensures old(paused) ==> heap == old(heap) && fired == [] && !hung
      ensures old(paused) ==> forall e :: e in old(heap) ==> e.expiry == old(e.expiry)
      ensures Ran(trace, fired, old(SlotsOf(heap)), SlotsOf(heap), now, hung)
      ensures Accounted(old(heap), old(Expiries(heap)), now, fired)
      ensures !old(paused) && !hung ==> heap == [] || !Due(heap[0].expiry, now)
      ensures hung ==> StuckLast(fired, heap, now)
    {
      if !paused {
        var popped;
        popped, fired, hung, trace := HandlerRun(now, true);
      } else {
        fired, hung, trace := [], false, [SlotsOf(heap)];
      }
    }

    /** bitsflow_soft_timer_set_pause: leaving the paused state first runs
      * the handler, with or without callbacks, to catch up; the run is
      * accounted as in HandlerRun. The source sets the flag after that run;
      * the run does not read the flag, so setting it first changes nothing
      * here. */
    method SetPause(pause: bool, runCallbacks: bool, now: uint32)
      returns (popped: seq<TimerEntry>, fired: seq<TimerEntry>, hung: bool, ghost trace: seq<seq<Slot>>)
      requires Valid()
      modifies this, set e | e in heap
      ensures Valid() && paused == pause
      ensures !(old(paused) && !pause) ==> heap == old(heap) && popped == [] && !hung
      ensures !(old(paused) && !pause) ==> forall e :: e in old(heap) ==> e.expiry == old(e.expiry)
      ensures fired == if runCallbacks then popped else []
      ensures Ran(trace, popped, old(SlotsOf(heap)), SlotsOf(heap), now, hung)
      ensures Accounted(old(heap), old(Expiries(heap)), now, popped)
      ensures old(paused) && !pause && !hung ==> heap == [] || !Due(heap[0].expiry, now)
      ensures hung ==> StuckLast(popped, heap, now)
    {
      var catchUp := paused && !pause;
      paused := pause;
      if catchUp {
        popped, fired, hung, trace := HandlerRun(now, runCallbacks);
      } else {
        popped, fired, hung, trace := [], [], false, [SlotsOf(heap)];
      }
    }

    /** bitsflow_soft_timer_get_ms_to_next_expiry: UINT32_MAX with nothing
      * queued, 0 when the head is due, otherwise how far ahead it is. */
    method MsToNextExpiry(now: uint32) returns (ms: uint32)
      requires Valid()
      ensures heap == [] ==> ms == U32_MAX
      ensures heap != [] && Due(heap[0].expiry, now) ==> ms == 0
      ensures heap != [] && !Due(heap[0].expiry, now) ==> ms == TicksDiff(heap[0].expiry, now) && 0 < ms < TicksHalf
    {
      if heap == [] {
        return U32_MAX;
      }
      var dt := TicksDiff(heap[0].expiry, now);
      if dt <= 0 {
        return 0;
      }
      return dt;
    }
  }
}
