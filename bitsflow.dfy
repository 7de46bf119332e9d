// The bitsflow module's own functions (modbitsflow.c): the volume clamp, the
// sleep gate, and run_every with its timer object, which wraps a periodic
// soft-timer entry around a Python callback.

module Bitsflow {
  import opened Wrappers
  import opened Words
  import opened SoftTimers
  import Iters

  const MaxVolume: int := 255

  /** set_volume(v): the volume handed to the board, v clamped to [0, 255]. */
  function Volume(v: int32): (r: int)
    ensures 0 <= r <= MaxVolume
    ensures 0 <= v <= MaxVolume ==> r == v
    ensures v < 0 ==> r == 0
    ensures v > MaxVolume ==> r == MaxVolume
  {
    if v < 0 then 0 else if v > MaxVolume then MaxVolume else v
  }

  /** Clamping twice is clamping once, and the clamp keeps the order of
    * volumes. */
  lemma VolumeIdempotentMonotone(v: int32, w: int32)
    ensures Volume(Volume(v)) == Volume(v)
    ensures v <= w ==> Volume(v) <= Volume(w)
  {
  }

  /** The argument of sleep: an integer, or a float that is cast to an
    * integer. */
  datatype SleepArg = IntMs(i: int32) | FloatMs(f: real)

  /** A C cast of a float to an integer: the fraction is dropped, towards
    * zero. */
  function TruncateTowardZero(f: real): (n: int)
    ensures f >= 0.0 ==> n as real <= f < n as real + 1.0
    ensures f < 0.0 ==> n as real - 1.0 < f <= n as real
  {
    if f >= 0.0 then f.Floor else -((-f).Floor)
  }

  /** The number of milliseconds sleep waits for. */
  function SleepMs(arg: SleepArg): (ms: int)
  {
    match arg
    case IntMs(i) => i
    case FloatMs(f) => TruncateTowardZero(f)
  }

  /** sleep(ms): the delay asked of the board, if any; zero, negative and
    * sub-millisecond arguments return at once. */
  function Sleep(arg: SleepArg): (delay: Option<nat>)
    ensures delay.Some? <==> SleepMs(arg) > 0
    ensures delay.Some? ==> delay.value == SleepMs(arg)
  {
    var ms := SleepMs(arg);
    if ms > 0 then Some(ms) else None
  }

  /** A float is cut towards zero before the gate: anything below one
    * millisecond, and every negative float, does not delay; 1.9 sleeps 1. */
  lemma SleepTruncates(f: real)
    ensures f < 1.0 ==> Sleep(FloatMs(f)) == None
    ensures f >= 1.0 ==> Sleep(FloatMs(f)).Some? && Sleep(FloatMs(f)).value as real <= f
    ensures Sleep(FloatMs(1.9)) == Some(1)
  {
  }

  const MsPerSecond: int := 1000
  const MsPerMinute: int := 60 * MsPerSecond
  const MsPerHour: int := 60 * MsPerMinute
  const MsPerDay: int := 24 * MsPerHour

  /** run_every's period: days, hours, minutes, seconds and milliseconds
    * summed in milliseconds, in 32-bit words (mp_int_t arithmetic stored in
    * a uint32_t, equal modulo 2^32). */
  function RunEveryPeriod(days: int32, h: int32, min: int32, s: int32, ms: int32): (p: uint32)
    ensures (p - (days * MsPerDay + h * MsPerHour + min * MsPerMinute + s * MsPerSecond + ms)) % U32 == 0
  {
    Wrap32(days * MsPerDay + h * MsPerHour + min * MsPerMinute + s * MsPerSecond + ms)
  }

  /** A period that fits in 32 bits is the exact sum of its parts. */
  lemma RunEveryPeriodExact(days: int32, h: int32, min: int32, s: int32, ms: int32)
    requires var total := days * MsPerDay + h * MsPerHour + min * MsPerMinute + s * MsPerSecond + ms;
      0 <= total < U32
    ensures RunEveryPeriod(days, h, min, s, ms) == days * MsPerDay + h * MsPerHour + min * MsPerMinute + s * MsPerSecond + ms
  {
  }

  /** One hour is 3600000 ms; fifty days overflow 32 bits and wrap to about
    * seven hours; with no argument the period is zero. */
  lemma RunEveryPeriodExamples()
    ensures RunEveryPeriod(0, 1, 0, 0, 0) == 3600000
    ensures RunEveryPeriod(0, 0, 1, 30, 0) == 90000
    ensures RunEveryPeriod(50, 0, 0, 0, 0) == 4320000000 - U32
    ensures RunEveryPeriod(0, 0, 0, 0, 0) == 0
  {
  }

  /** The sum of a period's parts, in unbounded integers. */
  function PeriodTotal(days: int32, h: int32, min: int32, s: int32, ms: int32): int
  {
    days * MsPerDay + h * MsPerHour + min * MsPerMinute + s * MsPerSecond + ms
  }

  /** As written, run_every() with no time argument queues a period of 0:
    * once due, the entry is due again after any number of periods, so the
    * soft timer handler never works it off; when it is the only entry
    * queued, the handler loop never ends. */
  lemma NoArgumentPeriodStuck(e: TimerEntry, expiry: uint32, now: uint32, n: nat)
    requires Due(expiry, now)
    ensures RunEveryPeriod(0, 0, 0, 0, 0) == 0
    ensures Due(Advanced(expiry, RunEveryPeriod(0, 0, 0, 0, 0), n), now)
    ensures HeadDue(Rounds([Slot(e, expiry, RunEveryPeriod(0, 0, 0, 0, 0), Periodic)], n, now), now)
  {
    StuckForever(expiry, 0, now, n);
    StuckAloneNeverEnds(Slot(e, expiry, 0, Periodic), now, n);
  }

  /** As written, a period of 2^30 ms or more (here 13 days) is due at once:
    * the difference of its expiry to now wraps to a negative value. */
  lemma LongPeriodDueAtOnce(now: uint32)
    ensures RunEveryPeriod(13, 0, 0, 0, 0) == 1123200000
    ensures TicksDiff(Wrap32(now + RunEveryPeriod(13, 0, 0, 0, 0)), now) == 1123200000 - TicksPeriod
    ensures Due(Wrap32(now + RunEveryPeriod(13, 0, 0, 0, 0)), now)
  {
    var p := 1123200000;
    TicksDiffAdd(now, now, p);
    TicksDiffSelf(now);
    Iters.DivModUnique(now, U32, 0, now);
    CentredPeriodic(p - TicksPeriod, 1);
    CentredSmall(p - TicksPeriod);
  }

  /** run_every refuses a period outside (0, 2^30) with ValueError. */
  datatype PeriodError = PeriodOutOfRange

  /** run_every's period as corrected: the sum of its parts, refused unless
    * it lies in (0, 2^30), the periods the 31-bit tick differences keep. */
  function CheckedPeriod(days: int32, h: int32, min: int32, s: int32, ms: int32): (r: Result<uint32, PeriodError>)
    ensures r.Ok? <==> 0 < PeriodTotal(days, h, min, s, ms) < TicksHalf
    ensures r.Ok? ==> r.value == PeriodTotal(days, h, min, s, ms) == RunEveryPeriod(days, h, min, s, ms)
  {
    var total := PeriodTotal(days, h, min, s, ms);
    if 0 < total < TicksHalf then Ok(RunEveryPeriod(days, h, min, s, ms)) else Err(PeriodOutOfRange)
  }

  /** A period that passes the check is kept: an entry queued with it is
    * not due at once but exactly one period later, and it is never stuck,
    * so the handler works it off (SoftTimers.WorkedOff). */
  lemma CheckedPeriodIsKept(days: int32, h: int32, min: int32, s: int32, ms: int32, now: uint32)
    requires CheckedPeriod(days, h, min, s, ms).Ok?
    ensures var p := CheckedPeriod(days, h, min, s, ms).value;
      TicksDiff(Wrap32(now + p), now) == p && !Due(Wrap32(now + p), now)
    ensures forall d :: !Stuck(CheckedPeriod(days, h, min, s, ms).value, d)
  {
    var p := CheckedPeriod(days, h, min, s, ms).value;
    TicksDiffAfterAdding(now, p);
    Iters.DivModUnique(p, TicksPeriod, 0, p);
  }

  /** A Python callable, by identity. */
  type Callable = nat

  /** bitsflow_run_every_obj_t: a soft-timer entry and the user callback,
    * absent (MP_OBJ_NULL) until the object is called. */
  class RunEvery {
    const timer: TimerEntry
    var userCallback: Option<Callable>

    /** bitsflow_run_every_new(period): a periodic entry with a Python
      * callback and that period as its delta, not yet queued, and no user
      * callback. */
    constructor (periodMs: uint32)
      ensures fresh(timer)
      ensures timer.mode == Periodic && timer.delta == periodMs && timer.pyCallback
      ensures userCallback == None
    {
      timer := new TimerEntry(periodMs, Periodic, true);
      userCallback := None;
    }

    /** bitsflow_run_every_obj_call(f): install f as the user callback and
      * queue the entry one period after now. Answers the object itself. */
    method Call(f: Callable, st: SoftTimer, now: uint32)
      requires st.Valid() && timer !in st.heap
      modifies this`userCallback, st`heap, timer`expiry
      ensures userCallback == Some(f)
      ensures st.Valid() && timer in st.heap
      ensures forall e :: e in st.heap <==> e in old(st.heap) || e == timer
      ensures timer.expiry == Wrap32(now + timer.delta)
      ensures timer.delta < TicksHalf ==> TicksDiff(timer.expiry, now) == timer.delta
    {
      userCallback := Some(f);
      st.Insert(timer, timer.delta, now);
    }

    /** bitsflow_run_every_callback, fired by the soft timer: nothing without
      * a user callback; otherwise the callback is called and, when it
      * raises, the entry becomes one-shot and the callback is dropped so
      * it is not called again. Answers whether the callback was called. */
    method Callback(raises: bool) returns (called: bool)
      modifies this`userCallback, timer`mode
      ensures called <==> old(userCallback).Some?
      ensures called && raises ==> timer.mode == OneShot && userCallback == None
      ensures !(called && raises) ==> timer.mode == old(timer.mode) && userCallback == old(userCallback)
    {
      if userCallback == None {
        return false;
      }
      called := true;
      if raises {
        timer.mode := OneShot;
        userCallback := None;
      }
    }
  }

  /** bitsflow.run_every(callback, days, h, min, s, ms), with the period
    * checked: a new run_every object for the period; with no callback the
    * object is returned as a decorator and no timer starts, otherwise it is
    * called with the callback, which queues its entry. */
  method RunEveryStart(callback: Option<Callable>, days: int32, h: int32, min: int32, s: int32, ms: int32,
                       st: SoftTimer, now: uint32) returns (r: Result<RunEvery, PeriodError>)
    requires st.Valid()
    modifies st`heap
    ensures st.Valid()
    ensures r.Err? <==> CheckedPeriod(days, h, min, s, ms).Err?
    ensures r.Err? ==> st.heap == old(st.heap)
    ensures r.Ok? ==> fresh(r.value) && fresh(r.value.timer)
    ensures r.Ok? ==> r.value.timer.mode == Periodic && r.value.timer.pyCallback && r.value.userCallback == callback
    ensures r.Ok? ==> r.value.timer.delta == CheckedPeriod(days, h, min, s, ms).value
    ensures r.Ok? && callback.None? ==> st.heap == old(st.heap)
    ensures r.Ok? && callback.Some? ==> r.value.timer in st.heap && forall e :: e in st.heap <==> e in old(st.heap) || e == r.value.timer
  {
    var period := CheckedPeriod(days, h, min, s, ms);
    if period.Err? {
      return Err(period.error);
    }
    var obj := new RunEvery(period.value);
    if callback.Some? {
      obj.Call(callback.value, st, now);
    }
    r := Ok(obj);
  }
}
