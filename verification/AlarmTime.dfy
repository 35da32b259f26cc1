/**
 The 32-bit time base of the alarm facility: a wrapping tick counter, and for each alarm a 32-bit time with a
 one-bit rollover flag. This module relates them to unbounded tick numbers and deadlines.
 */
module AlarmTime {
  import opened Words

  /** What the alarm structure stores about its next callback. */
  datatype Stamp = Stamp(time: UInt32, rollover: bool)

  function Counter(now: nat): (c: UInt32) { now % TWO_32 }

  /** The stamp written by alt_alarm_start for a delay of nticks. */
  function StartStamp(counter: UInt32, nticks: UInt32): (s: Stamp)
  {
    var time: UInt32 := (nticks + counter + 1) % TWO_32;
    Stamp(time, time < counter)
  }

  /** The rollover flag is dropped on the tick on which the counter wraps to zero. */
  function ClearRollover(s: Stamp, counter: UInt32): Stamp
  {
    if s.rollover && counter == 0 then s.(rollover := false) else s
  }

  predicate Expired(s: Stamp, counter: UInt32)
  {
    s.time <= counter && !s.rollover
  }

  /** The stamp written by alt_tick after a callback that asked for another period. */
  function ReloadStamp(s: Stamp, counter: UInt32, period: UInt32): Stamp
  {
    var time: UInt32 := (s.time + period) % TWO_32;
    Stamp(time, s.rollover || time < counter)
  }

  const LAST: UInt32 := 0xFFFF_FFFF

  /**
   The stamp stands for the unbounded deadline due, seen at tick now: less than one full turn of the counter ahead,
   the flag set when the counter wraps before it. With the counter at its last value the next tick clears the flag,
   so the flag is of no account there and the deadline may be a whole turn ahead.
   */
  ghost predicate Encodes(s: Stamp, due: nat, now: nat)
  {
    && now < due && s.time == due % TWO_32
    && if Counter(now) == LAST then due <= now + TWO_32
       else due < now + TWO_32 && s.rollover == (due / TWO_32 > now / TWO_32)
  }

  /** The quotients of a tick and of a later one less than two turns ahead. */
  lemma Ahead(now: nat, k: nat)
    requires k <= TWO_32
    ensures var c := Counter(now);
            if c + k < TWO_32 then (now + k) / TWO_32 == now / TWO_32 && Counter(now + k) == c + k
            else (now + k) / TWO_32 == now / TWO_32 + 1 && Counter(now + k) == c + k - TWO_32
  {
    var q, c := now / TWO_32, Counter(now);
    if c + k < TWO_32 {
      TurnIs(now + k, q, c + k);
    } else {
      TurnIs(now + k, q + 1, c + k - TWO_32);
    }
  }

  /** A 32-bit sum. */
  lemma SumWraps(a: UInt32, b: nat)
    requires b <= TWO_32
    ensures (a + b) % TWO_32 == if a + b < TWO_32 then a + b else a + b - TWO_32
  {
    TurnIs(a + b, if a + b < TWO_32 then 0 else 1, if a + b < TWO_32 then a + b else a + b - TWO_32);
  }

  /** Starting stands for the deadline one tick past the delay: the largest delay only with the counter at its last value. */
  lemma StartEncodes(now: nat, nticks: UInt32)
    requires nticks < LAST || Counter(now) == LAST
    ensures Encodes(StartStamp(Counter(now), nticks), now + nticks + 1, now)
  {
    Ahead(now, nticks + 1);
    SumWraps(Counter(now), nticks + 1);
  }

  /** One tick: the alarm expires exactly when its deadline is reached, and otherwise still stands for it. */
  lemma TickIsExact(s: Stamp, due: nat, now: nat)
    requires Encodes(s, due, now)
    ensures var s' := ClearRollover(s, Counter(now + 1));
            && (Expired(s', Counter(now + 1)) <==> due == now + 1)
            && (due != now + 1 ==> Encodes(s', due, now + 1))
            && (due == now + 1 ==> s' == Stamp(Counter(now + 1), false))
  {
    Ahead(now, 1);
    Ahead(now, due - now);
  }

  /**
   Reloading by any non-zero period moves the deadline by exactly that period, whether the deadline is now or, after
   a restart during the callback, ahead, as long as the new deadline is less than one turn away.
   */
  lemma ReloadEncodes(s: Stamp, due: nat, now: nat, period: UInt32)
    requires period > 0 && now <= due && due + period < now + TWO_32
    requires if due == now then s == Stamp(Counter(now), false) else Encodes(s, due, now)
    ensures Encodes(ReloadStamp(s, Counter(now), period), due + period, now)
  {
    Ahead(now, due - now);
    Ahead(now, due + period - now);
    SumWraps(s.time, period);
  }

  /**
   The stamp of an alarm that the loop of alt_tick comes to after it was stopped: not yet compared in this tick, or
   compared before in it.
   */
  ghost predicate Halts(s: Stamp, due: nat, now: nat)
  {
    && 0 < now <= due
    && (|| Encodes(s, due, now - 1)
        || (due == now && s == Stamp(Counter(now), false))
        || (due > now && Encodes(s, due, now) && !Expired(s, Counter(now))))
  }

  /** However often the loop compares it, it has expired exactly when its deadline is now. */
  lemma HaltedTest(s: Stamp, due: nat, now: nat)
    requires Halts(s, due, now)
    ensures var s' := ClearRollover(s, Counter(now));
            && (Expired(s', Counter(now)) <==> due == now) && Halts(s', due, now)
            && (due == now ==> s' == Stamp(Counter(now), false))
  {
    if Encodes(s, due, now - 1) {
      TickIsExact(s, due, now - 1);
    } else if due > now {
      Ahead(now, due - now);
    }
  }

  /** Reloaded, it is not due again in this tick. */
  lemma HaltedReload(now: nat, period: UInt32)
    requires now > 0 && period > 0
    ensures Halts(ReloadStamp(Stamp(Counter(now), false), Counter(now), period), now + period, now)
  {
    ReloadEncodes(Stamp(Counter(now), false), now, now, period);
    SumWraps(Counter(now), period);
  }

  /** One alarm over one tick: clear the flag, test, and reload when the callback asks for another period. */
  function TickStamp(s: Stamp, counter: UInt32, period: UInt32): (r: (bool, Stamp))
  {
    var s' := ClearRollover(s, counter);
    if Expired(s', counter) then (true, ReloadStamp(s', counter, period)) else (false, s')
  }

  /** The ticks at which the callback of a periodic alarm runs, over the given number of ticks after now. */
  function Callbacks(s: Stamp, now: nat, period: UInt32, ticks: nat): (at: seq<nat>)
    decreases ticks
  {
    if ticks == 0 then [] else
    var (fires, s') := TickStamp(s, Counter(now + 1), period);
    (if fires then [now + 1] else []) + Callbacks(s', now + 1, period, ticks - 1)
  }

  /** The intended schedule, in unbounded time: due, due + period, ... up to the last tick. */
  function Schedule(due: nat, period: nat, last: nat): (at: seq<nat>)
    requires period > 0
    decreases last + 1 - due
  {
    if due > last then [] else [due] + Schedule(due + period, period, last)
  }

  /** Over any number of ticks, through any number of counter wraps, the callbacks are the intended schedule. */
  lemma {:induction false} CallbacksFollowSchedule(s: Stamp, due: nat, now: nat, period: UInt32, ticks: nat)
    requires period > 0 && Encodes(s, due, now)
    ensures Callbacks(s, now, period, ticks) == Schedule(due, period, now + ticks)
    decreases ticks
  {
    if ticks == 0 {
    } else {
      TickIsExact(s, due, now);
      var (fires, s') := TickStamp(s, Counter(now + 1), period);
      if fires {
        ReloadEncodes(Stamp(Counter(due), false), due, due, period);
        CallbacksFollowSchedule(s', due + period, now + 1, period, ticks - 1);
      } else {
        CallbacksFollowSchedule(s', due, now + 1, period, ticks - 1);
      }
    }
  }

  /** The schedule lists exactly the ticks due + k * period, in order. */
  lemma {:induction false} ScheduleIsArithmetic(due: nat, period: nat, last: nat, k: nat)
    requires period > 0
    ensures k < |Schedule(due, period, last)| <==> due + k * period <= last
    ensures k < |Schedule(due, period, last)| ==> Schedule(due, period, last)[k] == due + k * period
    decreases k
  {
    if k == 0 {
    } else {
      assert k * period == period + (k - 1) * period;
      if due <= last {
        ScheduleIsArithmetic(due + period, period, last, k - 1);
      }
    }
  }

  /** An alarm started at now with delay n and constant period p runs at now + n + 1 + k * p, for every k. */
  lemma PeriodicAlarmIsExact(now: nat, n: UInt32, p: UInt32, ticks: nat, k: nat)
    requires (n < LAST || Counter(now) == LAST) && p > 0
    ensures var at := Callbacks(StartStamp(Counter(now), n), now, p, ticks);
            && (k < |at| <==> n + 1 + k * p <= ticks)
            && (k < |at| ==> at[k] == now + n + 1 + k * p)
  {
    StartEncodes(now, n);
    CallbacksFollowSchedule(StartStamp(Counter(now), n), now + n + 1, now, p, ticks);
    ScheduleIsArithmetic(now + n + 1, p, now + ticks, k);
  }

  /** A one-shot view: the first tick after now, up to the given number of ticks, at which the alarm expires. */
  function FirstExpiry(s: Stamp, now: nat, ticks: nat): (at: Option<nat>)
    decreases ticks
  {
    if ticks == 0 then None else
    var s' := ClearRollover(s, Counter(now + 1));
    if Expired(s', Counter(now + 1)) then Some(now + 1) else FirstExpiry(s', now + 1, ticks - 1)
  }

  lemma {:induction false} FirstExpiryIsDue(s: Stamp, due: nat, now: nat, ticks: nat)
    requires Encodes(s, due, now)
    ensures FirstExpiry(s, now, ticks) == if due <= now + ticks then Some(due) else None
    decreases ticks
  {
    if ticks == 0 {
    } else {
      TickIsExact(s, due, now);
      if due != now + 1 {
        FirstExpiryIsDue(ClearRollover(s, Counter(now + 1)), due, now + 1, ticks - 1);
      }
    }
  }

  /** Short of the maximum, a time equal to the counter without the flag expires on the very next tick. */
  lemma {:induction false} MissingFlagExpiresAtOnce(now: nat, ticks: nat)
    requires Counter(now) < LAST && ticks > 0
    ensures FirstExpiry(Stamp(Counter(now), false), now, ticks) == Some(now + 1)
  {
    var s := Stamp(Counter(now), false);
    Ahead(now, 1);
    assert ClearRollover(s, Counter(now + 1)) == s && Expired(s, Counter(now + 1));
  }

  /**
   Exactly when a start is on time, for every delay: the largest delay works only if the counter is at its
   maximum; otherwise it leaves time == counter without the flag, and the alarm expires on the very next tick.
   */
  lemma {:induction false} StartIsExactIff(now: nat, n: UInt32)
    ensures FirstExpiry(StartStamp(Counter(now), n), now, n + 1) == Some(now + n + 1)
            <==> n < LAST || Counter(now) == LAST
    ensures n == LAST && Counter(now) < LAST ==> FirstExpiry(StartStamp(Counter(now), n), now, n + 1) == Some(now + 1)
  {
    var s, ticks: nat := StartStamp(Counter(now), n), n + 1;
    if n < LAST || Counter(now) == LAST {
      StartEncodes(now, n);
      FirstExpiryIsDue(s, now + ticks, now, ticks);
    } else {
      SumWraps(Counter(now), n + 1);
      MissingFlagExpiresAtOnce(now, ticks);
    }
  }
}
