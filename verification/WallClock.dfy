/**
 The wall clock: settimeofday and gettimeofday over the 32-bit tick counter. The first multiplies in 32 bits, the
 second in 64.
 */
module WallClock {
  import opened Words

  const US: int := 1_000_000

  /** A signed 32-bit integer, and conversion to it from any integer. */
  type Int32 = x: int | -0x8000_0000 <= x < 0x8000_0000

  function ToInt32(x: int): (r: Int32)
    ensures -0x8000_0000 <= x < 0x8000_0000 ==> r == x
  {
    (x + 0x8000_0000) % TWO_32 - 0x8000_0000
  }

  datatype Timeval = Timeval(sec: Int32, usec: Int32)
  datatype Timezone = Timezone(minutesWest: int, dstTime: int)

  /** A time in normal form, not before the epoch. */
  predicate Normal(t: Timeval) { 0 <= t.sec && 0 <= t.usec < US }

  function Micros(t: Timeval): int { t.sec * US + t.usec }

  // ------------------------------------------------------------------ what the two calls compute

  /** Microseconds a tick. */
  function TickUs(rate: UInt32): nat
    requires rate > 0
  {
    US / rate
  }

  function Product32(n: UInt32, rate: UInt32): UInt32
    requires rate > 0
  {
    n * TickUs(rate) % TWO_32
  }

  function ResetTime(t: Timeval, n: UInt32, rate: UInt32): Timeval
    requires rate > 0
  {
    Timeval(ToInt32(t.sec - n / rate), ToInt32(t.usec - Product32(n, rate) % US))
  }

  /** The first loop of gettimeofday: borrow from the seconds, or give up at 0. */
  function Borrowed(t: Timeval): (r: Timeval)
    ensures r.usec >= 0
    decreases if t.usec < 0 then -(t.usec as int) else 0
  {
    if t.usec >= 0 then t
    else if t.sec <= 0 then Timeval(0, 0)
    else Borrowed(Timeval(t.sec - 1, t.usec + US))
  }

  /** The second loop: carry into the seconds. */
  function Carried(t: Timeval): (r: Timeval)
    ensures r.usec < US && (t.usec >= 0 ==> r.usec >= 0)
    decreases if t.usec >= US then t.usec else 0
  {
    if t.usec < US then t else Carried(Timeval(ToInt32(t.sec + 1), t.usec - US))
  }

  /** The sum before normalisation. */
  function RawTime(reset: Timeval, n: UInt32, rate: UInt32): Timeval
    requires rate > 0
  {
    Timeval(ToInt32(reset.sec + n / rate), ToInt32(reset.usec + n * TickUs(rate) % US))
  }

  function TimeNow(reset: Timeval, n: UInt32, rate: UInt32): Timeval
    requires rate > 0
  {
    Carried(Borrowed(RawTime(reset, n, rate)))
  }

  // ------------------------------------------------------------------ the law

  /** The error of a setting: what the 32-bit product loses, in microseconds. */
  function SetError(n: UInt32, rate: UInt32): int
    requires rate > 0
  {
    n * TickUs(rate) % US - Product32(n, rate) % US
  }

  lemma DivModUnique(x: int, d: int, q: int, r: int)
    requires d > 0 && x == q * d + r && 0 <= r < d
    ensures x / d == q && x % d == r
  {
    var z := q - x / d;
    assert z * d == x % d - r;
    SmallMultiple(z, d);
  }

  lemma SmallMultiple(z: int, d: int)
    requires d > 0 && -d < z * d < d
    ensures z == 0
  {
    assert z >= 1 ==> (z - 1) * d >= 0;
    assert z <= -1 ==> (-1 - z) * d >= 0;
  }

  /** With a rate that divides a million, whole seconds and the rest add up to the ticks' microseconds. */
  lemma TicksSplit(n: nat, rate: UInt32)
    requires rate > 0 && US % rate == 0
    ensures n / rate * US + n * TickUs(rate) % US == n * TickUs(rate)
  {
    var u, q, r := TickUs(rate), n / rate, n % rate;
    assert n == q * rate + r;
    Distribute(q, rate, r, u);
    RemainderIsSmall(r, u, rate);
    DivModUnique(n * u, US, q, r * u);
  }

  lemma Distribute(q: int, rate: int, r: int, u: int)
    ensures (q * rate + r) * u == q * (rate * u) + r * u
  {
  }

  lemma RemainderIsSmall(r: nat, u: nat, rate: nat)
    requires r < rate && rate * u == US
    ensures 0 <= r * u < US
  {
    assert u > 0;
    assert (rate - 1 - r) * u >= 0;
    assert (rate - 1 - r) * u == rate * u - u - r * u;
  }

  /** Exactly when the two calls' tick arithmetic is that of a clock: the rate divides a million. */
  lemma TickArithmeticIsExactIff(rate: UInt32)
    requires rate > 0
    ensures (forall n: UInt32 :: n / rate * US + n * TickUs(rate) % US == n * US / rate) <==> US % rate == 0
  {
    if US % rate == 0 {
      forall n: UInt32
        ensures n / rate * US + n * TickUs(rate) % US == n * US / rate
      {
        TicksSplit(n, rate);
        assert rate * TickUs(rate) == US;
        assert n * US == n * TickUs(rate) * rate;
        DivModUnique(n * US, rate, n * TickUs(rate), 0);
      }
    } else if rate < US {
      var n: UInt32 := rate;
      var u := TickUs(rate);
      DivModUnique(US, rate, u, US % rate);
      assert u > 0 && n * u == US - US % rate;
      DivModUnique(n * u, US, 0, n * u);
      DivModUnique(n * US, rate, US, 0);
      assert n / rate == 1;
      assert n / rate * US + n * TickUs(rate) % US != n * US / rate;
    } else {
      var n: UInt32 := rate - 1;
      assert TickUs(rate) == 0 && n * 0 == 0;
      assert n * US == (US - 1) * rate + (rate - US);
      DivModUnique(n * US, rate, US - 1, rate - US);
      assert n / rate * US + n * TickUs(rate) % US != n * US / rate;
    }
  }

  /** Through both calls the seconds lose nothing to 32-bit wrap-around, provided the sum itself fits. */
  lemma SecondsAddUp(s: Int32, q0: nat, q1: nat)
    requires q0 <= q1 && s + q1 - q0 < 0x8000_0000
    ensures ToInt32(ToInt32(s - q0) + q1) == s + q1 - q0
  {
    var x := s - q0 + 0x8000_0000;
    var k := x / TWO_32;
    assert ToInt32(s - q0) == s - q0 - k * TWO_32;
    DivModUnique(ToInt32(s - q0) + q1 + 0x8000_0000, TWO_32, -k, s + q1 - q0 + 0x8000_0000);
  }

  /** The time in normal form. */
  ghost predicate Is(t: Timeval, micros: int) { Normal(t) && Micros(t) == micros }

  lemma NormalisedIs(raw: Timeval)
    requires 0 <= raw.sec < 0x7FFF_FFFF && -US < raw.usec < 2 * US
    ensures Is(Carried(Borrowed(raw)), if Micros(raw) >= 0 then Micros(raw) else 0)
    ensures Borrowed(raw) != Timeval(0, 0) || Micros(raw) <= 0
  {
    if 0 > raw.usec && raw.sec > 0 {
      assert Borrowed(raw) == Timeval(raw.sec - 1, raw.usec + US);
    } else if raw.usec >= US {
      assert Carried(raw) == Timeval(raw.sec + 1, raw.usec - US);
    }
  }

  /**
   A time set at tick n0 and read at tick n1 is the time set plus the ticks between, plus the error of the setting,
   which stays the same whenever the time is read; a sum before the epoch reads as the epoch.
   */
  lemma SetThenGet(t: Timeval, n0: UInt32, n1: UInt32, rate: UInt32)
    requires rate > 0 && US % rate == 0 && n0 <= n1
    requires Normal(t) && t.sec + n1 / rate - n0 / rate < 0x7FFF_FFFF
    ensures var due := Micros(t) + (n1 - n0) * TickUs(rate) + SetError(n0, rate);
            Is(TimeNow(ResetTime(t, n0, rate), n1, rate), if due >= 0 then due else 0)
  {
    var u := TickUs(rate);
    var raw := RawTime(ResetTime(t, n0, rate), n1, rate);
    TicksSplit(n0, rate);
    TicksSplit(n1, rate);
    DivMonotone(n0, n1, rate);
    SecondsAddUp(t.sec, n0 / rate, n1 / rate);
    assert raw.sec == t.sec + n1 / rate - n0 / rate;
    assert raw.usec == t.usec - Product32(n0, rate) % US + n1 * u % US;
    assert (n1 - n0) * u == n1 * u - n0 * u;
    NormalisedIs(raw);
  }

  lemma DivMonotone(a: nat, b: nat, d: nat)
    requires a <= b && d > 0
    ensures a / d <= b / d
  {
    var qa, qb := a / d, b / d;
    assert qa > qb ==> (qa - qb - 1) * d >= 0;
  }

  /** The 32-bit product loses nothing exactly when its number of wraps is a multiple of 15625, that is 5 to the 6th. */
  lemma SetErrorIsZeroIff(n: UInt32, rate: UInt32)
    requires rate > 0
    ensures SetError(n, rate) == 0 <==> n * TickUs(rate) / TWO_32 % 15625 == 0
  {
    var x := n * TickUs(rate);
    var k, p := x / TWO_32, x % TWO_32;
    assert x == p + k * TWO_32;
    WrapsVanishIff(k, x / US - p / US, x % US - p % US);
  }

  lemma WrapsVanishIff(k: nat, a: int, e: int)
    requires e == k * TWO_32 - a * US && -US < e < US
    ensures e == 0 <==> k % 15625 == 0
  {
    if k % 15625 == 0 {
      var f := k / 15625 * 0x400_0000 - a;
      assert e == US * f;
    }
    if e == 0 {
      CoprimeCancels(k, a);
    }
  }

  /** 2 to the 26th and 5 to the 6th have no common factor. */
  lemma CoprimeCancels(k: nat, a: int)
    requires k * 0x400_0000 == a * 15625
    ensures k % 15625 == 0
  {
    assert 0x400_0000 * 12659 == 15625 * 54369991 + 1;
    var m := a * 12659 - k * 54369991;
    assert k == 15625 * m;
  }

  /**
   The law, and exactly when it holds: a time set at tick n0 reads at tick n1 as that time plus the ticks between if,
   and only if, the product in settimeofday wrapped a multiple of 15625 times (never, above all), or the time is
   the epoch, no tick has passed, and the error would lead before it.
   */
  lemma ClockLawIff(t: Timeval, n0: UInt32, n1: UInt32, rate: UInt32)
    requires rate > 0 && US % rate == 0 && n0 <= n1
    requires Normal(t) && t.sec + n1 / rate - n0 / rate < 0x7FFF_FFFF
    ensures Is(TimeNow(ResetTime(t, n0, rate), n1, rate), Micros(t) + (n1 - n0) * TickUs(rate)) <==>
              || n0 * TickUs(rate) / TWO_32 % 15625 == 0
              || (Micros(t) == 0 && n0 == n1 && SetError(n0, rate) < 0)
  {
    SetThenGet(t, n0, n1, rate);
    SetErrorIsZeroIff(n0, rate);
    ElapsedIsZeroIff(n0, n1, rate);
    ErrorShows(TimeNow(ResetTime(t, n0, rate), n1, rate), Micros(t), (n1 - n0) * TickUs(rate), SetError(n0, rate));
  }

  lemma ElapsedIsZeroIff(n0: UInt32, n1: UInt32, rate: UInt32)
    requires rate > 0 && US % rate == 0 && n0 <= n1
    ensures (n1 - n0) * TickUs(rate) >= 0 && ((n1 - n0) * TickUs(rate) == 0 <==> n0 == n1)
  {
    assert rate * TickUs(rate) == US;
    assert n1 > n0 ==> (n1 - n0 - 1) * TickUs(rate) >= 0;
  }

  lemma ErrorShows(read: Timeval, set0: int, elapsed: int, error: int)
    requires set0 >= 0 && elapsed >= 0
    requires Is(read, if set0 + elapsed + error >= 0 then set0 + elapsed + error else 0)
    ensures Is(read, set0 + elapsed) <==> error == 0 || (set0 == 0 && elapsed == 0 && error < 0)
  {
  }

  /** In particular, while the product does not overflow 32 bits the law holds at every later tick. */
  lemma ClockLaw(t: Timeval, n0: UInt32, n1: UInt32, rate: UInt32)
    requires rate > 0 && US % rate == 0 && n0 <= n1 && n0 * TickUs(rate) < TWO_32
    requires Normal(t) && t.sec + n1 / rate - n0 / rate < 0x7FFF_FFFF
    ensures Is(TimeNow(ResetTime(t, n0, rate), n1, rate), Micros(t) + (n1 - n0) * TickUs(rate))
  {
    DivModUnique(n0 * TickUs(rate), TWO_32, 0, n0 * TickUs(rate));
    ClockLawIff(t, n0, n1, rate);
  }

  /** The law does fail: at 1000 ticks a second, seventy-two minutes after start-up. */
  lemma ClockLawFails(t: Timeval)
    requires Normal(t) && t.sec < 0x7FFF_FFFF && Micros(t) > 0
    ensures !Is(TimeNow(ResetTime(t, 4_320_000, 1000), 4_320_000, 1000), Micros(t))
  {
    ClockLawIff(t, 4_320_000, 4_320_000, 1000);
  }

  // ------------------------------------------------------------------ the code

  class Clock {
    var resettime: Timeval
    var timezone: Timezone
    var errno: Option<Errno>

    constructor ()
      ensures resettime == Timeval(0, 0) && timezone == Timezone(0, 0) && errno == None
    {
      resettime, timezone, errno := Timeval(0, 0), Timezone(0, 0), None;
    }

    /** ALT_SETTIMEOFDAY: a rate of 0 means that no clock is running. */
    method SetTimeOfDay(t: Timeval, tz: Timezone, nticks: UInt32, rate: UInt32) returns (ok: bool)
      modifies this
      ensures ok <==> rate > 0
      ensures ok ==> resettime == ResetTime(t, nticks, rate) && timezone == tz && errno == old(errno)
      ensures !ok ==> resettime == old(resettime) && timezone == old(timezone) && errno == Some(ENOSYS)
    {
      if rate > 0 {
        var product := nticks * (US / rate) % TWO_32;
        resettime := Timeval(ToInt32(t.sec - nticks / rate), ToInt32(t.usec - product % US));
        timezone := tz;
        return true;
      }
      errno := Some(ENOSYS);
      ok := false;
    }

    /** ALT_GETTIMEOFDAY: without a clock nothing is stored, and the error is returned, not put in errno. */
    method GetTimeOfDay(nticks: UInt32, rate: UInt32) returns (error: Option<Errno>, t: Timeval, tz: Timezone)
      ensures rate == 0 ==> error == Some(ENOTSUP)
      ensures rate > 0 ==> error == None && t == TimeNow(resettime, nticks, rate) && tz == timezone
    {
      if rate == 0 {
        return Some(ENOTSUP), Timeval(0, 0), Timezone(0, 0);
      }
      t := Normalise(Timeval(ToInt32(resettime.sec + nticks / rate), ToInt32(resettime.usec + nticks * (US / rate) % US)));
      return None, t, timezone;
    }

    /** The two loops of gettimeofday. */
    static method Normalise(raw: Timeval) returns (t: Timeval)
      ensures t == Carried(Borrowed(raw))
    {
      t := raw;
      while t.usec < 0
        invariant Borrowed(t) == Borrowed(raw)
        decreases if t.usec < 0 then -(t.usec as int) else 0
      {
        if t.sec <= 0 {
          t := Timeval(0, 0);
          break;
        }
        t := Timeval(t.sec - 1, t.usec + US);
      }
      assert t == Borrowed(raw);
      while t.usec >= US
        invariant Carried(t) == Carried(Borrowed(raw))
        decreases t.usec
      {
        t := Timeval(ToInt32(t.sec + 1), t.usec - US);
      }
    }
  }
}
