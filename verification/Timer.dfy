/**
 ksrc/timer.c and the calibration arithmetic of ksrc/drivers/82489DX.c, against a
 periodic down-counter read at instants the environment chooses.
 */
module Timer {
  import opened Words

  /** A counter reloaded from `initial`.  It takes `period` ticks round: `initial` of them
      when the value 0 is never dwelt on, one more when it is. */
  datatype Counter = Counter(initial: Word, period: nat, clock: nat -> nat) {
    predicate Ok() { 1 <= initial && (period == initial || period == initial + 1) }

    /** The value `t` ticks after a reload. */
    function Value(t: nat): Word
      requires Ok()
    {
      initial - t % period
    }

    /** Ticks up to `t` that lower the value; a reload tick past 0 does not. */
    function Counted(t: nat): int
      requires Ok()
    {
      t - (period - initial) * (t / period)
    }

    /** Successive reads happen less than one period apart, and any `stall` further reads
        see the time move. */
    ghost predicate Polled(stall: nat) {
      && (forall i: nat :: clock(i) <= clock(i + 1) < clock(i) + period)
      && (forall i: nat :: clock(i) < clock(i + stall))
    }
  }

  /** The source's difference between two reads, reload included. */
  function Delta(initial: Word, last: Word, current: Word): int {
    if current <= last then last - current else last + (initial - current)
  }

  /** Less than one period on, at most one reload has happened. */
  lemma OneReload(t: nat, u: nat, p: nat)
    requires 0 < p && t <= u < t + p
    ensures if t % p + (u - t) < p then u / p == t / p && u % p == t % p + (u - t)
            else u / p == t / p + 1 && u % p == t % p + (u - t) - p
  {
    var q, r, d := t / p, t % p, u - t;
    assert t == p * q + r;
    if r + d < p {
      DivModUnique(u, p, q, r + d);
    } else {
      assert p * (q + 1) == p * q + p;
      DivModUnique(u, p, q + 1, r + d - p);
    }
  }

  /** It is exact: the ticks counted between the two reads. */
  lemma DeltaCounts(k: Counter, t: nat, u: nat)
    requires k.Ok() && t <= u < t + k.period
    ensures Delta(k.initial, k.Value(t), k.Value(u)) == k.Counted(u) - k.Counted(t)
    ensures 0 <= k.Counted(u) - k.Counted(t) <= u - t
  {
    OneReload(t, u, k.period);
    var z, q := k.period - k.initial, t / k.period;
    assert z * (q + 1) == z * q + z;
  }

  /** The counter moves within one period: time passing changes the value, and only a reload
      tick passes uncounted. */
  lemma ValueMoves(k: Counter, t: nat, u: nat)
    requires k.Ok() && t < u < t + k.period
    ensures k.Value(t) != k.Value(u)
    ensures k.Counted(u) == k.Counted(t) ==> k.Value(t) == 0 && k.Value(u) == k.initial
  {
    OneReload(t, u, k.period);
    var z, q := k.period - k.initial, t / k.period;
    assert z * (q + 1) == z * q + z;
  }

  lemma OnePeriodBack(k: Counter, u: nat)
    requires k.Ok() && k.period <= u
    ensures k.Value(u) == k.Value(u - k.period) && k.Counted(u) == k.Counted(u - k.period) + k.initial
  {
    var p, v := k.period, u - k.period;
    var q := v / p;
    assert v == p * q + v % p;
    assert p * (q + 1) == p * q + p;
    DivModUnique(u, p, q + 1, v % p);
    assert (p - k.initial) * (q + 1) == (p - k.initial) * q + (p - k.initial);
  }

  /** The difference is right exactly when the reads are less than one period apart: a slower
      poll loses whole reloads. */
  lemma {:induction false} DeltaExactly(k: Counter, t: nat, u: nat)
    requires k.Ok() && t <= u
    ensures var d := Delta(k.initial, k.Value(t), k.Value(u));
            d <= k.Counted(u) - k.Counted(t) && (d == k.Counted(u) - k.Counted(t) <==> u < t + k.period)
    decreases u
  {
    if u < t + k.period {
      DeltaCounts(k, t, u);
    } else {
      OnePeriodBack(k, u);
      DeltaExactly(k, t, u - k.period);
    }
  }

  /** Ticks counted from the first read of the clock to read number n. */
  function Elapsed(k: Counter, n: nat): int
    requires k.Ok()
  {
    k.Counted(k.clock(n)) - k.Counted(k.clock(0))
  }

  /** Ticks from the first read to read number n that passed uncounted: one for every reload
      that dwells on 0. */
  function Dwelt(k: Counter, n: nat): int
    requires k.Ok()
  {
    (k.period - k.initial) * (k.clock(n) / k.period - k.clock(0) / k.period)
  }

  /** In real ticks: never early, and past the request by less than the last poll gap plus the
      ticks dwelt. */
  ghost predicate InRealTicks(k: Counter, ticks: Word, n: nat)
    requires k.Ok()
  {
    && k.clock(n) - k.clock(0) >= ticks && (n == 0 <==> ticks == 0)
    && (n > 0 ==> k.clock(n) - k.clock(0) < ticks + (k.clock(n) - k.clock(n - 1)) + Dwelt(k, n))
  }

  lemma {:induction false} ClockOrdered(k: Counter, stall: nat, n: nat)
    requires k.Polled(stall)
    ensures k.clock(0) <= k.clock(n)
  {
    if n != 0 {
      ClockOrdered(k, stall, n - 1);
      assert k.clock(n - 1) <= k.clock(n - 1 + 1);
    }
  }

  lemma DivMonotone(a: nat, b: nat, p: nat)
    requires a <= b && 0 < p
    ensures a / p <= b / p
  {
    var q, r := a / p, b / p;
    assert a == p * q + a % p && b == p * r + b % p;
    if r < q { MulGap(p, q - r); }
  }

  /** Real ticks are counted or dwelt. */
  lemma RealElapsed(k: Counter, n: nat)
    requires k.Ok() && k.clock(0) <= k.clock(n)
    ensures Elapsed(k, n) == k.clock(n) - k.clock(0) - Dwelt(k, n) && Dwelt(k, n) >= 0
  {
    var z, q, r := k.period - k.initial, k.clock(0) / k.period, k.clock(n) / k.period;
    DivMonotone(k.clock(0), k.clock(n), k.period);
    assert z * r - z * q == z * (r - q) >= 0;
  }

  lemma NextElapsed(k: Counter, stall: nat, n: nat)
    requires k.Ok() && k.Polled(stall)
    ensures Elapsed(k, n + 1) - Elapsed(k, n) <= k.clock(n + 1) - k.clock(n)
  {
    DeltaCounts(k, k.clock(n), k.clock(n + 1));
  }

  lemma DelayInTicks(k: Counter, ticks: Word, stall: nat, n: nat)
    requires k.Ok() && k.Polled(stall)
    requires Elapsed(k, n) >= ticks && forall i :: 0 <= i < n ==> Elapsed(k, i) < ticks
    ensures InRealTicks(k, ticks, n)
  {
    ClockOrdered(k, stall, n);
    RealElapsed(k, n);
    assert Elapsed(k, 0) == 0;
    if n > 0 { NextElapsed(k, stall, n - 1); }
  }

  /** The loop of both delays.  Reads number 0, 1, 2, ... happen at k.clock(0), k.clock(1), ...;
      the result is the number of the last read: by then the wait was over, and not before. */
  method WaitTicks(k: Counter, ticks: Word, ghost stall: nat) returns (n: nat)
    requires k.Ok() && k.Polled(stall)
    ensures Elapsed(k, n) >= ticks
    ensures forall i :: 0 <= i < n ==> Elapsed(k, i) < ticks
    ensures InRealTicks(k, ticks, n)
  {
    var wait: int := ticks;
    var initial := k.initial;
    var last := k.Value(k.clock(0));
    n := 0;
    ghost var since := 0;
    while wait > 0
      invariant last == k.Value(k.clock(n))
      invariant wait == Max(0, ticks - Elapsed(k, n))
      invariant forall i :: 0 <= i < n ==> Elapsed(k, i) < ticks
      invariant since <= n && k.clock(since) == k.clock(n) && n < since + stall
      decreases wait, last == 0, since + stall - n
    {
      var current := k.Value(k.clock(n + 1));
      DeltaCounts(k, k.clock(n), k.clock(n + 1));
      var delta := Delta(initial, last, current);
      if delta >= wait { wait := 0; } else { wait := wait - delta; }
      if k.clock(n + 1) != k.clock(n) {
        ValueMoves(k, k.clock(n), k.clock(n + 1));
        since := n + 1;
      }
      last := current;
      n := n + 1;
    }
    DelayInTicks(k, ticks, stall, n);
  }

  const FALLBACK_TICKS_PER_MS: Word := 62500

  /** The driver's globals and the timer's initial-count register. */
  class Lapic {
    var ticksPerMs: Word
    var ticksPerUs: Word
    var initialCount: Word

    constructor ()
      ensures ticksPerMs == 0 && ticksPerUs == 0
    {
      ticksPerMs, ticksPerUs, initialCount := 0, 0, 0;
    }

    /** lapic_timer_calibrate, given the current count after ten milliseconds from 0xFFFFFFFF. */
    method Calibrate(currentCcr: Word)
      modifies this
      ensures var t := 0xFFFF_FFFF - currentCcr;
              if t < 10 then ticksPerMs == 62500 else 10 * ticksPerMs <= t < 10 * ticksPerMs + 10
      ensures 1000 * ticksPerUs <= ticksPerMs < 1000 * ticksPerUs + 1000
      ensures ticksPerMs == PerMs(0xFFFF_FFFF - currentCcr) && ticksPerUs == ticksPerMs / 1000
      ensures initialCount == 0
    {
      var ticksIn10Ms := 0xFFFF_FFFF - currentCcr;
      initialCount := 0;
      ticksPerMs := ticksIn10Ms / 10;
      if ticksPerMs == 0 {
        ticksPerMs := (1000000000 / 16) / 1000;
      }
      ticksPerUs := ticksPerMs / 1000;
    }

    /** lapic_timer_config: the period is a thousand milliseconds' worth of ticks, in 32 bits. */
    method Config(currentCcr: Word)
      modifies this
      ensures var t := 0xFFFF_FFFF - currentCcr;
              if t < 10 then ticksPerMs == 62500 else 10 * ticksPerMs <= t < 10 * ticksPerMs + 10
      ensures 1000 * ticksPerUs <= ticksPerMs < 1000 * ticksPerUs + 1000
      ensures ticksPerMs == PerMs(0xFFFF_FFFF - currentCcr) && ticksPerUs == ticksPerMs / 1000
      ensures initialCount == ticksPerMs * 1000 % 0x1_0000_0000
    {
      Calibrate(currentCcr);
      initialCount := ticksPerMs * 1000 % 0x1_0000_0000;
    }

    /** timer_delay_us. */
    method DelayUs(k: Counter, us: Word, ghost stall: nat) returns (n: nat)
      requires k.Ok() && k.initial == initialCount && k.Polled(stall)
      ensures Elapsed(k, n) >= ticksPerUs * us % 0x1_0000_0000
      ensures forall i :: 0 <= i < n ==> Elapsed(k, i) < ticksPerUs * us % 0x1_0000_0000
      ensures InRealTicks(k, ticksPerUs * us % 0x1_0000_0000, n)
    {
      n := WaitTicks(k, ticksPerUs * us % 0x1_0000_0000, stall);
    }

    /** timer_delay_ms. */
    method DelayMs(k: Counter, ms: Word, ghost stall: nat) returns (n: nat)
      requires k.Ok() && k.initial == initialCount && k.Polled(stall)
      ensures Elapsed(k, n) >= ticksPerMs * ms % 0x1_0000_0000
      ensures forall i :: 0 <= i < n ==> Elapsed(k, i) < ticksPerMs * ms % 0x1_0000_0000
      ensures InRealTicks(k, ticksPerMs * ms % 0x1_0000_0000, n)
    {
      n := WaitTicks(k, ticksPerMs * ms % 0x1_0000_0000, stall);
    }
  }

  /** Ticks per millisecond from the ticks seen in ten milliseconds. */
  function PerMs(ticksIn10Ms: Word): (r: Word)
    ensures if ticksIn10Ms < 10 then r == 62500 else 10 * r <= ticksIn10Ms < 10 * r + 10
  {
    if ticksIn10Ms < 10 then FALLBACK_TICKS_PER_MS else ticksIn10Ms / 10
  }

  /** Calibration bound: two truncating divisions lose less than one tick per microsecond,
      so a wait of `us` asks for less than `us` ticks below the ideal us * T / 10000. */
  lemma CalibrationBound(ticksIn10Ms: Word, us: Word)
    requires ticksIn10Ms >= 10
    ensures PerMs(ticksIn10Ms) / 1000 == ticksIn10Ms / 10000
    ensures 10000 * (PerMs(ticksIn10Ms) / 1000 * us) <= us * ticksIn10Ms
    ensures us > 0 ==> us * ticksIn10Ms < 10000 * (PerMs(ticksIn10Ms) / 1000 * us + us)
  {
    var q, r := ticksIn10Ms / 10000, ticksIn10Ms % 10000;
    assert ticksIn10Ms == 10000 * q + r;
    assert us * ticksIn10Ms == 10000 * (q * us) + us * r;
    assert us > 0 ==> us * r < us * 10000 by { if us > 0 { MulLess(us, r, 10000); } }
  }

  /** The millisecond twin: a wait of `ms` asks for at most ms * T / 10 and less than `ms` ticks
      below it. */
  lemma MillisecondBound(ticksIn10Ms: Word, ms: Word)
    requires ticksIn10Ms >= 10
    ensures 10 * (PerMs(ticksIn10Ms) * ms) <= ms * ticksIn10Ms
    ensures ms > 0 ==> ms * ticksIn10Ms < 10 * (PerMs(ticksIn10Ms) * ms + ms)
  {
    var q, r := PerMs(ticksIn10Ms), ticksIn10Ms - 10 * PerMs(ticksIn10Ms);
    assert ms * ticksIn10Ms == 10 * (q * ms) + ms * r;
    assert ms > 0 ==> ms * r < ms * 10 by { if ms > 0 { MulLess(ms, r, 10); } }
    assert ms * r >= 0;
  }

  lemma MulLess(w: nat, x: nat, y: nat)
    requires 0 < w && x < y
    ensures w * x < w * y
  {
  }

  /** Microsecond delays are a no-op exactly when the timer ticks slower than once per
      microsecond. */
  lemma NoMicroseconds(ticksIn10Ms: Word)
    ensures PerMs(ticksIn10Ms) / 1000 == 0 <==> 10 <= ticksIn10Ms < 10000
  {
  }

  /** The programmed period is what was meant exactly when it fits 32 bits, that is up to
      4294967 ticks per millisecond. */
  lemma PeriodFits(perMs: Word)
    ensures perMs * 1000 % 0x1_0000_0000 == perMs * 1000 <==> perMs <= 4294967
  {
  }
}
