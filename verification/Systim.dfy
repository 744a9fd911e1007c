/** e1000.h: the SYSTIM clock. A 64-bit register advances by a scaled increment every
    few ticks of a clock and wraps; software must read it before it laps itself. */
module Systim {
  const WRAP := 0x1_0000_0000_0000_0000

  datatype Clock = MHz96 | MHz25 | MHz24 | KHz38400

  function IncValue(c: Clock): nat {
    match c case MHz96 => 125 case MHz25 => 40 case MHz24 => 125 case KHz38400 => 26
  }

  /** INCVALUE_SHIFT_n. */
  function Shift(c: Clock): nat {
    match c case MHz96 => 17 case MHz25 => 18 case MHz24 => 14 case KHz38400 => 19
  }

  /** INCPERIOD_SHIFT_n: only the 96 MHz clock has one. */
  function PeriodShift(c: Clock): nat {
    if c.MHz96? then 2 else 0
  }

  /** INCPERIOD_n, in ticks; the 96 MHz one is 12 >> INCPERIOD_SHIFT_96MHZ. */
  function Period(c: Clock): (p: nat)
    ensures p > 0
  {
    match c case MHz96 => 12 / Pow2(PeriodShift(c)) case MHz25 => 1 case MHz24 => 3 case KHz38400 => 1
  }

  function Frequency(c: Clock): (hz: nat)
    ensures hz > 0
  {
    match c case MHz96 => 96_000_000 case MHz25 => 25_000_000 case MHz24 => 24_000_000 case KHz38400 => 38_400_000
  }

  function Pow2(n: nat): (p: nat)
    ensures p > 0
  {
    if n == 0 then 1 else 2 * Pow2(n - 1)
  }

  /** The value written to bits 23:0 of TIMINCA. */
  function Increment(c: Clock): nat {
    IncValue(c) * Pow2(Shift(c))
  }

  /** How far SYSTIM is shifted down to read nanoseconds. */
  function TotalShift(c: Clock): nat {
    Shift(c) + PeriodShift(c)
  }

  /** The constants, evaluated. */
  lemma Evaluated(c: Clock)
    ensures Increment(c) == match c case MHz96 => 16384000 case MHz25 => 10485760 case MHz24 => 2048000 case KHz38400 => 13631488
    ensures Pow2(TotalShift(c)) == match c case MHz96 => 0x8_0000 case MHz25 => 0x4_0000 case MHz24 => 0x4000 case KHz38400 => 0x8_0000
    ensures Period(c) == match c case MHz96 => 3 case MHz25 => 1 case MHz24 => 3 case KHz38400 => 1
  {
    assert Pow2(2) == 4;
    assert Pow2(14) == 0x4000 by { assert Pow2(7) == 0x80; assert Pow2(12) == 0x1000; }
    assert Pow2(17) == 0x2_0000;
    assert Pow2(18) == 0x4_0000;
    assert Pow2(19) == 0x8_0000;
  }

  // ------------------------------------------------------------ the constants

  /** The increment fits its 24-bit field for all four clocks. The design asks for the
      largest shift that fits; three clocks use it and the 24 MHz one does not. */
  lemma IncrementFits(c: Clock)
    ensures Increment(c) < 0x100_0000
    ensures 2 * Increment(c) >= 0x100_0000 <==> c != MHz24
  {
    Evaluated(c);
  }

  /** True time after n increments, in nanoseconds, rounded down. */
  function TrueNanoseconds(c: Clock, n: nat): nat {
    n * Period(c) * 1_000_000_000 / Frequency(c)
  }

  /** Converting by shifting is exact for three clocks. The 38.4 MHz increment is 26 ns for
      a period of 26 1/24 ns, so that clock reads exactly 624/625 of true time. */
  lemma ConversionIsExact(c: Clock, n: nat)
    ensures c != KHz38400 ==> n * Increment(c) / Pow2(TotalShift(c)) == TrueNanoseconds(c, n)
    ensures c == KHz38400 ==>
      n * Increment(c) * Frequency(c) * 625 == n * Period(c) * 1_000_000_000 * 624 * Pow2(TotalShift(c))
  {
    Evaluated(c);
    match c
    case MHz96 =>
      var x, q := n * 125, n * 125 / 4;
      assert x * 0x2_0000 == 0x8_0000 * q + 0x2_0000 * (x % 4);
      assert x * 24_000_000 == 96_000_000 * q + 24_000_000 * (x % 4);
    case MHz25 =>
    case MHz24 =>
    case KHz38400 =>
  }

  /** When the register laps itself, in true time: 2^45 ns at 96 MHz and 2^46 ns at
      25 MHz, which is 9.77 and (just under) 19.55 hours; the other clocks hold longer
      than the 96 MHz one. */
  lemma OverflowPeriods(n: nat)
    ensures n * Increment(MHz96) >= WRAP <==> n * Period(MHz96) * 1_000_000_000 >= 0x2000_0000_0000 * Frequency(MHz96)
    ensures n * Increment(MHz25) >= WRAP <==> n * Period(MHz25) * 1_000_000_000 >= 0x4000_0000_0000 * Frequency(MHz25)
    ensures n * Increment(MHz24) >= WRAP <==> n * Period(MHz24) * 1_000_000_000 >= 0x4_0000_0000_0000 * Frequency(MHz24)
    ensures n * Increment(KHz38400) >= WRAP ==> n * Period(KHz38400) * 1_000_000_000 >= 0x2000_0000_0000 * Frequency(KHz38400)
    ensures 977 * 36 * 1_000_000_000 <= 0x2000_0000_0000 < 978 * 36 * 1_000_000_000
    ensures 1954 * 36 * 1_000_000_000 <= 0x4000_0000_0000 < 1955 * 36 * 1_000_000_000
  {
    Evaluated(MHz96);
    Evaluated(MHz25);
    Evaluated(MHz24);
    Evaluated(KHz38400);
  }

  /** What a shifted count of n increments reads, and the true time it stands for, in numbers. */
  lemma InNumbers(c: Clock, n: nat)
    ensures n * Increment(c) / Pow2(TotalShift(c))
         == match c case MHz96 => n * 125 / 4 case MHz25 => n * 40 case MHz24 => n * 125 case KHz38400 => n * 26
    ensures TrueNanoseconds(c, n)
         == match c case MHz96 => n * 125 / 4 case MHz25 => n * 40 case MHz24 => n * 125 case KHz38400 => n * 625 / 24
  {
    Evaluated(c);
    match c
    case MHz96 =>
      var x, q := n * 125, n * 125 / 4;
      assert x * 0x2_0000 == 0x8_0000 * q + 0x2_0000 * (x % 4);
      assert x * 24_000_000 == 96_000_000 * q + 24_000_000 * (x % 4);
    case MHz25 =>
    case MHz24 =>
    case KHz38400 =>
      var x, q := n * 625, n * 625 / 24;
      assert x * 1_600_000 == 38_400_000 * q + 1_600_000 * (x % 24);
  }

  // ------------------------------------------------------------ the register

  /** The count an unbounded register would show after that many ticks. */
  function Count(c: Clock, ticks: nat): nat {
    Times(ticks / Period(c), Increment(c))
  }

  function Times(n: nat, k: nat): nat {
    n * k
  }

  class Register {
    const clock: Clock
    var systim: nat
    var phase: nat
    ghost var ticks: nat

    ghost predicate Valid()
      reads this
    {
      phase == ticks % Period(clock) && systim == Count(clock, ticks) % WRAP
    }

    constructor (clock: Clock)
      ensures Valid() && this.clock == clock && ticks == 0
    {
      CountStartsAtZero(clock);
      this.clock, systim, phase, ticks := clock, 0, 0, 0;
    }

    /** One tick of the clock; every `incperiod` of them the register moves, modulo 2^64. */
    method Tick()
      requires Valid()
      modifies this
      ensures Valid() && ticks == old(ticks) + 1
      ensures systim == if ticks % Period(clock) == 0
                        then (old(systim) + Increment(clock)) % 0x1_0000_0000_0000_0000 else old(systim)
    {
      NextTick(clock, ticks);
      Lap(Count(clock, ticks), Increment(clock));
      phase := phase + 1;
      if phase == Period(clock) {
        phase := 0;
        systim := (systim + Increment(clock)) % WRAP;
      }
      ticks := ticks + 1;
    }
  }

  lemma CountStartsAtZero(c: Clock)
    ensures Count(c, 0) == 0
  {
    assert 0 / Period(c) == 0;
  }

  lemma NextTick(c: Clock, ticks: nat)
    ensures var p := Period(c);
            if ticks % p + 1 == p
            then (ticks + 1) % p == 0 && Count(c, ticks + 1) == Count(c, ticks) + Increment(c)
            else (ticks + 1) % p == ticks % p + 1 && Count(c, ticks + 1) == Count(c, ticks)
  {
    Evaluated(c);
    TickDivides(ticks, Period(c));
    if ticks % Period(c) + 1 == Period(c) {
      assert Times(ticks / Period(c) + 1, Increment(c)) == Times(ticks / Period(c), Increment(c)) + Increment(c);
    }
  }

  lemma TickDivides(t: nat, p: nat)
    requires p == 1 || p == 3
    ensures if t % p + 1 == p then (t + 1) % p == 0 && (t + 1) / p == t / p + 1
            else (t + 1) % p == t % p + 1 && (t + 1) / p == t / p
  {
    if p == 3 {
      TickThirds(t);
    }
  }

  lemma TickThirds(t: nat)
    ensures if t % 3 == 2 then (t + 1) % 3 == 0 && (t + 1) / 3 == t / 3 + 1
            else (t + 1) % 3 == t % 3 + 1 && (t + 1) / 3 == t / 3
  {}

  lemma Lap(a: nat, b: nat)
    ensures (a % WRAP + b) % WRAP == (a + b) % WRAP
  {
    assert a + b == WRAP * (a / WRAP) + (a % WRAP + b);
  }

  /** The reader: it remembers the last raw value and adds up wrapped differences. */
  class TimeCounter {
    var cycleLast: nat
    var accumulated: nat

    constructor (register: Register)
      requires register.Valid()
      ensures cycleLast == register.systim && accumulated == 0
    {
      cycleLast, accumulated := register.systim, 0;
    }

    method Read(register: Register, ghost last: nat)
      requires register.Valid()
      requires last <= register.ticks && cycleLast == Count(register.clock, last) % WRAP
      modifies this
      ensures cycleLast == Count(register.clock, register.ticks) % WRAP
      ensures accumulated == old(accumulated) + Advance(register.clock, last, register.ticks) % WRAP
      ensures cycleLast == register.systim
      ensures accumulated == old(accumulated) + (register.systim - old(cycleLast)) % 0x1_0000_0000_0000_0000
    {
      WrappedDifference(Count(register.clock, last), Advance(register.clock, last, register.ticks));
      accumulated := accumulated + (register.systim - cycleLast) % WRAP;
      cycleLast := register.systim;
    }
  }

  lemma WrappedDifference(a: nat, d: nat)
    ensures ((a + d) % WRAP - a % WRAP) % WRAP == d % WRAP
  {
    var x: int, q: int := (a + d) % WRAP - a % WRAP, (a + d) / WRAP - a / WRAP;
    assert d == WRAP * q + x;
  }

  lemma CountMonotonic(c: Clock, t: nat, u: nat)
    requires t <= u
    ensures Count(c, t) <= Count(c, u)
  {
    assert t / Period(c) <= u / Period(c);
    Scale(t / Period(c), u / Period(c), Increment(c));
  }

  lemma Scale(a: nat, b: nat, k: nat)
    requires a <= b
    ensures a * k <= b * k
  {}

  function Advance(c: Clock, from: nat, to: nat): nat
    requires from <= to
  {
    CountMonotonic(c, from, to);
    Count(c, to) - Count(c, from)
  }

  // ------------------------------------------------------------ runs

  datatype Event = Tick | Read

  function Now(start: nat, run: seq<Event>): (t: nat)
    ensures t >= start
  {
    if run == [] then start
    else Now(start, run[..|run| - 1]) + if run[|run| - 1].Tick? then 1 else 0
  }

  /** The tick of the last read (the counter is set up at the start). */
  function LastRead(start: nat, run: seq<Event>): (t: nat)
    ensures start <= t <= Now(start, run)
  {
    if run == [] then start
    else if run[|run| - 1].Read? then Now(start, run)
    else LastRead(start, run[..|run| - 1])
  }

  /** What a reader that only sees the wrapped register adds up. */
  function Accumulated(c: Clock, start: nat, run: seq<Event>): nat {
    if run == [] then 0
    else
      var before := run[..|run| - 1];
      Accumulated(c, start, before)
        + if run[|run| - 1].Tick? then 0 else Advance(c, LastRead(start, before), Now(start, before)) % WRAP
  }

  /** No two consecutive reads are further apart than the register's range. */
  predicate NeverLapped(c: Clock, start: nat, run: seq<Event>) {
    run == []
    || (var before := run[..|run| - 1];
        && NeverLapped(c, start, before)
        && (run[|run| - 1].Read? ==> Advance(c, LastRead(start, before), Now(start, before)) < WRAP))
  }

  /** No two consecutive reads are further apart than that many ticks. */
  predicate ReadsWithin(limit: nat, start: nat, run: seq<Event>) {
    run == []
    || (var before := run[..|run| - 1];
        && ReadsWithin(limit, start, before)
        && (run[|run| - 1].Read? ==> Now(start, before) - LastRead(start, before) <= limit))
  }

  /** E1000_SYSTIM_OVERFLOW_PERIOD: four hours, in ticks of the clock. */
  function OverflowPeriod(c: Clock): nat {
    Frequency(c) * 60 * 60 * 4
  }

  /** Four hours in ticks, clock by clock. */
  lemma FourHours(c: Clock)
    ensures OverflowPeriod(c) == match c
      case MHz96 => 1_382_400_000_000
      case MHz25 => 360_000_000_000
      case MHz24 => 345_600_000_000
      case KHz38400 => 552_960_000_000
  {}

  lemma {:induction false} NowCountsTicks(start: nat, run: seq<Event>)
    ensures Now(start, run) == start + multiset(run)[Tick]
  {
    if run != [] {
      var before := run[..|run| - 1];
      NowCountsTicks(start, before);
      assert run == before + [run[|run| - 1]];
    }
  }

  lemma Extend(c: Clock, start: nat, before: seq<Event>, e: Event)
    ensures var run := before + [e];
            && Now(start, run) == Now(start, before) + (if e.Tick? then 1 else 0)
            && LastRead(start, run) == (if e.Read? then Now(start, before) else LastRead(start, before))
            && Accumulated(c, start, run) == Accumulated(c, start, before)
                 + (if e.Tick? then 0 else Advance(c, LastRead(start, before), Now(start, before)) % WRAP)
  {
    assert (before + [e])[..|before|] == before;
  }

  /** Register and reader are where a run from `start` has taken them. */
  ghost predicate Tracks(register: Register, counter: TimeCounter, start: nat, base: nat, run: seq<Event>)
    reads register, counter
  {
    && register.Valid() && register.ticks == Now(start, run)
    && counter.cycleLast == Count(register.clock, LastRead(start, run)) % WRAP
    && counter.accumulated == base + Accumulated(register.clock, start, run)
  }

  method TickStep(register: Register, counter: TimeCounter, ghost start: nat, ghost base: nat, ghost before: seq<Event>)
    requires Tracks(register, counter, start, base, before)
    modifies register
    ensures Tracks(register, counter, start, base, before + [Tick])
  {
    Extend(register.clock, start, before, Tick);
    register.Tick();
  }

  method ReadStep(register: Register, counter: TimeCounter, ghost start: nat, ghost base: nat, ghost before: seq<Event>)
    requires Tracks(register, counter, start, base, before)
    modifies counter
    ensures Tracks(register, counter, start, base, before + [Read])
  {
    Extend(register.clock, start, before, Read);
    counter.Read(register, LastRead(start, before));
  }

  /** The register and its reader, driven through a whole run. */
  method Run(register: Register, counter: TimeCounter, run: seq<Event>)
    requires register.Valid() && counter.cycleLast == register.systim
    modifies register, counter
    ensures register.Valid() && register.ticks == Now(old(register.ticks), run)
    ensures counter.accumulated == old(counter.accumulated) + Accumulated(register.clock, old(register.ticks), run)
    ensures register.ticks == old(register.ticks) + multiset(run)[Tick]
    ensures run != [] && run[|run| - 1] == Read && ReadsWithin(OverflowPeriod(register.clock), old(register.ticks), run) ==>
      counter.accumulated == old(counter.accumulated)
        + (register.ticks / Period(register.clock) - old(register.ticks) / Period(register.clock)) * Increment(register.clock)
  {
    ghost var start, base := register.ticks, counter.accumulated;
    for i := 0 to |run|
      invariant Tracks(register, counter, start, base, run[..i])
    {
      assert run[..i + 1] == run[..i] + [run[i]];
      match run[i]
      case Tick => TickStep(register, counter, start, base, run[..i]);
      case Read => ReadStep(register, counter, start, base, run[..i]);
    }
    assert run[..|run|] == run;
    NowCountsTicks(start, run);
    FourHourRun(register.clock, start, run);
  }

  lemma FourHourRun(c: Clock, start: nat, run: seq<Event>)
    ensures run != [] && run[|run| - 1] == Read && ReadsWithin(OverflowPeriod(c), start, run) ==>
      Accumulated(c, start, run) == (Now(start, run) / Period(c) - start / Period(c)) * Increment(c)
  {
    if run != [] && run[|run| - 1] == Read && ReadsWithin(OverflowPeriod(c), start, run) {
      OverflowPeriodIsSafe(c, start, run);
      AccumulatesTruthIffNeverLapped(c, start, run);
      AdvanceByIncrements(c, start, LastRead(start, run));
    }
  }

  /** What the reader adds up is the true count exactly when it never let the register lap
      itself between two reads, however often the register wrapped in between; otherwise
      it is short. */
  lemma {:induction false} AccumulatesTruthIffNeverLapped(c: Clock, start: nat, run: seq<Event>)
    ensures Accumulated(c, start, run) <= Advance(c, start, LastRead(start, run))
    ensures Accumulated(c, start, run) == Advance(c, start, LastRead(start, run)) <==> NeverLapped(c, start, run)
  {
    if run != [] {
      var before := run[..|run| - 1];
      AccumulatesTruthIffNeverLapped(c, start, before);
      if run[|run| - 1].Read? {
        var gap := Advance(c, LastRead(start, before), Now(start, before));
        WrapLoses(gap);
        AdvanceAdds(c, start, LastRead(start, before), Now(start, before));
      }
    }
  }

  lemma WrapLoses(n: nat)
    ensures n % WRAP <= n && (n % WRAP == n <==> n < WRAP)
  {}

  lemma AdvanceAdds(c: Clock, t: nat, u: nat, v: nat)
    requires t <= u <= v
    ensures Advance(c, t, v) == Advance(c, t, u) + Advance(c, u, v)
  {}

  lemma {:induction false} OverflowPeriodIsSafe(c: Clock, start: nat, run: seq<Event>)
    requires ReadsWithin(OverflowPeriod(c), start, run)
    ensures NeverLapped(c, start, run)
  {
    if run != [] {
      var before := run[..|run| - 1];
      OverflowPeriodIsSafe(c, start, before);
      if run[|run| - 1].Read? {
        GapFits(c, LastRead(start, before), Now(start, before));
      }
    }
  }

  lemma PeriodsInOrder(c: Clock, from: nat, to: nat)
    requires from <= to
    ensures from / Period(c) <= to / Period(c) <= from / Period(c) + (to - from) / Period(c) + 1
  {
    Evaluated(c);
  }

  /** How many times the register moves between two ticks. */
  function Increments(c: Clock, from: nat, to: nat): nat
    requires from <= to
  {
    PeriodsInOrder(c, from, to);
    to / Period(c) - from / Period(c)
  }

  lemma AdvanceByIncrements(c: Clock, from: nat, to: nat)
    requires from <= to
    ensures Advance(c, from, to) == Increments(c, from, to) * Increment(c)
  {
    Distribute(to / Period(c), from / Period(c), Increment(c));
  }

  lemma Distribute(a: int, b: int, k: int)
    ensures (a - b) * k == a * k - b * k
  {}

  lemma LimitFits(c: Clock)
    ensures (OverflowPeriod(c) / Period(c) + 1) * Increment(c) < WRAP
  {
    Evaluated(c);
    match c
    case MHz96 =>
    case MHz25 =>
    case MHz24 =>
    case KHz38400 =>
  }

  lemma Quotients(a: nat, b: nat, p: nat)
    requires a <= b && (p == 1 || p == 3)
    ensures a / p <= b / p
  {}

  lemma GapFits(c: Clock, from: nat, to: nat)
    requires from <= to && to - from <= OverflowPeriod(c)
    ensures Advance(c, from, to) < WRAP
  {
    var bound := OverflowPeriod(c) / Period(c) + 1;
    LimitFits(c);
    Evaluated(c);
    PeriodsInOrder(c, from, to);
    Quotients(to - from, OverflowPeriod(c), Period(c));
    AdvanceByIncrements(c, from, to);
    Scale(Increments(c, from, to), bound, Increment(c));
  }

  /** The guarantee the design wants, wherever the counter is set up: read at least every
      four hours, on any of the four clocks, and the accumulated count is the true one.
      Shifted down it is the true time in nanoseconds on the three clocks whose increment
      is exact, and 624/625 of it on the fourth. */
  lemma FourHourReadsKeepTime(c: Clock, start: nat, run: seq<Event>)
    requires ReadsWithin(match c
      case MHz96 => 1_382_400_000_000 case MHz25 => 360_000_000_000
      case MHz24 => 345_600_000_000 case KHz38400 => 552_960_000_000, start, run)
    ensures var last, count := LastRead(start, run), Accumulated(c, start, run);
            var n := Increments(c, start, last);
            && count == Advance(c, start, last)
            && (c != KHz38400 ==> count / Pow2(TotalShift(c)) == TrueNanoseconds(c, n))
            && (c == KHz38400 ==>
                  count * Frequency(c) * 625 == n * Period(c) * 1_000_000_000 * 624 * Pow2(TotalShift(c)))
            && count / Pow2(TotalShift(c)) == (match c
                 case MHz96 => n * 125 / 4 case MHz25 => n * 40 case MHz24 => n * 125 case KHz38400 => n * 26)
  {
    FourHours(c);
    InNumbers(c, Increments(c, start, LastRead(start, run)));
    OverflowPeriodIsSafe(c, start, run);
    AccumulatesTruthIffNeverLapped(c, start, run);
    AdvanceByIncrements(c, start, LastRead(start, run));
    ConversionIsExact(c, Increments(c, start, LastRead(start, run)));
  }
}
