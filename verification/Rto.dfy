/** The retransmission time-out and its timer. */
module Rto {
  import opened SeqNum

  // Jacobson's estimator in 16-bit fixed point, its back-off, and the timer that runs against
  // it.

  /** (s16_t)x */
  function S16(x: int): (r: int)
    ensures -0x8000 <= r < 0x8000
    ensures -0x8000 <= x < 0x8000 ==> r == x
    ensures (r - x) % 0x1_0000 == 0
  {
    (x + 0x8000) % 0x1_0000 - 0x8000
  }

  /** sa is 8 times the smoothed round trip, sv 4 times the mean deviation, all in ticks;
      rtime is -1 while the timer is stopped. */
  datatype Estimate = Estimate(sa: int, sv: int, rto: int, nrtx: nat, rtime: int)

  /** The longest sample the 16-bit arithmetic is made for. */
  const MAX_SAMPLE: nat := 4095

  ghost predicate Inv(e: Estimate) {
    && 0 <= e.sa <= 32767 && 3 <= e.sv <= 16383 && 3 <= e.rto <= 0x7FFF
    && e.nrtx <= 0xFF && -1 <= e.rtime <= 0x7FFF
  }

  /** The time-out without back-off. */
  function Base(e: Estimate): int {
    e.sa / 8 + e.sv
  }

  /** tcp_backoff. */
  function Backoff(nrtx: nat): (shift: nat)
    ensures 1 <= shift <= 7
  {
    if nrtx < 6 then nrtx + 1 else 7
  }

  function Pow2(n: nat): (r: nat)
    ensures 1 <= r
  {
    if n == 0 then 1 else 2 * Pow2(n - 1)
  }

  /** The estimator over the integers: no cast. */
  function Smoothed(e: Estimate, m: int): Estimate {
    var err := m - e.sa / 8;
    var dev := (if err < 0 then -err else err) - e.sv / 4;
    var f := e.(sa := e.sa + err, sv := e.sv + dev);
    f.(rto := Base(f))
  }

  /** The estimator as it runs: every value is cut to 16 bits. */
  function Sampled(e: Estimate, ticks: nat): Estimate {
    Corrected(e, S16(S16(ticks) - e.sa / 8))
  }

  function Corrected(e: Estimate, err: int): Estimate {
    var f := e.(sa := S16(e.sa + err), sv := Deviated(e.sv, err));
    f.(rto := S16(Base(f)))
  }

  function Deviated(sv: int, err: int): int {
    S16(sv + S16((if err < 0 then S16(-err) else err) - sv / 4))
  }

  /** New data acknowledged. */
  function Acked(e: Estimate, running: bool): Estimate {
    e.(nrtx := 0, rto := Base(e), rtime := if running then 0 else -1)
  }

  /** The timer has run out and the segments have been queued again. */
  function BackedOff(e: Estimate, synSent: bool): Estimate {
    e.(rto := if synSent then e.rto else Min(Base(e) * Pow2(Backoff(e.nrtx)), 0x7FFF),
       rtime := 0, nrtx := if e.nrtx < 0xFF then e.nrtx + 1 else e.nrtx)
  }

  function Ticked(e: Estimate): Estimate {
    e.(rtime := if 0 <= e.rtime < 0x7FFF then e.rtime + 1 else e.rtime)
  }

  function Fresh(): Estimate {
    Estimate(0, 6, 6, 0, -1)
  }

  class Estimator {
    var sa: int
    var sv: int
    var rto: int
    var nrtx: nat
    var rtime: int
    /** When the segment that is timed was sent; 0 if none is. */
    var rttest: U32

    function View(): Estimate
      reads this
    {
      Estimate(sa, sv, rto, nrtx, rtime)
    }

    constructor ()
      ensures View() == Fresh() && rttest == 0
    {
      sa, sv, rto, nrtx, rtime, rttest := 0, 6, 6, 0, -1, 0;
    }

    /** The round trip measured in tcp_receive, if a segment is timed and `covered` by the
        acknowledgement.  In 16 bits it computes what the estimator computes over the
        integers, for every sample the bounds allow. */
    method Sample(ticks: U32, covered: bool)
      modifies `sa, `sv, `rto, `rttest
      ensures old(rttest) != 0 && covered ==>
                View() == Sampled(old(View()), Sub32(ticks, old(rttest))) && rttest == 0
      ensures old(rttest) != 0 && covered && Inv(old(View())) && Sub32(ticks, old(rttest)) <= MAX_SAMPLE ==>
                View() == Smoothed(old(View()), Sub32(ticks, old(rttest))) && Inv(View())
      ensures !(old(rttest) != 0 && covered) ==> View() == old(View()) && rttest == old(rttest)
    {
      if rttest == 0 || !covered { return; }
      ghost var e, d := View(), Sub32(ticks, rttest);
      Measure(Sub32(ticks, rttest));
      if Inv(e) && d <= MAX_SAMPLE { SampleFits(e, d); }
      rttest := 0;
    }

    method Measure(d: U32)
      modifies `sa, `sv, `rto
      ensures View() == Sampled(old(View()), d)
    {
      var m := S16(d);
      m := S16(m - sa / 8);
      Correct(m);
    }

    method Correct(m: int)
      modifies `sa, `sv, `rto
      ensures View() == Corrected(old(View()), m)
    {
      sa := S16(sa + m);
      MeasureDeviation(m);
      rto := S16(sa / 8 + sv);
    }

    method MeasureDeviation(err: int)
      modifies `sv
      ensures sv == Deviated(old(sv), err)
    {
      var m := err;
      if m < 0 {
        m := S16(-m);
      }
      m := S16(m - sv / 4);
      sv := S16(sv + m);
    }

    /** What an acknowledgement of new data does to it; the timer runs on if data is still
        outstanding. */
    method Ack(running: bool)
      requires Inv(View())
      modifies `nrtx, `rto, `rtime
      ensures View() == Acked(old(View()), running)
    {
      nrtx := 0;
      rto := S16(sa / 8 + sv);
      rtime := if running then 0 else -1;
    }

    /** The retransmission part of tcp_slowtmr: one tick of the timer; `requeued` is whether
        the outstanding segments could be queued again. */
    method SlowTick(requeued: bool, synSent: bool) returns (fires: bool)
      requires Inv(View())
      modifies `nrtx, `rto, `rtime
      ensures fires <==> Ticked(old(View())).rtime >= old(rto)
      ensures View() == if fires && requeued then BackedOff(Ticked(old(View())), synSent) else Ticked(old(View()))
    {
      if rtime >= 0 && rtime < 0x7FFF {
        rtime := rtime + 1;
      }
      fires := rtime >= rto;
      if fires && requeued {
        if !synSent {
          var calcRto := (sa / 8 + sv) * Pow2(Backoff(nrtx));
          rto := S16(Min(calcRto, 0x7FFF));
          BackoffBounds(View());
        }
        rtime := 0;
        if nrtx < 0xFF {
          nrtx := nrtx + 1;
        }
      }
    }
  }

  lemma BackoffBounds(e: Estimate)
    requires 0 <= e.sa && 3 <= e.sv
    ensures 3 <= Base(e) <= Base(e) * Pow2(Backoff(e.nrtx))
  {
  }

  // ----- bounds

  /** A sample up to MAX_SAMPLE is taken as over the integers, and the bounds are kept. */
  lemma SampleFits(e: Estimate, m: nat)
    requires Inv(e) && m <= MAX_SAMPLE
    ensures Sampled(e, m) == Smoothed(e, m) && Inv(Smoothed(e, m))
  {
  }

  /** Constant round trips are learnt: while the smoothed value is off, each sample moves it
      towards the sample and not past it; once it is right it stays. */
  lemma Learns(e: Estimate, m: nat)
    requires Inv(e) && m <= MAX_SAMPLE
    ensures e.sa / 8 < m ==> e.sa < Smoothed(e, m).sa && Smoothed(e, m).sa / 8 <= m
    ensures e.sa / 8 == m ==> Smoothed(e, m).sa == e.sa && (e.sv > 3 ==> Smoothed(e, m).sv < e.sv)
    ensures e.sa / 8 > m ==> Smoothed(e, m).sa < e.sa && m <= Smoothed(e, m).sa / 8
  {
  }

  /** The estimator is the one of section 2 of RFC 6298, to less than a unit of its fixed
      point: the round trip moves by 1/8 of its error, the deviation by 1/4 of what the size
      of that error differs from it, and the time-out is the round trip and four deviations. */
  lemma FollowsRfc(e: Estimate, m: nat)
    requires Inv(e) && m <= MAX_SAMPLE
    ensures var f, err := Sampled(e, m), if m < e.sa / 8 then e.sa / 8 - m else m - e.sa / 8;
      && 7 * e.sa + 8 * m <= 8 * f.sa < 7 * e.sa + 8 * m + 8
      && 3 * e.sv + 4 * err <= 4 * f.sv < 3 * e.sv + 4 * err + 4
      && 8 * f.rto <= f.sa + 8 * f.sv < 8 * f.rto + 8
      && f.nrtx == e.nrtx && f.rtime == e.rtime
  {
    SampleFits(e, m);
  }

  // ----- back-off

  /** Time-outs without an acknowledgement double the time-out each time, from twice the
      estimate on, up to 128 times the estimate or the 16-bit limit. */
  lemma BackoffDoubles(e: Estimate)
    requires Inv(e)
    ensures var f, g := BackedOff(e, false), BackedOff(BackedOff(e, false), false);
            && f.rto <= g.rto
            && (e.nrtx == 0 ==> f.rto == Min(2 * Base(e), 0x7FFF))
            && (e.nrtx < 6 ==> g.rto == Min(2 * f.rto, 0x7FFF))
            && (e.nrtx >= 6 ==> g.rto == f.rto == Min(128 * Base(e), 0x7FFF))
  {
    var f := BackedOff(e, false);
    BackoffBounds(e);
    BackoffBounds(f);
    assert Pow2(1) == 2 * Pow2(0);
    if e.nrtx < 6 {
      assert Backoff(f.nrtx) == Backoff(e.nrtx) + 1;
      Doubles(Base(e), Pow2(Backoff(e.nrtx)));
    } else {
      assert Pow2(7) == 128;
    }
  }

  lemma Doubles(x: int, y: int)
    ensures x * (2 * y) == 2 * (x * y)
  {
  }

  /** `n` time-outs in a row. */
  function BackedOffTimes(e: Estimate, n: nat): Estimate {
    if n == 0 then e else BackedOff(BackedOffTimes(e, n - 1), false)
  }

  /** Time-outs are counted in 8 bits and restart the timer; the estimate does not change.  An
      acknowledgement of new data undoes all of them: the time-out is that of the estimate
      again, and the next ones start from its double. */
  lemma {:induction false} AckUndoesBackoff(e: Estimate, n: nat, running: bool)
    requires Inv(e)
    ensures var f := BackedOffTimes(e, n);
      && f.sa == e.sa && f.sv == e.sv && f.nrtx == Min(e.nrtx + n, 0xFF) && (0 < n ==> f.rtime == 0)
      && Acked(f, running) == Acked(e, running)
    ensures var g := Acked(e, running);
      && g.sa == e.sa && g.sv == e.sv && 8 * g.rto <= e.sa + 8 * e.sv < 8 * g.rto + 8
      && g.nrtx == 0 && (if running then g.rtime == 0 else g.rtime < 0)
      && BackedOff(g, false).rto == Min(2 * g.rto, 0x7FFF)
  {
    if n > 0 { AckUndoesBackoff(e, n - 1, running); }
    BackoffDoubles(Acked(e, running));
  }

  /** A SYN is repeated with the time-out it was sent with. */
  lemma SynKeepsTimeout(e: Estimate)
    ensures var f := BackedOff(e, true); f == BackedOff(e, false).(rto := e.rto) && f.rtime == 0
  {
  }

  // ----- runs

  datatype Event = SampleOf(m: nat) | AckOf(running: bool) | Start | Tick(requeued: bool, synSent: bool)

  function Step(e: Estimate, ev: Event): Estimate {
    match ev
    case SampleOf(m) => Sampled(e, m)
    case AckOf(running) => Acked(e, running)
    case Start => if e.rtime < 0 then e.(rtime := 0) else e
    case Tick(requeued, synSent) =>
      if Ticked(e).rtime >= e.rto && requeued then BackedOff(Ticked(e), synSent) else Ticked(e)
  }

  /** A run in which no sample is longer than `longest`. */
  ghost predicate Run(es: seq<Estimate>, evs: seq<Event>, longest: nat) {
    && |es| == |evs| + 1 && es[0] == Fresh()
    && (forall i {:trigger evs[i]} :: 0 <= i < |evs| ==>
          es[i + 1] == Step(es[i], evs[i]) && (evs[i].SampleOf? ==> evs[i].m <= longest))
  }

  lemma StepKeeps(e: Estimate, ev: Event)
    requires Inv(e) && (ev.SampleOf? ==> ev.m <= MAX_SAMPLE)
    ensures Inv(Step(e, ev))
  {
    match ev
    case SampleOf(m) => SampleFits(e, m);
    case AckOf(_) => BackoffBounds(e);
    case Start =>
    case Tick(_, _) => BackoffBounds(Ticked(e));
  }

  /** For every run of samples, acknowledgements, time-outs and ticks the estimator stays
      within its 16 bits. */
  lemma {:induction false} RunKeeps(es: seq<Estimate>, evs: seq<Event>, i: nat)
    requires Run(es, evs, MAX_SAMPLE) && i < |es|
    ensures Inv(es[i])
  {
    if i > 0 {
      RunKeeps(es, evs, i - 1);
      assert es[i - 1 + 1] == Step(es[i - 1], evs[i - 1]);
      StepKeeps(es[i - 1], evs[i - 1]);
    }
  }

  ghost predicate Bounded(es: seq<Estimate>) {
    forall i :: 0 <= i < |es| ==> Inv(es[i])
  }

  /** The longest sample repeated: while nothing overflows, every one raises the estimate. */
  lemma {:induction false} TooLong(n: nat) returns (es: seq<Estimate>, evs: seq<Event>)
    ensures Run(es, evs, MAX_SAMPLE + 1) && |evs| == n
    ensures Bounded(es) ==> es[n].sa >= n
  {
    if n == 0 {
      es, evs := [Fresh()], [];
    } else {
      var m := MAX_SAMPLE + 1;
      var fs, gs := TooLong(n - 1);
      es, evs := fs + [Sampled(fs[n - 1], m)], gs + [SampleOf(m)];
      if Bounded(es) {
        assert forall i :: 0 <= i < |fs| ==> fs[i] == es[i];
        assert Inv(es[n]) && Inv(es[n - 1]) && es[n] == Sampled(fs[n - 1], m);
        Rises(fs[n - 1]);
      }
    }
  }

  lemma Rises(e: Estimate)
    requires Inv(e) && Inv(Sampled(e, MAX_SAMPLE + 1))
    ensures Sampled(e, MAX_SAMPLE + 1).sa > e.sa
  {
  }

  lemma LongerRun(es: seq<Estimate>, evs: seq<Event>, a: nat, b: nat)
    requires Run(es, evs, a) && a <= b
    ensures Run(es, evs, b)
  {
  }

  /** MAX_SAMPLE is exactly what the 16 bits bear: all runs whose samples are no longer than
      `longest` stay within the bounds if and only if it is no longer. */
  lemma RunsKeepIff(longest: nat)
    ensures (forall es, evs :: Run(es, evs, longest) ==> Bounded(es)) <==> longest <= MAX_SAMPLE
  {
    if longest <= MAX_SAMPLE {
      forall es, evs | Run(es, evs, longest) ensures Bounded(es) {
        LongerRun(es, evs, longest, MAX_SAMPLE);
        forall i | 0 <= i < |es| ensures Inv(es[i]) { RunKeeps(es, evs, i); }
      }
    } else {
      var es, evs := TooLong(0x8000);
      LongerRun(es, evs, MAX_SAMPLE + 1, longest);
      assert Bounded(es) ==> Inv(es[0x8000]);
    }
  }

  /** n ticks in a row. */
  function Ticks(e: Estimate, n: nat): Estimate {
    if n == 0 then e else Ticked(Ticks(e, n - 1))
  }

  /** A running timer fires after exactly as many ticks as are left of the time-out: the
      time-out never lies beyond what the timer can count to. */
  lemma {:induction false} TimerFires(e: Estimate, n: nat)
    requires Inv(e) && 0 <= e.rtime
    ensures Ticks(e, n) == e.(rtime := Max(e.rtime, Min(e.rtime + n, 0x7FFF)))
    ensures Ticks(e, n).rtime >= e.rto <==> e.rtime + n >= e.rto
  {
    if n > 0 { TimerFires(e, n - 1); }
  }

  /** A stopped timer never fires. */
  lemma {:induction false} StoppedTimer(e: Estimate, n: nat)
    requires Inv(e) && e.rtime < 0
    ensures Ticks(e, n) == e && e.rtime < e.rto
  {
    if n > 0 { StoppedTimer(e, n - 1); }
  }
}
