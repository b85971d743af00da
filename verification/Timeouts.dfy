/** timeouts.c: the list of timeouts with 32-bit times that wrap.  As long as all times lie
    within half the range, every operation does what module TimerQueue says. */
module Timeouts {
  import opened SeqNum
  import opened TimerQueue

  /** struct sys_timeo; the timer stands for handler and argument. */
  datatype Timeo = Timeo(time: U32, timer: Timer)

  predicate Models(l: seq<Timeo>, q: seq<Entry>) {
    |l| == |q| && (forall i :: 0 <= i < |q| ==> l[i] == Timeo(Wrap(q[i].time), q[i].timer))
  }

  /** All times lie in the half range from lo on. */
  ghost predicate Within(q: seq<Entry>, lo: int) {
    forall i :: 0 <= i < |q| ==> lo <= q[i].time < lo + TWO_31
  }

  lemma LessMeans(x: int, y: int, lo: int)
    requires lo <= x < lo + TWO_31 && lo <= y < lo + TWO_31
    ensures TimeLessThan(Wrap(x), Wrap(y)) <==> x < y
  {
    WrappedOrder(x, y);
  }

  class TimerList {
    var list: seq<Timeo>
    var currentDue: U32
    /** sys_now. */
    var now: U32
    /** How many timeouts the pool MEMP_SYS_TIMEOUT holds. */
    const pool: nat
    ghost var view: seq<Entry>
    ghost var clock: int

    ghost predicate Valid()
      reads this
    {
      Models(list, view) && Sorted(view) && Positive(view) && now == Wrap(clock) && |list| <= pool
    }

    constructor (start: U32, pool: nat)
      ensures Valid() && view == [] && clock == start && this.pool == pool
    {
      list, currentDue, now, view, clock := [], 0, start, [], start;
      this.pool := pool;
    }

    /** The place of a timeout: before the first one that is due later. */
    method Place(absTime: U32, ghost t: int, ghost lo: int) returns (k: nat)
      requires Models(list, view) && Within(view, lo) && lo <= t < lo + TWO_31 && absTime == Wrap(t)
      ensures k <= |view| && (forall j :: 0 <= j < k ==> view[j].time <= t) && (k < |view| ==> t < view[k].time)
    {
      k := 0;
      while k < |list| && !TimeLessThan(absTime, list[k].time)
        invariant k <= |list|
        invariant forall j :: 0 <= j < k ==> view[j].time <= t
      {
        LessMeans(t, view[k].time, lo);
        k := k + 1;
      }
      if k < |list| { LessMeans(t, view[k].time, lo); }
    }

    /** The timeouts with e among them, if the pool has one left. */
    ghost function Adding(q: seq<Entry>, e: Entry): seq<Entry> {
      if |q| < pool then Insert(q, e) else q
    }

    /** sys_timeout_abs; with an empty pool the timeout is dropped without a word. */
    method TimeoutAbs(absTime: U32, timer: Timer, ghost e: Entry, ghost lo: int)
      requires Valid() && e.timer == timer && absTime == Wrap(e.time)
      requires Positive([e]) && Within(view, lo) && Within([e], lo)
      modifies `list, `view
      ensures Valid() && view == Adding(old(view), e)
    {
      if |list| == pool { return; }
      assert [e][0] == e;
      var k := Place(absTime, e.time, lo);
      InsertAt(view, e, k);
      InsertModels(list, view, Timeo(absTime, timer), e, k);
      InsertSorted(view, e);
      InsertPositive(view, e);
      list := list[..k] + [Timeo(absTime, timer)] + list[k..];
      view := Insert(view, e);
    }

    /** sys_timeout. */
    method Timeout(msecs: U32, timer: Timer, ghost lo: int)
      requires Valid() && (timer.kind == Once || 0 < timer.interval)
      requires Within(view, lo) && lo <= clock + msecs < lo + TWO_31
      modifies `list, `view
      ensures Valid() && view == Adding(old(view), Entry(clock + msecs, timer))
    {
      WrapAdd(clock, msecs);
      TimeoutAbs(Add32(now, msecs), timer, Entry(clock + msecs, timer), lo);
    }

    /** sys_untimeout. */
    method Untimeout(id: nat)
      requires Valid()
      modifies `list, `view
      ensures Valid() && view == Remove(old(view), id)
    {
      var i := 0;
      while i < |list|
        invariant i <= |list|
        invariant forall j :: 0 <= j < i ==> view[j].timer.id != id
      {
        if list[i].timer.id == id {
          RemoveAt(view, id, i);
          RemoveKeeps(view, id);
          RemovePositive(view, i);
          list := list[..i] + list[i + 1..];
          view := Remove(view, id);
          return;
        }
        i := i + 1;
      }
      RemoveNone(view, id);
    }

    /** lwip_cyclic_timer behind the handler: the next run is one interval after this one
        was due, unless that time has passed. */
    method CyclicTimer(timer: Timer, ghost due: int, ghost lo: int)
      requires Valid() && currentDue == Wrap(due) && timer.kind == Cyclic && 0 < timer.interval
      requires Within(view, lo) && lo <= due <= clock && clock + timer.interval < lo + TWO_31
      requires |list| < pool
      modifies `list, `view
      ensures Valid() && view == AfterHandler(old(view), Entry(due, timer), clock, true)
    {
      WrapAdd(due, timer.interval);
      WrapAdd(clock, timer.interval);
      var next := Add32(currentDue, timer.interval);
      LessMeans(due + timer.interval, clock, lo);
      if TimeLessThan(next, now) {
        Again(Add32(now, timer.interval), timer, clock + timer.interval, lo);
      } else {
        Again(next, timer, due + timer.interval, lo);
      }
    }

    /** sys_timeout_abs with a timeout in the pool. */
    method Again(absTime: U32, timer: Timer, ghost t: int, ghost lo: int)
      requires Valid() && absTime == Wrap(t) && (timer.kind == Once || 0 < timer.interval)
      requires Within(view, lo) && lo <= t < lo + TWO_31 && |list| < pool
      modifies `list, `view
      ensures Valid() && view == Insert(old(view), Entry(t, timer))
    {
      TimeoutAbs(absTime, timer, Entry(t, timer), lo);
    }

    /** Calls the handler of a timeout, which is back in the pool, so that the handler finds
        one; meanwhile the clock goes on. */
    method RunHandler(timer: Timer, lag: Lag, ghost due: int, ghost lo: int)
      requires Valid() && currentDue == Wrap(due) && (timer.kind == Once || 0 < timer.interval)
      requires Within(view, lo) && lo <= due <= clock && clock + lag.delay + timer.interval < lo + TWO_31
      requires |list| < pool
      modifies `list, `view, `now, `clock
      ensures Valid() && clock == old(clock) + lag.delay
      ensures view == AfterHandler(old(view), Entry(due, timer), clock, lag.needed)
    {
      WrapAdd(clock, lag.delay);
      now, clock := Add32(now, lag.delay), clock + lag.delay;
      match timer.kind
      case Once =>
      case Cyclic => CyclicTimer(timer, due, lo);
      case OnDemand =>
        if lag.needed { Timeout(timer.interval, timer, lo); }
    }

    /** The first timeout leaves the list and its handler runs. */
    method RunFirst(lag: Lag, ghost room: nat, ghost lo: int, ghost next: seq<Entry>)
      requires Valid() && view != [] && lo <= view[0].time <= clock
      requires Fits(view, room, lo) && clock + lag.delay + room < lo + TWO_31
      requires next == AfterHandler(view[1..], view[0], clock + lag.delay, lag.needed)
      modifies this
      ensures Valid() && clock == old(clock) + lag.delay && Fits(view, room, lo)
      ensures view == next
    {
      HandlerFits(view, room, lo, clock + lag.delay, lag.needed);
      ghost var due := view[0].time;
      var timer := TakeFirst();
      RunHandler(timer, lag, due, lo);
    }

    /** The first timeout goes back into the pool. */
    method TakeFirst() returns (timer: Timer)
      requires Valid() && view != []
      modifies `list, `view, `currentDue
      ensures Valid() && view == old(view)[1..] && |list| < pool
      ensures timer == old(view)[0].timer && currentDue == Wrap(old(view)[0].time)
    {
      currentDue, timer := list[0].time, list[0].timer;
      list, view := list[1..], view[1..];
    }

    /** What one round of the loop of sys_check_timeouts leaves to do, when it began with
        the list `q`. */
    ghost predicate Round(q: seq<Entry>, was: int, lags: seq<Lag>, rest: seq<Lag>, began: int, t: Outcome)
      reads this
      requires Positive(q) && began <= was
    {
      && Positive(view) && began <= clock
      && q != [] && Weight(view, began) < Weight(q, began)
      && t == Check(view, began, clock, rest) && Check(q, began, was, lags) == t.(fired := [q[0]] + t.fired)
    }

    /** One round of the loop of sys_check_timeouts, which began at time `began`. */
    method RunDue(lags: seq<Lag>, ghost began: int, ghost room: nat, ghost lo: int)
      returns (rest: seq<Lag>, ghost t: Outcome)
      requires Valid() && view != [] && lo <= view[0].time <= began <= clock
      requires Fits(view, room, lo) && clock + Total(lags) + room < lo + TWO_31
      modifies this
      ensures Valid() && Fits(view, room, lo) && clock + Total(rest) + room < lo + TWO_31
      ensures Round(old(view), old(clock), lags, rest, began, t)
      ensures list != [] ==> (TimeLessThan(Wrap(began), list[0].time) <==> began < view[0].time)
    {
      ghost var q, was, next, c, more := view, clock, view, clock, lags;
      next, c, more, t := CheckUnrolled(view, began, clock, lags);
      rest := TakeLag(lags, room, lo, next);
      RoundDone(q, was, lags, next, c, more, rest, began, t);
      HeadDue(view, began, lo);
    }

    static lemma FiredMore(fired: seq<Entry>, e: Entry, more: seq<Entry>)
      ensures fired + ([e] + more) == fired + [e] + more
    {
    }

    lemma RoundDone(q: seq<Entry>, was: int, lags: seq<Lag>, next: seq<Entry>, c: int, more: seq<Lag>, rest: seq<Lag>,
                    began: int, t: Outcome)
      requires Positive(q) && began <= was && q != [] && Positive(next) && began <= c
      requires next == view && c == clock && more == rest && Weight(next, began) < Weight(q, began)
      requires t == Check(next, began, c, more) && Check(q, began, was, lags) == t.(fired := [q[0]] + t.fired)
      ensures Round(q, was, lags, rest, began, t)
    {
    }

    method TakeLag(lags: seq<Lag>, ghost room: nat, ghost lo: int, ghost next: seq<Entry>) returns (rest: seq<Lag>)
      requires Valid() && view != [] && lo <= view[0].time <= clock
      requires Fits(view, room, lo) && clock + Total(lags) + room < lo + TWO_31
      requires next == AfterHandler(view[1..], view[0], clock + HeadLag(lags).delay, HeadLag(lags).needed)
      modifies this
      ensures Valid() && Fits(view, room, lo) && view == next
      ensures rest == TailLags(lags) && clock == old(clock) + HeadLag(lags).delay
      ensures clock + Total(rest) + room < lo + TWO_31
    {
      TotalSplit(lags);
      RunFirst(HeadLag(lags), room, lo, next);
      rest := TailLags(lags);
    }

    /** sys_check_timeouts.  The k-th handler run takes the k-th lag; room bounds the
        intervals, and the half range must hold what the handlers start again. */
    method CheckTimeouts(lags: seq<Lag>, ghost room: nat, ghost lo: int) returns (ghost fired: seq<Entry>)
      requires Valid() && lo <= clock
      requires Fits(view, room, lo) && clock + Total(lags) + room < lo + TWO_31
      modifies this
      ensures Valid() && Check(old(view), old(clock), old(clock), lags) == Outcome(fired, view, clock)
    {
      var start, rest := now, lags;
      ghost var began, whole := clock, Check(view, clock, clock, lags);
      ghost var t := whole;
      fired := [];
      assert [] + t.fired == t.fired;
      HeadDue(view, began, lo);
      while list != [] && !TimeLessThan(start, list[0].time)
        invariant Valid() && Fits(view, room, lo) && began <= clock && clock + Total(rest) + room < lo + TWO_31
        invariant list != [] ==> (TimeLessThan(start, list[0].time) <==> began < view[0].time)
        invariant t == Check(view, began, clock, rest)
        invariant whole == t.(fired := fired + t.fired)
        decreases Weight(view, began)
      {
        ghost var e := view[0];
        rest, t := RunDue(rest, began, room, lo);
        FiredMore(fired, e, t.fired);
        fired := fired + [e];
      }
      CheckDone(view, began, clock, rest);
      assert fired + [] == fired;
    }

    /** sys_restart_timeouts. */
    method Restart()
      requires Valid()
      modifies `list, `view
      ensures Valid() && view == if old(view) == [] then [] else Rebase(old(view), clock - old(view)[0].time)
    {
      if list == [] { return; }
      ghost var q, shift := view, clock - view[0].time;
      var base := list[0].time;
      var i := 0;
      while i < |list|
        invariant i <= |list| == |q| && view == q
        invariant forall j :: 0 <= j < i ==> list[j] == Timeo(Wrap(q[j].time + shift), q[j].timer)
        invariant forall j :: i <= j < |q| ==> list[j] == Timeo(Wrap(q[j].time), q[j].timer)
      {
        Rewrapped(q[i].time, q[0].time, clock);
        list := list[i := list[i].(time := Add32(Sub32(list[i].time, base), now))];
        i := i + 1;
      }
      RebaseKeeps(q, shift);
      view := Rebase(q, shift);
    }

    /** sys_timeouts_sleeptime: the time left before the first timeout is due. */
    method SleepTime(ghost lo: int) returns (t: U32)
      requires Valid() && Within(view, lo) && lo <= clock < lo + TWO_31
      ensures t == if view == [] then 0xffff_ffff else Max(view[0].time - clock, 0)
    {
      if list == [] { return 0xffff_ffff; }
      LessMeans(view[0].time, clock, lo);
      WrappedDifference(view[0].time, clock);
      if TimeLessThan(list[0].time, now) {
        return 0;
      } else {
        return Sub32(list[0].time, now);
      }
    }
  }

  lemma Rewrapped(x: int, base: int, now: int)
    ensures Add32(Sub32(Wrap(x), Wrap(base)), Wrap(now)) == Wrap(x + (now - base))
  {
    WrapSub(x, base);
    WrapSum(x - base, now);
    assert x - base + now == x + (now - base);
  }

  function Total(lags: seq<Lag>): nat {
    if lags == [] then 0 else lags[0].delay + Total(lags[1..])
  }

  lemma TotalSplit(lags: seq<Lag>)
    ensures Total(lags) == HeadLag(lags).delay + Total(TailLags(lags))
  {
  }

  /** All times lie in the half range, and the intervals are no longer than room. */
  ghost predicate Fits(q: seq<Entry>, room: nat, lo: int) {
    Within(q, lo) && forall i :: 0 <= i < |q| ==> q[i].timer.interval <= room
  }

  lemma {:induction false} InsertFits(q: seq<Entry>, e: Entry, room: nat, lo: int)
    requires Fits(q, room, lo) && lo <= e.time < lo + TWO_31 && e.timer.interval <= room
    ensures Fits(Insert(q, e), room, lo)
  {
    if q != [] && e.time >= q[0].time { InsertFits(q[1..], e, room, lo); }
  }

  lemma HandlerFits(q: seq<Entry>, room: nat, lo: int, clock: int, needed: bool)
    requires q != [] && Fits(q, room, lo) && lo <= q[0].time <= clock && clock + room < lo + TWO_31
    ensures Fits(AfterHandler(q[1..], q[0], clock, needed), room, lo)
  {
    var e := q[0];
    var again := if e.timer.kind == OnDemand || e.time + e.timer.interval < clock then clock + e.timer.interval
                 else e.time + e.timer.interval;
    InsertFits(q[1..], e.(time := again), room, lo);
  }

  lemma HeadDue(q: seq<Entry>, now: int, lo: int)
    requires Within(q, lo) && lo <= now < lo + TWO_31
    ensures q != [] ==> (TimeLessThan(Wrap(now), Wrap(q[0].time)) <==> now < q[0].time)
  {
    if q != [] { LessMeans(now, q[0].time, lo); }
  }

  lemma {:induction false} InsertAt(q: seq<Entry>, e: Entry, k: nat)
    requires k <= |q| && (forall j :: 0 <= j < k ==> q[j].time <= e.time) && (k == |q| || e.time < q[k].time)
    ensures Insert(q, e) == q[..k] + [e] + q[k..]
  {
    if k > 0 {
      var t := q[1..];
      InsertAt(t, e, k - 1);
      assert q[..k] == [q[0]] + t[..k - 1] && q[k..] == t[k - 1..];
      assert q[..k] + [e] + q[k..] == [q[0]] + (t[..k - 1] + [e] + t[k - 1..]);
    } else {
      assert q[..0] + [e] + q[0..] == [e] + q;
    }
  }

  lemma InsertModels(l: seq<Timeo>, q: seq<Entry>, t: Timeo, e: Entry, k: nat)
    requires Models(l, q) && k <= |q| && t == Timeo(Wrap(e.time), e.timer)
    ensures Models(l[..k] + [t] + l[k..], q[..k] + [e] + q[k..])
  {
  }

  lemma {:induction false} RemoveAt(q: seq<Entry>, id: nat, k: nat)
    requires k < |q| && q[k].timer.id == id && (forall j :: 0 <= j < k ==> q[j].timer.id != id)
    ensures Remove(q, id) == q[..k] + q[k + 1..]
  {
    if k > 0 {
      RemoveAt(q[1..], id, k - 1);
      assert q[..k] == [q[0]] + q[1..][..k - 1] && q[k + 1..] == q[1..][k..];
    }
  }

  lemma RemovePositive(q: seq<Entry>, k: nat)
    requires k < |q| && Positive(q)
    ensures Positive(q[..k] + q[k + 1..])
  {
  }

  lemma {:induction false} RemoveNone(q: seq<Entry>, id: nat)
    requires forall j :: 0 <= j < |q| ==> q[j].timer.id != id
    ensures Remove(q, id) == q
  {
    if q != [] { RemoveNone(q[1..], id); }
  }
}
