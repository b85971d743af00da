/** The list of timeouts on unwrapped times. */
module TimerQueue {
  import opened SeqNum

  // Where a timeout goes, what one call of sys_check_timeouts runs, and what it leaves.  Module
  // Timeouts ties the list of wrapped 32-bit times to it.

  /** What the handler does to the list: nothing; start again one interval after the due
      time (lwip_cyclic_timer); start again one interval from now if still needed
      (tcpip_tcp_timer). */
  datatype Kind = Once | Cyclic | OnDemand

  datatype Timer = Timer(id: nat, kind: Kind, interval: nat)

  datatype Entry = Entry(time: int, timer: Timer)

  /** While a handler runs the clock goes on, and the handler finds out whether its timer
      is still needed. */
  datatype Lag = Lag(delay: nat, needed: bool)

  // ----- the list

  predicate Sorted(q: seq<Entry>) {
    q == [] || ((q[1..] == [] || q[0].time <= q[1].time) && Sorted(q[1..]))
  }

  /** sys_timeout_abs: behind everything that is due no later. */
  function Insert(q: seq<Entry>, e: Entry): (r: seq<Entry>)
    ensures |r| == |q| + 1
  {
    if q == [] || e.time < q[0].time then [e] + q else [q[0]] + Insert(q[1..], e)
  }

  /** sys_untimeout: the first timeout of this timer goes. */
  function Remove(q: seq<Entry>, id: nat): seq<Entry> {
    if q == [] then [] else if q[0].timer.id == id then q[1..] else [q[0]] + Remove(q[1..], id)
  }

  /** sys_restart_timeouts: the first timeout is due now, the others keep their distance. */
  function Rebase(q: seq<Entry>, shift: int): (r: seq<Entry>)
    ensures |r| == |q| && (forall i :: 0 <= i < |q| ==> r[i] == q[i].(time := q[i].time + shift))
  {
    if q == [] then [] else [q[0].(time := q[0].time + shift)] + Rebase(q[1..], shift)
  }

  function Count(q: seq<Entry>, id: nat): nat {
    if q == [] then 0 else (if q[0].timer.id == id then 1 else 0) + Count(q[1..], id)
  }

  lemma {:induction false} InsertSorted(q: seq<Entry>, e: Entry)
    requires Sorted(q)
    ensures Sorted(Insert(q, e))
    ensures Insert(q, e)[0].time == if q == [] then e.time else Min(e.time, q[0].time)
  {
    if q == [] || e.time < q[0].time {
      assert ([e] + q)[1..] == q;
    } else {
      InsertSorted(q[1..], e);
      assert ([q[0]] + Insert(q[1..], e))[1..] == Insert(q[1..], e);
    }
  }

  /** The place of a new timeout: behind those due at the same time, before all that are
      due later; the others keep their order. */
  lemma {:induction false} InsertPlace(q: seq<Entry>, e: Entry) returns (k: nat)
    requires Sorted(q)
    ensures k <= |q| && Insert(q, e) == q[..k] + [e] + q[k..]
    ensures forall i :: 0 <= i < k ==> q[i].time <= e.time
    ensures forall i :: k <= i < |q| ==> e.time < q[i].time
  {
    if q == [] || e.time < q[0].time {
      k := 0;
      forall i | 0 <= i < |q| ensures e.time < q[i].time { SortedMeans(q, 0, i); }
    } else {
      var j := InsertPlace(q[1..], e);
      k := j + 1;
      assert q[..k] == [q[0]] + q[1..][..j] && q[k..] == q[1..][j..];
      forall i | 0 <= i < k ensures q[i].time <= e.time { if i > 0 { assert q[i] == q[1..][i - 1]; } }
      forall i | k <= i < |q| ensures e.time < q[i].time { assert q[i] == q[1..][i - 1]; }
    }
  }

  lemma {:induction false} SortedMeans(q: seq<Entry>, i: nat, j: nat)
    requires Sorted(q) && i <= j < |q|
    ensures q[i].time <= q[j].time
    decreases j
  {
    if i > 0 {
      SortedMeans(q[1..], i - 1, j - 1);
    } else if j > 0 {
      SortedMeans(q[1..], 0, j - 1);
    }
  }

  lemma {:induction false} InsertCount(q: seq<Entry>, e: Entry, id: nat)
    ensures Count(Insert(q, e), id) == Count(q, id) + if e.timer.id == id then 1 else 0
  {
    if q == [] || e.time < q[0].time {
      assert ([e] + q)[1..] == q;
    } else {
      InsertCount(q[1..], e, id);
      assert ([q[0]] + Insert(q[1..], e))[1..] == Insert(q[1..], e);
    }
  }

  /** Removing takes one timeout away, if there is one, and leaves the order. */
  lemma {:induction false} RemoveKeeps(q: seq<Entry>, id: nat)
    requires Sorted(q)
    ensures Sorted(Remove(q, id)) && Count(Remove(q, id), id) == Max(Count(q, id) - 1, 0)
    ensures Remove(q, id) != [] ==> q != [] && q[0].time <= Remove(q, id)[0].time
  {
    if q != [] && q[0].timer.id != id {
      RemoveKeeps(q[1..], id);
      assert ([q[0]] + Remove(q[1..], id))[1..] == Remove(q[1..], id);
    }
  }

  lemma {:induction false} RebaseKeeps(q: seq<Entry>, shift: int)
    requires Sorted(q)
    ensures Sorted(Rebase(q, shift))
  {
    if q != [] {
      RebaseKeeps(q[1..], shift);
      assert Rebase(q, shift)[1..] == Rebase(q[1..], shift);
    }
  }

  // ----- one call of sys_check_timeouts

  /** Timers that start again have a positive interval. */
  predicate Positive(q: seq<Entry>) {
    forall i :: 0 <= i < |q| ==> q[i].timer.kind == Once || 0 < q[i].timer.interval
  }

  /** The list once the handler of e has run and the clock stands at `clock`. */
  function AfterHandler(q: seq<Entry>, e: Entry, clock: int, needed: bool): seq<Entry> {
    match e.timer.kind
    case Once => q
    case Cyclic =>
      var next := e.time + e.timer.interval;
      Insert(q, e.(time := if next < clock then clock + e.timer.interval else next))
    case OnDemand =>
      if needed then Insert(q, e.(time := clock + e.timer.interval)) else q
  }

  /** How many more handlers one call can run: twice for what is overdue, once for what
      is due now. */
  function Weight(q: seq<Entry>, now: int): nat {
    if q == [] then 0 else (if q[0].time < now then 2 else if q[0].time == now then 1 else 0) + Weight(q[1..], now)
  }

  lemma {:induction false} InsertWeight(q: seq<Entry>, e: Entry, now: int)
    ensures Weight(Insert(q, e), now) == Weight(q, now) + if e.time < now then 2 else if e.time == now then 1 else 0
  {
    if q == [] || e.time < q[0].time {
      assert ([e] + q)[1..] == q;
    } else {
      InsertWeight(q[1..], e, now);
      assert ([q[0]] + Insert(q[1..], e))[1..] == Insert(q[1..], e);
    }
  }

  lemma {:induction false} InsertPositive(q: seq<Entry>, e: Entry)
    requires Positive(q) && Positive([e])
    ensures Positive(Insert(q, e))
  {
    if q != [] && e.time >= q[0].time {
      assert [e][0] == e;
      InsertPositive(q[1..], e);
    } else {
      assert [e][0] == e;
    }
  }

  function HeadLag(lags: seq<Lag>): Lag {
    if lags == [] then Lag(0, true) else lags[0]
  }

  function TailLags(lags: seq<Lag>): (r: seq<Lag>) {
    if lags == [] then [] else lags[1..]
  }

  /** Each handler brings the call closer to its end: what it starts again is due now at
      the earliest, and later if the handler was itself due now. */
  lemma HandlerLowersWeight(q: seq<Entry>, now: int, clock: int, needed: bool)
    requires q != [] && Positive(q) && q[0].time <= now <= clock
    ensures Weight(AfterHandler(q[1..], q[0], clock, needed), now) < Weight(q, now)
    ensures Positive(AfterHandler(q[1..], q[0], clock, needed))
  {
    var e := q[0];
    var next := if e.timer.kind == OnDemand || e.time + e.timer.interval < clock then clock + e.timer.interval
                else e.time + e.timer.interval;
    InsertWeight(q[1..], e.(time := next), now);
    assert Positive([e.(time := next)]);
    InsertPositive(q[1..], e.(time := next));
  }

  datatype Outcome = Outcome(fired: seq<Entry>, left: seq<Entry>, clock: int)

  /** sys_check_timeouts, called at time `now`: runs what is due until nothing is. */
  function Check(q: seq<Entry>, now: int, clock: int, lags: seq<Lag>): (r: Outcome)
    requires Positive(q) && now <= clock
    ensures clock <= r.clock && |r.fired| <= Weight(q, now)
    ensures r.left == [] || now < r.left[0].time
    decreases Weight(q, now)
  {
    if q == [] || now < q[0].time then Outcome([], q, clock)
    else
      var lag := HeadLag(lags);
      HandlerLowersWeight(q, now, clock + lag.delay, lag.needed);
      var r := Check(AfterHandler(q[1..], q[0], clock + lag.delay, lag.needed), now, clock + lag.delay, TailLags(lags));
      r.(fired := [q[0]] + r.fired)
  }

  lemma Cons(e: Entry, s: seq<Entry>, id: nat)
    ensures Count([e] + s, id) == Count(s, id) + if e.timer.id == id then 1 else 0
    ensures Sorted([e] + s) <==> Sorted(s) && (s == [] || e.time <= s[0].time)
  {
    assert ([e] + s)[1..] == s;
  }

  /** A call that has something to run: the first handler, after which the clock stands at
      c, then the rest of the call. */
  lemma CheckUnrolled(q: seq<Entry>, now: int, clock: int, lags: seq<Lag>)
    returns (next: seq<Entry>, c: int, rest: seq<Lag>, t: Outcome)
    requires q != [] && Sorted(q) && Positive(q) && q[0].time <= now <= clock
    ensures c == clock + HeadLag(lags).delay && rest == TailLags(lags)
    ensures next == AfterHandler(q[1..], q[0], c, HeadLag(lags).needed)
    ensures Sorted(next) && Positive(next) && (next != [] ==> q[0].time <= next[0].time)
    ensures Weight(next, now) < Weight(q, now) && t == Check(next, now, c, rest)
    ensures Check(q, now, clock, lags) == t.(fired := [q[0]] + t.fired)
  {
    c, rest := clock + HeadLag(lags).delay, TailLags(lags);
    HandlerLowersWeight(q, now, c, HeadLag(lags).needed);
    HandlerKeepsOrder(q, now, c, HeadLag(lags).needed);
    next := AfterHandler(q[1..], q[0], c, HeadLag(lags).needed);
    t := Check(next, now, c, rest);
  }

  lemma CheckDone(q: seq<Entry>, now: int, clock: int, lags: seq<Lag>)
    requires Positive(q) && now <= clock && (q == [] || now < q[0].time)
    ensures Check(q, now, clock, lags) == Outcome([], q, clock)
  {
  }

  /** The handlers `fired` ran in order, starting with the head of q, none later than now. */
  predicate InOrder(q: seq<Entry>, now: int, fired: seq<Entry>) {
    && Sorted(fired)
    && (fired != [] ==> q != [] && fired[0] == q[0] && fired[|fired| - 1].time <= now)
  }

  lemma InOrderCons(e: Entry, q: seq<Entry>, next: seq<Entry>, now: int, fired: seq<Entry>)
    requires InOrder(next, now, fired) && q != [] && e == q[0] && e.time <= now
    requires next != [] ==> e.time <= next[0].time
    ensures InOrder(q, now, [e] + fired)
  {
    Cons(e, fired, 0);
  }

  /** One call runs handlers in the order they are due, none that is due later than when it
      was called, and leaves the list in order. */
  lemma {:induction false} CheckInOrder(q: seq<Entry>, now: int, clock: int, lags: seq<Lag>, r: Outcome)
    requires Sorted(q) && Positive(q) && now <= clock && r == Check(q, now, clock, lags)
    ensures Sorted(r.left) && InOrder(q, now, r.fired)
    decreases Weight(q, now)
  {
    if q != [] && q[0].time <= now {
      var next, c, rest, t := CheckUnrolled(q, now, clock, lags);
      CheckInOrder(next, now, c, rest, t);
      InOrderCons(q[0], q, next, now, t.fired);
    }
  }

  lemma HandlerKeepsOrder(q: seq<Entry>, now: int, clock: int, needed: bool)
    requires q != [] && Sorted(q) && Positive(q) && q[0].time <= now <= clock
    ensures var r := AfterHandler(q[1..], q[0], clock, needed);
            Sorted(r) && (r != [] ==> q[0].time <= r[0].time)
  {
    var e := q[0];
    if e.timer.kind != Once {
      var next := if e.timer.kind == OnDemand || e.time + e.timer.interval < clock then clock + e.timer.interval
                  else e.time + e.timer.interval;
      InsertBehind(q[1..], e.(time := next), e.time);
    }
  }

  lemma InsertBehind(q: seq<Entry>, e: Entry, x: int)
    requires Sorted(q) && (q != [] ==> x <= q[0].time) && x <= e.time
    ensures Sorted(Insert(q, e)) && x <= Insert(q, e)[0].time
  {
    InsertSorted(q, e);
  }

  /** What one call did for the timer t: every due timeout of it ran; a one-shot timeout
      ran once or stays; a cyclic timer in the list stays in the list; and none ran more
      than twice, nor more than once if it was not overdue. */
  predicate Served(q: seq<Entry>, now: int, t: Timer, fired: seq<Entry>, left: seq<Entry>) {
    && (t.kind == Once ==> Count(fired, t.id) + Count(left, t.id) == Count(q, t.id))
    && (t.kind == Cyclic ==> Count(left, t.id) == Count(q, t.id))
    && Due(q, now, t.id) <= Count(fired, t.id) <= DueTwice(q, now, t.id)
  }

  lemma ServedCons(q: seq<Entry>, next: seq<Entry>, now: int, t: Timer, fired: seq<Entry>, left: seq<Entry>)
    requires q != [] && q[0].time <= now && Served(next, now, t, fired, left)
    requires HandlerCounted(q, next, now, t)
    ensures Served(q, now, t, [q[0]] + fired, left)
  {
    Cons(q[0], fired, t.id);
  }

  /** Nothing due is left out and nothing runs too often. */
  lemma {:induction false} CheckCounts(q: seq<Entry>, now: int, clock: int, lags: seq<Lag>, t: Timer, r: Outcome)
    requires Sorted(q) && Positive(q) && now <= clock && Uniform(q, t) && r == Check(q, now, clock, lags)
    ensures Served(q, now, t, r.fired, r.left) && Count(r.fired, t.id) <= 2 * Count(q, t.id)
    decreases Weight(q, now)
  {
    DueBounds(q, now, t.id);
    if q != [] && q[0].time <= now {
      var next, c, rest, s := CheckUnrolled(q, now, clock, lags);
      HandlerCounts(q, now, c, HeadLag(lags).needed, t, next);
      CheckCounts(next, now, c, rest, t, s);
      ServedCons(q, next, now, t, s.fired, s.left);
    }
  }

  /** Every timeout with t's number is t's. */
  predicate Uniform(q: seq<Entry>, t: Timer) {
    forall i :: 0 <= i < |q| && q[i].timer.id == t.id ==> q[i].timer == t
  }

  /** The timeouts of the timer that are due. */
  function Due(q: seq<Entry>, now: int, id: nat): nat {
    if q == [] then 0 else (if q[0].timer.id == id && q[0].time <= now then 1 else 0) + Due(q[1..], now, id)
  }

  lemma {:induction false} DueBounds(q: seq<Entry>, now: int, id: nat)
    ensures DueTwice(q, now, id) <= 2 * Count(q, id)
    ensures Sorted(q) && q != [] && now < q[0].time ==> Due(q, now, id) == 0
  {
    if q != [] { DueBounds(q[1..], now, id); }
  }

  /** Twice for each overdue timeout of the timer, once for each that is due now. */
  function DueTwice(q: seq<Entry>, now: int, id: nat): nat {
    if q == [] then 0
    else (if q[0].timer.id != id then 0 else if q[0].time < now then 2 else if q[0].time == now then 1 else 0)
         + DueTwice(q[1..], now, id)
  }

  lemma {:induction false} InsertDue(q: seq<Entry>, e: Entry, now: int, id: nat)
    ensures DueTwice(Insert(q, e), now, id) == DueTwice(q, now, id) + DueTwice([e], now, id)
    ensures Due(Insert(q, e), now, id) >= Due(q, now, id)
  {
    assert [e][1..] == [];
    if q == [] || e.time < q[0].time {
      assert ([e] + q)[1..] == q;
    } else {
      InsertDue(q[1..], e, now, id);
      assert ([q[0]] + Insert(q[1..], e))[1..] == Insert(q[1..], e);
    }
  }

  lemma {:induction false} InsertUniform(q: seq<Entry>, e: Entry, t: Timer)
    requires Uniform(q, t) && (e.timer.id == t.id ==> e.timer == t)
    ensures Uniform(Insert(q, e), t)
  {
    if q != [] && e.time >= q[0].time { InsertUniform(q[1..], e, t); }
  }

  /** What running the first handler does to the counts of timer t. */
  predicate HandlerCounted(q: seq<Entry>, next: seq<Entry>, now: int, t: Timer)
    requires q != []
  {
    && Uniform(next, t) && (q[0].timer.id == t.id ==> q[0].timer == t)
    && (t.kind == Once ==> Count(next, t.id) == Count(q[1..], t.id))
    && (t.kind == Cyclic ==> Count(next, t.id) == Count(q, t.id))
    && Due(next, now, t.id) >= Due(q[1..], now, t.id)
    && DueTwice(next, now, t.id) + (if q[0].timer.id == t.id then 1 else 0) <= DueTwice(q, now, t.id)
  }

  lemma HandlerCounts(q: seq<Entry>, now: int, clock: int, needed: bool, t: Timer, next: seq<Entry>)
    requires q != [] && Positive(q) && Uniform(q, t) && q[0].time <= now <= clock
    requires next == AfterHandler(q[1..], q[0], clock, needed)
    ensures HandlerCounted(q, next, now, t)
  {
    var e := q[0];
    if e.timer.kind != Once {
      var again := if e.timer.kind == OnDemand || e.time + e.timer.interval < clock then clock + e.timer.interval
                   else e.time + e.timer.interval;
      var f := e.(time := again);
      InsertCount(q[1..], f, t.id);
      InsertUniform(q[1..], f, t);
      InsertDue(q[1..], f, now, t.id);
      assert [f][1..] == [];
    }
  }

  // ----- when a timer runs again

  /** What a handler leaves: a one-shot timer nothing; any other that is to run again one
      entry, in its place among the others, which stay.  A cyclic timer is due one interval
      after it was due, or, if that has passed, one after the handler ended; the TCP timer
      always one after the handler ended, if it is still needed. */
  lemma AfterHandlerIs(q: seq<Entry>, e: Entry, clock: int, needed: bool) returns (f: Entry, k: nat)
    requires Sorted(q)
    ensures var r := AfterHandler(q, e, clock, needed);
      if e.timer.kind == Once || (e.timer.kind == OnDemand && !needed) then r == q
      else
        && k <= |q| && r == q[..k] + [f] + q[k..] && f.timer == e.timer
        && (forall i :: 0 <= i < k ==> q[i].time <= f.time) && (forall i :: k <= i < |q| ==> f.time < q[i].time)
        && (e.timer.kind == OnDemand ==> f.time - e.timer.interval == clock)
        && (e.timer.kind == Cyclic && clock <= e.time + e.timer.interval ==> f.time - e.timer.interval == e.time)
        && (e.timer.kind == Cyclic && clock > e.time + e.timer.interval ==> f.time - e.timer.interval == clock)
  {
    f, k := e, 0;
    if e.timer.kind != Once && !(e.timer.kind == OnDemand && !needed) {
      var late := e.timer.kind == OnDemand || e.time + e.timer.interval < clock;
      f := e.(time := (if late then clock else e.time) + e.timer.interval);
      k := InsertPlace(q, f);
    }
  }

  /** Timer t has one entry in the list, due at `due`. */
  predicate OnlyAt(q: seq<Entry>, t: Timer, due: int) {
    Count(q, t.id) == 1 && OthersAside(q, t, due)
  }

  predicate OthersAside(q: seq<Entry>, t: Timer, due: int) {
    q == [] || ((q[0].timer.id == t.id ==> q[0] == Entry(due, t)) && OthersAside(q[1..], t, due))
  }

  lemma {:induction false} InsertAside(q: seq<Entry>, e: Entry, t: Timer, due: int)
    requires OthersAside(q, t, due) && (e.timer.id == t.id ==> e == Entry(due, t))
    ensures OthersAside(Insert(q, e), t, due)
  {
    if q == [] || e.time < q[0].time {
      assert ([e] + q)[1..] == q;
    } else {
      InsertAside(q[1..], e, t, due);
      assert ([q[0]] + Insert(q[1..], e))[1..] == Insert(q[1..], e);
    }
  }

  /** A list without the timer, whatever time it is to have. */
  lemma {:induction false} NoneAside(q: seq<Entry>, t: Timer, due: int)
    requires Count(q, t.id) == 0
    ensures OthersAside(q, t, due)
  {
    if q != [] { NoneAside(q[1..], t, due); }
  }

  /** One handler: its own timer, if it is cyclic and the handler ends in time, is due one
      interval later; any other stays. */
  lemma HandlerMoves(q: seq<Entry>, clock: int, needed: bool, t: Timer, due: int)
    requires q != [] && OnlyAt(q, t, due) && t.kind == Cyclic && clock <= due + t.interval
    ensures var next := AfterHandler(q[1..], q[0], clock, needed);
      OnlyAt(next, t, if q[0].timer.id == t.id then due + t.interval else due)
  {
    var e := q[0];
    if e.timer.id == t.id {
      var f := Entry(due + t.interval, t);
      NoneAside(q[1..], t, f.time);
      InsertAside(q[1..], f, t, f.time);
      InsertCount(q[1..], f, t.id);
    } else if e.timer.kind != Once {
      var late := e.timer.kind == OnDemand || e.time + e.timer.interval < clock;
      var f := e.(time := (if late then clock else e.time) + e.timer.interval);
      InsertAside(q[1..], f, t, due);
      InsertCount(q[1..], f, t.id);
    }
  }

  /** Among the entries that ran, those of timer t were due at `due` and then one interval
      apart each. */
  predicate Steps(fired: seq<Entry>, t: Timer, due: int)
    decreases |fired|
  {
    fired == []
    || (if fired[0].timer.id == t.id then fired[0] == Entry(due, t) && Steps(fired[1..], t, due + t.interval)
        else Steps(fired[1..], t, due))
  }

  /** When it is due after they ran. */
  function NextDue(fired: seq<Entry>, t: Timer, due: int): int
    decreases |fired|
  {
    if fired == [] then due
    else NextDue(fired[1..], t, if fired[0].timer.id == t.id then due + t.interval else due)
  }

  lemma {:induction false} StepsConcat(a: seq<Entry>, b: seq<Entry>, t: Timer, due: int)
    requires Steps(a, t, due) && Steps(b, t, NextDue(a, t, due))
    ensures Steps(a + b, t, due) && NextDue(a + b, t, due) == NextDue(b, t, NextDue(a, t, due))
    decreases |a|
  {
    if a == [] {
      assert a + b == b;
    } else {
      assert (a + b)[1..] == a[1..] + b;
      StepsConcat(a[1..], b, t, if a[0].timer.id == t.id then due + t.interval else due);
    }
  }

  /** That is one interval for each run. */
  lemma {:induction false} NextDueIs(fired: seq<Entry>, t: Timer, due: int)
    ensures NextDue(fired, t, due) == due + Count(fired, t.id) * t.interval
    decreases |fired|
  {
    if fired != [] {
      OneMore(Count(fired[1..], t.id), t.interval);
      NextDueIs(fired[1..], t, if fired[0].timer.id == t.id then due + t.interval else due);
    }
  }

  lemma OneMore(n: nat, x: nat)
    ensures (n + 1) * x == n * x + x
  {
  }

  lemma {:induction false} StepsAre(fired: seq<Entry>, t: Timer, due: int, i: nat)
    requires Steps(fired, t, due) && i < |fired| && fired[i].timer.id == t.id
    ensures fired[i] == Entry(due + Count(fired[..i], t.id) * t.interval, t)
    decreases |fired|
  {
    if i > 0 {
      assert fired[..i][1..] == fired[1..][..i - 1] && fired[..i][0] == fired[0];
      if fired[0].timer.id == t.id {
        OneMore(Count(fired[1..][..i - 1], t.id), t.interval);
        StepsAre(fired[1..], t, due + t.interval, i - 1);
      } else {
        StepsAre(fired[1..], t, due, i - 1);
      }
    }
  }

  /** A call that ends before the run after the next is due. */
  lemma {:induction false} CheckSteps(q: seq<Entry>, now: int, clock: int, lags: seq<Lag>, t: Timer, due: int,
                                      r: Outcome)
    requires Sorted(q) && Positive(q) && now <= clock && r == Check(q, now, clock, lags)
    requires OnlyAt(q, t, due) && t.kind == Cyclic && r.clock <= due + t.interval
    ensures Steps(r.fired, t, due) && OnlyAt(r.left, t, NextDue(r.fired, t, due))
    decreases Weight(q, now)
  {
    if q != [] && q[0].time <= now {
      var next, c, rest, s := CheckUnrolled(q, now, clock, lags);
      HandlerMoves(q, c, HeadLag(lags).needed, t, due);
      var mine := q[0].timer.id == t.id;
      HeadAside(q, t, due);
      CheckSteps(next, now, c, rest, t, if mine then due + t.interval else due, s);
      assert ([q[0]] + s.fired)[1..] == s.fired;
    } else {
      CheckDone(q, now, clock, lags);
    }
  }

  lemma HeadAside(q: seq<Entry>, t: Timer, due: int)
    requires q != [] && OnlyAt(q, t, due)
    ensures q[0].timer.id == t.id ==> q[0] == Entry(due, t)
  {
  }

  // ----- many calls

  /** A call of sys_check_timeouts at time `now`. */
  datatype Call = Call(now: int, lags: seq<Lag>)

  function Outcome1(q: seq<Entry>, c: Call): Outcome
    requires Positive(q)
  {
    Check(q, c.now, c.now, c.lags)
  }

  /** The list and the clock before, between and after the calls, and what ran in each. */
  ghost predicate Calls(qs: seq<seq<Entry>>, cs: seq<Call>, rs: seq<Outcome>) {
    && |qs| == |cs| + 1 && |rs| == |cs| && Sorted(qs[0]) && Positive(qs[0])
    && forall i {:trigger cs[i]} :: 0 <= i < |cs| ==>
         Positive(qs[i]) && rs[i] == Outcome1(qs[i], cs[i]) && qs[i + 1] == rs[i].left
  }

  /** Everything that ran in the first `n` calls. */
  function Ran(rs: seq<Outcome>, n: nat): seq<Entry>
    requires n <= |rs|
  {
    if n == 0 then [] else Ran(rs, n - 1) + rs[n - 1].fired
  }

  /** Every call is over before the timer would be due once more than it has to run. */
  ghost predicate OnTime(rs: seq<Outcome>, t: Timer, due: int) {
    forall i {:trigger rs[i]} :: 0 <= i < |rs| ==> rs[i].clock <= NextDue(Ran(rs, i), t, due) + t.interval
  }

  lemma {:induction false} CallsStep(qs: seq<seq<Entry>>, cs: seq<Call>, rs: seq<Outcome>, t: Timer, due: int, n: nat)
    requires Calls(qs, cs, rs) && OnlyAt(qs[0], t, due) && t.kind == Cyclic && OnTime(rs, t, due) && n <= |cs|
    ensures Sorted(qs[n]) && Steps(Ran(rs, n), t, due) && OnlyAt(qs[n], t, NextDue(Ran(rs, n), t, due))
  {
    if n > 0 {
      var i := n - 1;
      CallsStep(qs, cs, rs, t, due, i);
      assert rs[i] == Outcome1(qs[i], cs[i]) && qs[i + 1] == rs[i].left;
      CallSteps(qs[i], cs[i], rs[i], Ran(rs, i), t, due);
    }
  }

  /** One more call, when `ran` ran before. */
  lemma CallSteps(q: seq<Entry>, c: Call, r: Outcome, ran: seq<Entry>, t: Timer, due: int)
    requires Sorted(q) && Positive(q) && r == Outcome1(q, c) && t.kind == Cyclic && Steps(ran, t, due)
    requires OnlyAt(q, t, NextDue(ran, t, due)) && r.clock <= NextDue(ran, t, due) + t.interval
    ensures Sorted(r.left) && Steps(ran + r.fired, t, due) && OnlyAt(r.left, t, NextDue(ran + r.fired, t, due))
  {
    CheckInOrder(q, c.now, c.now, c.lags, r);
    CheckSteps(q, c.now, c.now, c.lags, t, NextDue(ran, t, due), r);
    StepsConcat(ran, r.fired, t, due);
  }

  /** A cyclic timer does not drift: over any number of calls, whatever handlers take, as long
      as the calls end in time, its n-th run is due n intervals after the first. */
  lemma NoDrift(qs: seq<seq<Entry>>, cs: seq<Call>, rs: seq<Outcome>, t: Timer, due: int, i: nat)
    requires Calls(qs, cs, rs) && OnlyAt(qs[0], t, due) && t.kind == Cyclic && OnTime(rs, t, due)
    ensures var ran := Ran(rs, |rs|);
      && OnlyAt(qs[|cs|], t, due + Count(ran, t.id) * t.interval)
      && (i < |ran| && ran[i].timer.id == t.id ==> ran[i] == Entry(due + Count(ran[..i], t.id) * t.interval, t))
  {
    var ran := Ran(rs, |rs|);
    CallsStep(qs, cs, rs, t, due, |cs|);
    NextDueIs(ran, t, due);
    if i < |ran| && ran[i].timer.id == t.id { StepsAre(ran, t, due, i); }
  }

  /** Timers that start again keep their positive intervals. */
  lemma {:induction false} CheckPositive(q: seq<Entry>, now: int, clock: int, lags: seq<Lag>)
    requires Sorted(q) && Positive(q) && now <= clock
    ensures Positive(Check(q, now, clock, lags).left)
    decreases Weight(q, now)
  {
    if q != [] && q[0].time <= now {
      var next, c, rest, t := CheckUnrolled(q, now, clock, lags);
      CheckPositive(next, now, c, rest);
    }
  }
}
