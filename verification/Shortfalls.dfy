/** Where the code falls short: inputs that reach each of the failures that other modules
    state as exact conditions.  Those of the TCP queues lie at states of a run; the runs are
    built event by event. */
module Shortfalls {
  import opened SeqNum
  import R = Reassembly
  import D = Delivery
  import Q = SendQueue
  import U = SendRuns
  import P = PbufChain
  import S = Sack
  import T = SackQueue
  import C = SackComplete

  // ----- the receive path

  /** A queue that held ten bytes loses five of them: a segment arrives that repeats three
      in the middle. */
  lemma LosingRun(peer: seq<Byte>, mss: nat) returns (cs: seq<D.Conn>, evs: seq<D.Event>)
    requires |peer| >= 20
    ensures D.Run(cs, evs, peer) && |evs| == 2
    ensures cs[1].rcv.queue == [R.Seg(10, peer[10..20], false)]
    ensures R.Covers(cs[1].rcv.queue, 15) && !R.Covers(cs[2].rcv.queue, 15)
    ensures evs == [D.Segment(R.Seg(10, peer[10..20], false), true, true, true),
                    D.Segment(R.Seg(12, peer[12..15], false), true, true, true)]
  {
    var long, short := R.Seg(10, peer[10..20], false), R.Seg(12, peer[12..15], false);
    evs := [D.Segment(long, true, true, true), D.Segment(short, true, true, true)];
    var c0 := D.Fresh(mss);
    var c1 := D.Step(c0, evs[0], peer);
    var c2 := D.Step(c1, evs[1], peer);
    cs := [c0, c1, c2];
    assert c1 == c0.(rcv := c0.rcv.(queue := [long]));
    assert R.Before([long], 12) == 1 by { assert [long][1..] == []; }
    assert c2.rcv.queue == [R.CutAt(long, 12), short];
    assert c2.rcv.queue[1..] == [short] && [short][1..] == [];
    assert !R.Covers([short], 15);
    assert D.Next(c0, evs[0], c1, peer) && D.Next(c1, evs[1], c2, peer);
  }

  lemma FirstTold(isn: int, p: int)
    requires 10 <= p < 20
    ensures T.Tells(0, S.Fill([])[0 := T.At(isn, 10, 20)], isn, p)
  {
    S.PrefixIs(S.Fill([]), 0);
    T.OneEntry(0, S.Fill([]), isn, 10, 20);
    T.RunCovers(0, isn, 10, 20, p);
  }

  /** A connection with nothing but the queue `q`. */
  function Waiting(mss: nat, q: seq<R.Seg>): D.Conn {
    D.Fresh(mss).(rcv := R.Rcv(0, D.TCP_WND, q))
  }

  function Arriving(s: R.Seg): D.Event {
    D.Segment(s, true, true, true)
  }

  lemma OneArrives(mss: nat, q: seq<R.Seg>, s: R.Seg, sacks: seq<S.Range>, isn: int, peer: seq<Byte>)
    requires R.From(s, peer) && 0 < s.pos < s.End() <= 100 && !s.fin && |sacks| == S.MAX
    ensures var c, r := Waiting(mss, q), R.Insert(q, s, D.TCP_WND);
      && D.Next(c, Arriving(s), Waiting(mss, r), peer) && T.Legal(c, Arriving(s))
      && T.Step(c, Arriving(s), sacks, isn) == T.Recorded(q, s, r, sacks, isn)
  {
    var c := Waiting(mss, q);
    assert R.TrimFront(s, 0) == s && c.rcv.Edge() == D.TCP_WND;
    assert R.Arrive(c.rcv, s, true) == R.Rcv(0, D.TCP_WND, R.Insert(q, s, D.TCP_WND));
  }

  /** A run in which one more segment is queued. */
  lemma QueueOne(cs: seq<D.Conn>, sacks: seq<seq<S.Range>>, evs: seq<D.Event>, isn: int, peer: seq<Byte>,
                 mss: nat, q: seq<R.Seg>, s: R.Seg)
    returns (ds: seq<D.Conn>, ts: seq<seq<S.Range>>, fs: seq<D.Event>)
    requires T.Run(cs, sacks, evs, isn, peer) && cs[|evs|] == Waiting(mss, q)
    requires R.From(s, peer) && 0 < s.pos < s.End() <= 100 && !s.fin
    ensures T.Run(ds, ts, fs, isn, peer) && fs == evs + [Arriving(s)]
    ensures ds[..|cs|] == cs && ts[..|cs|] == sacks
    ensures ds[|fs|] == Waiting(mss, R.Insert(q, s, D.TCP_WND))
    ensures |sacks[|evs|]| == S.MAX
    ensures ts[|fs|] == T.Recorded(q, s, R.Insert(q, s, D.TCP_WND), sacks[|evs|], isn)
  {
    T.RunTruthful(cs, sacks, evs, isn, peer, |evs|);
    var c, ev := cs[|evs|], Arriving(s);
    OneArrives(mss, q, s, sacks[|evs|], isn, peer);
    ds, ts, fs := cs + [D.Step(c, ev, peer)], sacks + [T.Step(c, ev, sacks[|evs|], isn)], evs + [ev];
    forall i {:trigger fs[i]} | 0 <= i < |fs| ensures D.Next(ds[i], fs[i], ds[i + 1], peer) {
      if i < |evs| { assert evs[i] == fs[i] && ds[i + 1] == cs[i + 1]; }
    }
    assert ds[0] == cs[0] && ts[0] == sacks[0] && D.Run(ds, fs, peer);
    forall i {:trigger fs[i]} | 0 <= i < |fs| ensures T.Next(ds[i], fs[i], ts[i], ts[i + 1], isn) {
      if i < |evs| { assert evs[i] == fs[i]; }
    }
  }

  lemma NothingQueued(isn: int, peer: seq<Byte>, mss: nat)
    ensures T.Run([Waiting(mss, [])], [S.Fill([])], [], isn, peer)
  {
    assert Waiting(mss, []) == D.Fresh(mss);
  }

  /** Twenty bytes in two segments are queued and reported, then three of the first are
      repeated: the bytes of the second are still held but not reported. */
  lemma LosingSacks(peer: seq<Byte>, mss: nat, isn: int)
    returns (cs: seq<D.Conn>, sacks: seq<seq<S.Range>>, evs: seq<D.Event>)
    requires |peer| >= 30
    ensures T.Run(cs, sacks, evs, isn, peer)
    ensures evs == [Arriving(R.Seg(10, peer[10..20], false)), Arriving(R.Seg(20, peer[20..30], false)),
                    Arriving(R.Seg(12, peer[12..15], false))]
    ensures T.Tells(0, sacks[2], isn, 25) && cs[3].rcv.nxt == 0
    ensures R.Covers(cs[3].rcv.queue, 25) && !T.Tells(0, sacks[3], isn, 25)
  {
    var x, y, z := R.Seg(10, peer[10..20], false), R.Seg(20, peer[20..30], false), R.Seg(12, peer[12..15], false);
    NothingQueued(isn, peer, mss);
    cs, sacks, evs := QueueOne([Waiting(mss, [])], [S.Fill([])], [], isn, peer, mss, [], x);
    T.RunTruthful(cs, sacks, evs, isn, peer, 1);
    var one := sacks[1];
    cs, sacks, evs := QueueOne(cs, sacks, evs, isn, peer, mss, [x], y);
    TwoQueued(x, y, one, isn);
    C.NewTold(0, one, isn, 10, 30, 25);
    cs, sacks, evs := QueueOne(cs, sacks, evs, isn, peer, mss, [x, y], z);
    ThirdQueued(x, y, z, T.Adding(one, isn, 10, 30), isn);
    RunReplaced(isn, one);
  }

  lemma TwoQueued(x: R.Seg, y: R.Seg, sacks: seq<S.Range>, isn: int)
    requires x.pos == 10 && |x.data| == 10 && !x.fin && y.pos == 20 && |y.data| == 10 && !y.fin && |sacks| == S.MAX
    ensures R.Insert([x], y, D.TCP_WND) == [x, y]
    ensures T.Recorded([x], y, [x, y], sacks, isn) == T.Adding(sacks, isn, 10, 30)
  {
    assert [x][1..] == [] && R.Before([x], 20) == 1;
    assert [x, y][1..] == [y] && [y][1..] == [];
    assert T.RunEnd(30, []) == 30 && T.RunEnd(20, [y]) == 30;
    assert T.SackBeg([x], y) == T.RunStart([x], 0) == 10;
    assert T.SackEdges([x], y, [x, y]) == T.Edges(10, 30);
    T.RunRange(0, isn, 10, 30);
  }

  lemma ThirdQueued(x: R.Seg, y: R.Seg, z: R.Seg, sacks: seq<S.Range>, isn: int)
    requires x.pos == 10 && |x.data| == 10 && !x.fin && y.pos == 20 && |y.data| == 10 && !y.fin && |sacks| == S.MAX
    requires z.pos == 12 && |z.data| == 3 && !z.fin
    ensures var r := R.Insert([x, y], z, D.TCP_WND);
      R.Covers(r, 25) && T.Recorded([x, y], z, r, sacks, isn) == T.Adding(sacks, isn, 10, 15)
  {
    var r := [R.CutAt(x, 12), z, y];
    assert [x, y][1..] == [y] && [y][1..] == [] && R.Before([x, y], 12) == 1;
    assert R.Overlay(z, [y]) == [z, y];
    assert R.Insert([x, y], z, D.TCP_WND) == [R.CutAt(x, 12)] + [z, y] == r;
    assert r[1..] == [z, y] && [z, y][1..] == [y];
    assert T.RunEnd(15, [y]) == 15 && T.RunEnd(12, [z, y]) == 15;
    assert T.SackBeg([x, y], z) == T.RunStart([x, y], 0) == 10;
    assert T.SackEdges([x, y], z, r) == T.Edges(10, 15);
    T.RunRange(0, isn, 10, 15);
  }

  /** The range 10..30 goes when 10..15 is added. */
  lemma RunReplaced(isn: int, sacks: seq<S.Range>)
    requires T.Orderly(0, sacks, isn)
    ensures !T.Tells(0, T.Adding(T.Adding(sacks, isn, 10, 30), isn, 10, 15), isn, 25)
  {
    var t, x := T.Adding(sacks, isn, 10, 30), T.At(isn, 10, 30);
    T.AddingOrderly(0, sacks, isn, 10, 30);
    T.RunRange(0, isn, 10, 30);
    assert t[0] == x && S.Prefix(t) == [x] + S.Prefix(t[1..]);
    T.RunCovers(0, isn, 10, 30, 25);
    T.OffAt(0, isn, 10);
    T.OffAt(0, isn, 15);
    T.OffAt(0, isn, 30);
    C.MetGoes(0, t, isn, 10, 15, x, 25);
  }

  // Segments of five bytes with a gap of five in front of each.

  function Isle(peer: seq<Byte>, k: nat): R.Seg
    requires |peer| >= 10 * k + 5
  {
    R.Seg(10 * k, peer[10 * k..10 * k + 5], false)
  }

  function Isles(peer: seq<Byte>, a: nat, b: nat): (r: seq<R.Seg>)
    requires a <= b && |peer| >= 10 * b
    ensures |r| == b - a && forall i :: 0 <= i < |r| ==> r[i] == Isle(peer, a + i)
    decreases b - a
  {
    if a == b then [] else [Isle(peer, a)] + Isles(peer, a + 1, b)
  }

  /** The next one goes last, and is reported as a range of its own. */
  lemma {:induction false} IsleLast(peer: seq<Byte>, a: nat, b: nat)
    requires 0 < a < b <= 5 && |peer| >= 10 * b + 10
    ensures var q, s := Isles(peer, a, b), Isle(peer, b);
      && R.Insert(q, s, D.TCP_WND) == Isles(peer, a, b + 1) && R.Before(q, 10 * b) == b - a
    decreases b - a
  {
    var q, s := Isles(peer, a, b), Isle(peer, b);
    assert q[1..] == Isles(peer, a + 1, b);
    if a + 1 == b {
      assert Isles(peer, b, b) == [] && Isles(peer, b, b + 1) == [s];
      assert Isles(peer, a, b + 1) == [q[0], s];
    } else {
      IsleLast(peer, a + 1, b);
    }
  }

  lemma IsleRange(peer: seq<Byte>, b: nat, sacks: seq<S.Range>, isn: int)
    requires 1 < b <= 5 && |peer| >= 10 * b + 10 && |sacks| == S.MAX
    ensures T.Recorded(Isles(peer, 1, b), Isle(peer, b), Isles(peer, 1, b + 1), sacks, isn)
      == T.Adding(sacks, isn, 10 * b, 10 * b + 5)
  {
    IsleEdges(peer, b);
    T.RunRange(0, isn, 10 * b, 10 * b + 5);
  }

  lemma IsleEdges(peer: seq<Byte>, b: nat)
    requires 1 < b <= 5 && |peer| >= 10 * b + 10
    ensures T.SackEdges(Isles(peer, 1, b), Isle(peer, b), Isles(peer, 1, b + 1)) == T.Edges(10 * b, 10 * b + 5)
  {
    var s, r := Isle(peer, b), Isles(peer, 1, b + 1);
    IsleLast(peer, 1, b);
    assert r[b - 1..] == [s] && [s][1..] == [];
    assert T.RunEnd(10 * b + 5, []) == 10 * b + 5;
  }

  /** The ranges of the isles 1..k, newest first. */
  function Ranges(isn: int, k: nat): (r: seq<S.Range>)
    ensures |r| == k
  {
    if k == 0 then [] else [T.At(isn, 10 * k, 10 * k + 5)] + Ranges(isn, k - 1)
  }

  lemma {:induction false} RangesApart(isn: int, k: nat, b: nat)
    requires k < b <= 5
    ensures S.Apart(Ranges(isn, k), Wrap(isn + 10 * b), Wrap(isn + 10 * b + 5)) == Ranges(isn, k)
    ensures forall x :: x in Ranges(isn, k) ==> x.Valid()
  {
    if k > 0 {
      RangesApart(isn, k - 1, b);
      assert Ranges(isn, k)[1..] == Ranges(isn, k - 1);
      WrappedOrder(isn + 10 * k + 5, isn + 10 * b);
      WrappedOrder(isn + 10 * k, isn + 10 * k + 5);
    }
  }

  /** Up to four ranges are kept. */
  lemma RangeAdded(sacks: seq<S.Range>, isn: int, k: nat)
    requires 0 < k <= 4 && |sacks| == S.MAX && S.Prefix(sacks) == Ranges(isn, k - 1)
    ensures S.Prefix(T.Adding(sacks, isn, 10 * k, 10 * k + 5)) == Ranges(isn, k)
  {
    RangesApart(isn, k - 1, k);
    RangesApart(isn, k, k + 1);
    var t := T.Adding(sacks, isn, 10 * k, 10 * k + 5);
    assert t == S.Fill(Ranges(isn, k));
    S.PrefixIs(t, k);
    assert t[..k] == Ranges(isn, k);
  }

  /** Isles arrive one after the other. */
  lemma {:induction false} IslesArrive(peer: seq<Byte>, mss: nat, isn: int, k: nat)
    returns (cs: seq<D.Conn>, sacks: seq<seq<S.Range>>, evs: seq<D.Event>)
    requires 0 < k <= 4 && |peer| >= 60
    ensures T.Run(cs, sacks, evs, isn, peer) && |evs| == k && cs[k] == Waiting(mss, Isles(peer, 1, k + 1))
    ensures S.Prefix(sacks[k]) == Ranges(isn, k)
  {
    if k == 1 {
      NothingQueued(isn, peer, mss);
      cs, sacks, evs := QueueOne([Waiting(mss, [])], [S.Fill([])], [], isn, peer, mss, [], Isle(peer, 1));
      S.PrefixIs(S.Fill([]), 0);
      T.OneEntry(0, S.Fill([]), isn, 10, 15);
      assert Isles(peer, 2, 2) == [] && Ranges(isn, 0) == [];
    } else {
      cs, sacks, evs := IslesArrive(peer, mss, isn, k - 1);
      cs, sacks, evs := IsleArrives(peer, mss, isn, k, cs, sacks, evs);
    }
  }

  /** ... one more, with up to four in all. */
  lemma IsleArrives(peer: seq<Byte>, mss: nat, isn: int, k: nat, cs: seq<D.Conn>, sacks: seq<seq<S.Range>>,
                    evs: seq<D.Event>)
    returns (ds: seq<D.Conn>, ts: seq<seq<S.Range>>, fs: seq<D.Event>)
    requires 1 < k <= 4 && |peer| >= 60 && T.Run(cs, sacks, evs, isn, peer) && |evs| == k - 1
    requires cs[k - 1] == Waiting(mss, Isles(peer, 1, k)) && S.Prefix(sacks[k - 1]) == Ranges(isn, k - 1)
    ensures T.Run(ds, ts, fs, isn, peer) && |fs| == k && ds[k] == Waiting(mss, Isles(peer, 1, k + 1))
    ensures S.Prefix(ts[k]) == Ranges(isn, k)
  {
    var t := sacks[k - 1];
    ds, ts, fs := QueueOne(cs, sacks, evs, isn, peer, mss, Isles(peer, 1, k), Isle(peer, k));
    IsleLast(peer, 1, k);
    IsleTold(peer, isn, k, t);
  }

  lemma IsleTold(peer: seq<Byte>, isn: int, k: nat, t: seq<S.Range>)
    requires 1 < k <= 4 && |peer| >= 60 && |t| == S.MAX && S.Prefix(t) == Ranges(isn, k - 1)
    ensures S.Prefix(T.Recorded(Isles(peer, 1, k), Isle(peer, k), Isles(peer, 1, k + 1), t, isn)) == Ranges(isn, k)
  {
    RangeAdded(t, isn, k);
    IsleRange(peer, k, t, isn);
  }

  /** A fifth range does not fit: the first is still held but not reported. */
  lemma FifthRange(peer: seq<Byte>, mss: nat, isn: int)
    returns (cs: seq<D.Conn>, sacks: seq<seq<S.Range>>, evs: seq<D.Event>)
    requires |peer| >= 60
    ensures T.Run(cs, sacks, evs, isn, peer) && |evs| == 5 && cs[5].rcv.nxt == 0
    ensures T.Tells(0, sacks[4], isn, 10)
    ensures R.Covers(cs[5].rcv.queue, 10) && !T.Tells(0, sacks[5], isn, 10)
  {
    cs, sacks, evs := IslesArrive(peer, mss, isn, 4);
    T.RunTruthful(cs, sacks, evs, isn, peer, 4);
    OldestOfFour(isn, sacks[4]);
    IsleLast(peer, 1, 5);
    IsleRange(peer, 5, sacks[4], isn);
    cs, sacks, evs := QueueOne(cs, sacks, evs, isn, peer, mss, Isles(peer, 1, 5), Isle(peer, 5));
    assert R.In(Isles(peer, 1, 6)[0], 10);
  }

  lemma OldestOfFour(isn: int, sacks: seq<S.Range>)
    requires T.Orderly(0, sacks, isn) && S.Prefix(sacks) == Ranges(isn, 4)
    ensures T.Tells(0, sacks, isn, 10) && !T.Tells(0, T.Adding(sacks, isn, 50, 55), isn, 10)
  {
    RangesApart(isn, 4, 5);
    var x, p := C.OldestGoes(0, sacks, isn, 50, 55);
    FirstOfFour(isn);
    T.OffAt(0, isn, 10);
    C.HasTells(0, sacks, isn, x, p);
  }

  lemma FirstOfFour(isn: int)
    ensures Ranges(isn, 4)[3] == T.At(isn, 10, 15)
  {
    assert Ranges(isn, 4)[3] == Ranges(isn, 3)[2] == Ranges(isn, 2)[1] == Ranges(isn, 1)[0];
  }

  /** A segment that cannot be copied is reported although the queue is empty. */
  lemma FalseSack(peer: seq<Byte>, mss: nat, isn: int) returns (c: D.Conn, sacks: seq<S.Range>)
    requires |peer| >= 20
    ensures var ev := D.Segment(R.Seg(10, peer[10..20], false), false, true, true);
      && c == D.Step(D.Fresh(mss), ev, peer) && D.Legal(D.Fresh(mss), ev, peer)
      && sacks == T.Step(D.Fresh(mss), ev, S.Fill([]), isn)
    ensures c.rcv.queue == [] && T.Tells(c.rcv.nxt, sacks, isn, 15)
  {
    var ev, s0 := D.Segment(R.Seg(10, peer[10..20], false), false, true, true), S.Fill([]);
    c, sacks := D.Step(D.Fresh(mss), ev, peer), T.Step(D.Fresh(mss), ev, s0, isn);
    assert sacks == s0[0 := T.At(isn, 10, 20)];
    FirstTold(isn, 15);
  }

  /** The first segment stored is kept beyond the right edge of the window. */
  lemma StoredBeyondWindow(peer: seq<Byte>)
    requires |peer| > D.TCP_WND
    ensures var st := D.Fresh(536).rcv; var s := R.Seg(1, peer[1..D.TCP_WND + 1], false);
      && R.Inv(st, peer) && R.From(s, peer) && |s.data| < 0x1_0000
      && !R.Within(R.Arrive(st, s, true).queue, st.Edge())
  {
    var st, s := D.Fresh(536).rcv, R.Seg(1, peer[1..D.TCP_WND + 1], false);
    assert R.Arrive(st, s, true).queue == [s];
  }

  // ----- the send queues

  const COPIED: Q.WriteArgs := Q.WriteArgs(true, false, false, true)

  /** A write with nothing unsent that fits into one segment. */
  lemma WriteOne(st: Q.Snd, d: seq<Byte>)
    requires st.unsent == [] && st.oversize == 0 && st.queuelen <= 9 && 0 < |d| <= st.MssLocal() && |d| <= st.sndBuf
    ensures Q.SpareFits(st) && Q.WriteSucceeds(st, d, COPIED, 2)
    ensures var w := Q.Written(st, d, COPIED);
      w == st.(unsent := [Q.Seg(st.lbb, d, false, false, [|d|])], lbb := st.lbb + |d|, sndBuf := st.sndBuf - |d|,
               queuelen := st.queuelen + 1, oversize := w.oversize, written := st.written + d)
  {
    var max := st.MssLocal();
    assert d[0..] == d && d[..|d|] == d && d[|d|..] == [];
    assert Q.Chunk([], st.lbb + |d|, max, true) == [];
    var s := Q.Seg(st.lbb, d, false, false, [|d|]);
    assert Q.Chunk(d, st.lbb, max, true) == [s] + [] == [s];
    assert Q.NewSegs(st, d, COPIED) == [s];
    assert [s][1..] == [] && Q.BufCount([s]) == 1;
  }

  /** The only unsent segment is sent. */
  lemma SendOne(st: Q.Snd, s: Q.Seg, wnd: int)
    requires st.unsent == [s] && s.pos < s.Tail() && Q.HeadFits(st, wnd)
    requires st.unacked != [] ==> st.unacked[|st.unacked| - 1].pos <= s.pos
    ensures Q.Output(st, wnd, [true]) ==
      st.(unsent := [], unacked := st.unacked + [s], nxt := Max(st.nxt, s.Tail()), oversize := 0)
  {
    assert [s][1..] == [] && [true][1..] == [];
    assert Q.Sending(Q.HeadSent(st), wnd, []) == Q.HeadSent(st);
  }

  lemma Extend(sts: seq<Q.Snd>, evs: seq<U.Event>, ev: U.Event)
    requires U.Run(sts, evs) && U.Legal(sts[|evs|], ev)
    ensures U.Run(sts + [U.Step(sts[|evs|], ev)], evs + [ev])
  {
    var ts, fs := sts + [U.Step(sts[|evs|], ev)], evs + [ev];
    forall i {:trigger fs[i]} | 0 <= i < |fs| ensures U.Next(ts[i], fs[i], ts[i + 1]) {
      if i < |evs| { assert evs[i] == fs[i]; }
    }
  }

  /** The state of a run in which nothing is left to send. */
  predicate Quiet(st: Q.Snd) {
    && st.unsent == [] && st.oversize == 0 && st.MssLocal() == 100 && !st.finFlag && st.queuelen <= 9
    && st.nxt == st.lbb <= 500 && 0 <= st.lastack && 100 <= st.sndBuf
    && (st.unacked != [] ==> st.unacked[|st.unacked| - 1].pos <= st.lbb)
  }

  lemma WriteOnly(sts: seq<Q.Snd>, evs: seq<U.Event>, d: seq<Byte>) returns (ts: seq<Q.Snd>, fs: seq<U.Event>)
    requires U.Run(sts, evs) && Quiet(sts[|evs|]) && 0 < |d| <= 100
    ensures fs == evs + [U.Write(d, COPIED, 2)] && U.Run(ts, fs) && ts[0] == sts[0]
    ensures var st, e := sts[|evs|], ts[|fs|];
      e == st.(unsent := [Q.Seg(st.lbb, d, false, false, [|d|])], lbb := st.lbb + |d|, sndBuf := st.sndBuf - |d|,
               queuelen := st.queuelen + 1, oversize := e.oversize, written := st.written + d)
  {
    var st, w := sts[|evs|], U.Write(d, COPIED, 2);
    WriteOne(st, d);
    Extend(sts, evs, w);
    ts, fs := sts + [U.Step(st, w)], evs + [w];
  }

  /** Bytes that fit into one segment are written and sent. */
  lemma WriteAndSend(sts: seq<Q.Snd>, evs: seq<U.Event>, d: seq<Byte>) returns (ts: seq<Q.Snd>, fs: seq<U.Event>)
    requires U.Run(sts, evs) && Quiet(sts[|evs|]) && 0 < |d| <= 100
    ensures fs == evs + [U.Write(d, COPIED, 2), U.Send(1000, [true])] && U.Run(ts, fs)
    ensures var st, e := sts[|evs|], ts[|fs|];
      e == st.(unacked := st.unacked + [Q.Seg(st.lbb, d, false, false, [|d|])],
               lbb := st.lbb + |d|, nxt := st.lbb + |d|,
               sndBuf := st.sndBuf - |d|, queuelen := st.queuelen + 1, written := st.written + d)
  {
    var o := U.Send(1000, [true]);
    ts, fs := WriteOnly(sts, evs, d);
    var s1 := ts[|fs|];
    SendOne(s1, s1.unsent[0], 1000);
    Extend(ts, fs, o);
    ts, fs := ts + [U.Step(s1, o)], fs + [o];
  }

  lemma FreshRun()
    ensures U.Run([U.Fresh(100, 1000)], []) && Quiet(U.Fresh(100, 1000))
  {
  }

  /** Two bytes, each written and sent on its own. */
  lemma TwoBytesSent(x: Byte, y: Byte) returns (sts: seq<Q.Snd>, evs: seq<U.Event>)
    ensures U.Run(sts, evs) && |evs| == 4
    ensures sts[4].unsent == [] && !sts[4].finFlag && !sts[4].piggy && sts[4].MssLocal() == 100
    ensures sts[4].lbb == 2 && sts[4].oversize == 0
    ensures sts[4].unacked == [Q.Seg(0, [x], false, false, [1]), Q.Seg(1, [y], false, false, [1])]
  {
    FreshRun();
    sts, evs := WriteAndSend([U.Fresh(100, 1000)], [], [x]);
    sts, evs := WriteAndSend(sts, evs, [y]);
  }

  /** ... and then a fast retransmit whose segment waits to be sent. */
  lemma Retransmitting(x: Byte, y: Byte) returns (sts: seq<Q.Snd>, evs: seq<U.Event>)
    ensures U.Run(sts, evs) && |evs| == 5
    ensures var st := sts[5];
      && st.unsent == [Q.Seg(0, [x], false, false, [1])] && st.unacked == [Q.Seg(1, [y], false, false, [1])]
      && st.lbb == 2 && !st.finFlag && !st.piggy && st.MssLocal() == 100 && st.oversize == 0
  {
    sts, evs := TwoBytesSent(x, y);
    Extend(sts, evs, U.FastRetransmit);
    var st := sts[4];
    assert Q.LinksLast([], st.unacked[0]);
    sts, evs := sts + [U.Step(st, U.FastRetransmit)], evs + [U.FastRetransmit];
  }

  /** A write then appends to the first of two segments, a FIN goes on it, and a time-out
      queues the second in front of the first. */
  lemma BrokenByRexmit(x: Byte, y: Byte, z: Byte) returns (sts: seq<Q.Snd>, evs: seq<U.Event>)
    ensures U.Run(sts, evs) && |evs| == 5 && Q.SpareFits(sts[5]) && Q.WriteSucceeds(sts[5], [z], COPIED, 2)
    ensures !U.Sound(Q.Written(sts[5], [z], COPIED)) && !U.Sound(Q.Requeue(sts[5])) && !U.Sound(Q.FinSent(sts[5]))
  {
    sts, evs := Retransmitting(x, y);
    U.RunKeeps(sts, evs, 5);
    GrowsByOne(sts[5], [z]);
    U.SoundMeans(sts[5]);
    U.WriteKeepsIff(sts[5], [z], COPIED);
    U.RequeueKeepsIff(sts[5]);
    U.FinKeepsIff(sts[5]);
  }

  lemma GrowsByOne(st: Q.Snd, d: seq<Byte>)
    requires Q.SpareFits(st) && st.unsent != [] && st.oversize == 0 && |d| == 1 && 0 < |Q.Last(st).data| < st.MssLocal()
    ensures Q.Fill(st, 1) == 1 && Q.Allocations(st, d, COPIED) == 1 && Q.NewSegs(st, d, COPIED) == []
  {
    assert Q.Used(st, 1) == 0 && Q.Chained(st, 1) == 1 && d[1..] == [];
    assert Q.Chunk(d[1..], st.lbb + 1, st.MssLocal(), true) == [];
    assert Q.NewSegs(st, d, COPIED) == [];
    assert Q.BufCount([]) == 0;
  }

  /** A hundred bytes are sent, queued again by a time-out and acknowledged in part, and the
      window shrinks to 30: what is left does not fit, and the head that the split makes is
      acknowledged already. */
  lemma SplitAcknowledged(d: seq<Byte>) returns (sts: seq<Q.Snd>, evs: seq<U.Event>)
    requires |d| == 100
    ensures U.Run(sts, evs) && |evs| == 5 && evs[4] == U.Window(30)
    ensures sts[5].unsent == [Q.Seg(0, d, false, false, [100])] && sts[5].unacked == [] && sts[5].lastack == 60
    ensures !Q.HeadFits(sts[5], 30) && !U.Sound(Q.Split(sts[5], 30))
  {
    FreshRun();
    sts, evs := WriteAndSend([U.Fresh(100, 1000)], [], d);
    Extend(sts, evs, U.Timeout);
    sts, evs := sts + [U.Step(sts[2], U.Timeout)], evs + [U.Timeout];
    Extend(sts, evs, U.Ack(60));
    sts, evs := sts + [U.Step(sts[3], U.Ack(60))], evs + [U.Ack(60)];
    OneFits(sts[4], 30);
    Extend(sts, evs, U.Window(30));
    sts, evs := sts + [U.Step(sts[4], U.Window(30))], evs + [U.Window(30)];
    U.RunKeeps(sts, evs, 5);
    U.SplitKeepsIff(sts[5], 30);
  }

  lemma OneFits(st: Q.Snd, wnd: int)
    requires st.unacked == [] && |st.unsent| == 1 && |st.unsent[0].data| + st.oversize <= st.MssLocal()
    requires 0 <= wnd <= st.wndMax && 0 <= st.oversize
    ensures Q.Widened(st, wnd) == st && U.Legal(st, U.Window(wnd))
  {
    assert st.unsent[1..] == [] && Q.AllFit([], st.MssLocal());
    assert Q.AllFit(st.unsent, st.MssLocal()) && Q.Last(st) == st.unsent[0];
  }

  /** A hundred bytes are written, the peer's window is closed, a probe sends one byte and
      the peer takes it. */
  lemma ProbeTaken(d: seq<Byte>) returns (sts: seq<Q.Snd>, evs: seq<U.Event>)
    requires |d| == 100
    ensures U.Run(sts, evs) && evs == [U.Write(d, COPIED, 2), U.Probe, U.Ack(1)]
    ensures var st := sts[3];
      && st.unsent == [Q.Seg(0, d, false, false, [100])] && st.unacked == [] && st.lastack == 1 && st.nxt == 1
      && st.MssLocal() == 100 && st.wndMax == 1000 && 0 <= st.oversize && 100 + st.oversize <= 100
  {
    FreshRun();
    sts, evs := WriteOnly([U.Fresh(100, 1000)], [], d);
    Extend(sts, evs, U.Probe);
    sts, evs := sts + [U.Step(sts[1], U.Probe)], evs + [U.Probe];
    Extend(sts, evs, U.Ack(1));
    sts, evs := sts + [U.Step(sts[2], U.Ack(1))], evs + [U.Ack(1)];
    U.RunKeeps(sts, evs, 3);
  }

  /** The same without a retransmission: when a probe was taken, the window opens by one. */
  lemma SplitProbed(d: seq<Byte>) returns (sts: seq<Q.Snd>, evs: seq<U.Event>)
    requires |d| == 100
    ensures U.Run(sts, evs) && evs == [U.Write(d, COPIED, 2), U.Probe, U.Ack(1), U.Window(1)]
    ensures sts[4].unsent == [Q.Seg(0, d, false, false, [100])] && sts[4].unacked == [] && sts[4].lastack == 1
    ensures !Q.HeadFits(sts[4], 1) && !U.Sound(Q.Split(sts[4], 1))
  {
    sts, evs := ProbeTaken(d);
    OneFits(sts[3], 1);
    Extend(sts, evs, U.Window(1));
    sts, evs := sts + [U.Step(sts[3], U.Window(1))], evs + [U.Window(1)];
    U.RunKeeps(sts, evs, 4);
    U.SplitKeepsIff(sts[4], 1);
  }

  /** The peer's first window is 0: a whole mss is queued as one segment.  With a window of
      100 the largest segment is half of that, and the one queued is too long. */
  lemma MssShrinks(d: seq<Byte>) returns (sts: seq<Q.Snd>, evs: seq<U.Event>)
    requires |d| == 80
    ensures U.Run(sts, evs) && sts[0] == U.Fresh(100, 0) && evs == [U.Write(d, COPIED, 2)]
    ensures sts[1].unsent == [Q.Seg(0, d, false, false, [80])] && Q.Widened(sts[1], 100).MssLocal() == 50
    ensures !U.Sound(Q.Widened(sts[1], 100))
  {
    assert U.Run([U.Fresh(100, 0)], []) && Quiet(U.Fresh(100, 0));
    sts, evs := WriteOnly([U.Fresh(100, 0)], [], d);
    U.RunKeeps(sts, evs, 1);
    U.WidenSoundIff(sts[1], 100);
  }

  /** The FIN is put on the only unsent segment. */
  lemma FinOnOne(st: Q.Snd, s: Q.Seg)
    requires st.unsent == [s] && !s.syn && !s.fin
    ensures Q.FinSent(st) == st.(unsent := [s.(fin := true)], piggy := true, finFlag := true)
  {
    assert [s][..0] + [s.(fin := true)] == [s.(fin := true)];
  }

  /** A hundred bytes are written and the FIN is put on them. */
  lemma FinPiggybacked(d: seq<Byte>) returns (sts: seq<Q.Snd>, evs: seq<U.Event>)
    requires |d| == 100
    ensures U.Run(sts, evs) && |evs| == 2
    ensures sts[2].unsent == [Q.Seg(0, d, false, true, [100])]
  {
    FreshRun();
    sts, evs := WriteOnly([U.Fresh(100, 1000)], [], d);
    FinOnOne(sts[1], sts[1].unsent[0]);
    Extend(sts, evs, U.SendFin);
    sts, evs := sts + [U.Step(sts[1], U.SendFin)], evs + [U.SendFin];
  }

  /** A split of such a segment leaves the FIN on both halves. */
  lemma SplitFin(d: seq<Byte>) returns (sts: seq<Q.Snd>, evs: seq<U.Event>)
    requires |d| == 100
    ensures U.Run(sts, evs) && |evs| == 2 && sts[2].unsent == [Q.Seg(0, d, false, true, [100])]
    ensures Q.Split(sts[2], 50).unsent[0].fin && Q.Split(sts[2], 50).unsent[1].fin
    ensures !U.Sound(Q.Split(sts[2], 50))
  {
    sts, evs := FinPiggybacked(d);
    U.RunKeeps(sts, evs, 2);
    U.SplitKeepsIff(sts[2], 50);
  }

  // ----- chains of buffers

  /** 256 pbufs are released, and none are counted. */
  lemma FreeCountsNone(refs: seq<int>)
    requires |refs| == 256 && forall i :: 0 <= i < 256 ==> refs[i] == 1
    ensures P.Leading(refs) == 256 && P.Leading(refs) % 0x100 == 0
  {
    P.LeadingIs(refs, 256);
  }

  /** Nothing can be written at the end of a chain. */
  method NothingAtEnd(buf: P.Pbuf?, ghost c: seq<P.Pbuf>, ghost at: seq<int>, ghost f: P.Bytes, n: nat)
    returns (ok: bool)
    requires P.Linked(c) && P.Holds(c, at, f) && P.Totals(c, at, f) && buf == P.At(c, 0) && n == |f| < 0x1_0000
    modifies P.Arrays(c)
    ensures !ok && P.Holds(c, at, f)
  {
    ok := P.TakeAt(buf, [], n, c, at, f);
  }

  /** Five bytes are not copied into a chain of nine that ends in an empty pbuf. */
  lemma NotCopied()
    ensures P.Outcome([0, 5], [0, 9, 9], 0, 0) == P.Val
  {
  }
}
