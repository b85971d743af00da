/** What every operation on the send queues does. */
module SendSteps {
  import opened SeqNum
  import opened SendQueue
  import opened SendRuns

  // ----- the largest segment

  /** The local MSS is the MSS, or half the peer's largest window if that is less and not 0. */
  lemma MssIs(st: Snd)
    requires 0 < st.mss < 0x1_0000 && 0 <= st.wndMax
    ensures 0 < st.MssLocal() <= st.mss
    ensures 2 <= st.wndMax ==> 2 * st.MssLocal() <= st.wndMax
    ensures st.MssLocal() == st.mss || (2 <= st.wndMax && st.wndMax < 2 * (st.MssLocal() + 1))
    ensures st.wndMax < 2 ==> st.MssLocal() == st.mss
  {
  }

  // ----- tcp_write

  /** How many of `n` bytes the last unsent segment still takes: it must hold data. */
  function Fitting(st: Snd, n: nat): (r: int) {
    if st.unsent != [] && Last(st).data != [] then Min(st.MssLocal() - |Last(st).data|, n) else 0
  }

  /** How many segments the others need. */
  function Needed(st: Snd, n: nat): (k: int)
    requires 0 < st.MssLocal()
  {
    (n - Fitting(st, n) + st.MssLocal() - 1) / st.MssLocal()
  }

  /** Does the last unsent segment need one more pbuf: not for what its spare room takes, and
      not if the bytes lie behind those of its last pbuf. */
  function Chains(st: Snd, n: nat, a: WriteArgs): (c: nat) {
    if Fitting(st, n) <= st.oversize || (!a.copy && a.contiguous && st.oversize == 0) then 0 else 1
  }

  /** A copied segment lies in one pbuf, a referenced one in two: header and data. */
  function PerSegment(a: WriteArgs): nat {
    if a.copy then 1 else 2
  }

  lemma FillIsFitting(st: Snd, n: nat, a: WriteArgs)
    requires SpareFits(st)
    ensures Fill(st, n) == Fitting(st, n)
    ensures (Chained(st, n) > 0 && !Extends(st, n, a)) <==> Chains(st, n, a) == 1
  {
  }

  lemma Rounds(n: nat, m: nat)
    requires 0 < m
    ensures n <= m ==> (n + m - 1) / m == if n == 0 then 0 else 1
    ensures m <= n ==> (n + m - 1) / m == 1 + (n - m + m - 1) / m
  {
    if m <= n { DivStep(n - 1, m); }
    if n == 0 {
      Quotient(m - 1, m, 0, m - 1);
    } else if n <= m {
      Quotient(n + m - 1, m, 1, n - 1);
    }
  }

  lemma DivStep(x: nat, m: nat)
    requires 0 < m
    ensures (m + x) / m == 1 + x / m
  {
    var k := x / m;
    assert x == m * k + x % m;
    assert m + x == m * (k + 1) + x % m by { assert m * (k + 1) == m * k + m; }
    Quotient(m + x, m, k + 1, x % m);
  }

  lemma Quotient(y: nat, m: nat, k: nat, r: nat)
    requires 0 < m && y == m * k + r && r < m
    ensures y / m == k
  {
    var l := y / m;
    assert y == m * l + y % m;
    if l < k { Farther(m, l, k); }
    if k < l { Farther(m, k, l); }
  }

  lemma {:induction false} Farther(m: nat, k: nat, l: nat)
    requires k < l
    ensures m * k + m <= m * l
  {
    if k + 1 < l { Farther(m, k, l - 1); }
    Distribute(m, l - 1);
  }

  lemma Distribute(m: nat, l: nat)
    ensures m * (l + 1) == m * l + m
  {
  }

  /** The new segments: as few as can be, all full but the last. */
  lemma {:induction false} ChunkIs(d: seq<Byte>, pos: int, max: nat, copy: bool)
    requires 0 < max
    ensures var q := Chunk(d, pos, max, copy);
      && |q| == (|d| + max - 1) / max
      && (forall j :: 0 <= j < |q| - 1 ==> |q[j].data| == max)
      && (forall j :: 0 <= j < |q| ==>
            !q[j].syn && !q[j].fin && q[j].bufs == if copy then [|q[j].data|] else [0, |q[j].data|])
      && BufCount(q) == |q| * (if copy then 1 else 2)
    decreases |d|
  {
    Rounds(|d|, max);
    if d != [] {
      var m := Min(|d|, max);
      var q := ChunkFirst(d, pos, m, max, copy);
      ChunkIs(d[m..], pos + m, max, copy);
      var s := Seg(pos, d[..m], false, false, if copy then [m] else [0, m]);
      Cons(s, q, pos, max, false);
    }
  }

  /** A write goes through exactly if the send buffer, the queue and the memory bear it. */
  lemma WriteSucceedsIff(st: Snd, d: seq<Byte>, a: WriteArgs, budget: nat)
    requires SpareFits(st) && d != []
    ensures WriteSucceeds(st, d, a, budget) <==>
      var k, c := Needed(st, |d|), Chains(st, |d|, a);
      && |d| <= st.sndBuf && st.queuelen < SND_QUEUELEN
      && c + k * PerSegment(a) + k <= budget
      && (0 < k ==> st.queuelen + c + k * PerSegment(a) <= SND_QUEUELEN)
  {
    NewSegsAre(st, d, a);
  }

  /** How the bytes are cut: what fits goes into the last unsent segment, the others into as
      few new segments as can be, all full but the last. */
  lemma NewSegsAre(st: Snd, d: seq<Byte>, a: WriteArgs)
    requires SpareFits(st)
    ensures var q := NewSegs(st, d, a);
      && |q| == Needed(st, |d|) && BufCount(q) == |q| * PerSegment(a)
      && NewBufs(st, d, a) == |q| * PerSegment(a) + Chains(st, |d|, a)
      && (forall j :: 0 <= j < |q| - 1 ==> |q[j].data| == st.MssLocal())
      && (forall j :: 0 <= j < |q| ==>
            !q[j].syn && !q[j].fin && q[j].bufs == if a.copy then [|q[j].data|] else [0, |q[j].data|])
  {
    var f := Fill(st, |d|);
    FillIsFitting(st, |d|, a);
    ChunkIs(d[f..], st.lbb + f, st.MssLocal(), a.copy);
  }

  /** What a write makes of the unsent queue; with WriteKeeps, which says that it holds the
      bytes, in place. */
  lemma WriteMakes(st: Snd, d: seq<Byte>, a: WriteArgs)
    requires SpareFits(st)
    ensures var w := Written(st, d, a); var n, f, k := |st.unsent|, Fitting(st, |d|), Needed(st, |d|);
      && |w.unsent| == n + k
      && (forall j :: 0 <= j < n - 1 ==> w.unsent[j] == st.unsent[j])
      && (0 < n ==> w.unsent[n - 1] == Last(st).(data := Last(st).data + d[..f], bufs := w.unsent[n - 1].bufs))
      && (forall j :: n <= j < n + k - 1 ==> |w.unsent[j].data| == st.MssLocal())
      && (forall j :: n <= j < n + k ==>
            && !w.unsent[j].syn && !w.unsent[j].fin
            && w.unsent[j].bufs == if a.copy then [|w.unsent[j].data|] else [0, |w.unsent[j].data|])
      && w.queuelen == st.queuelen + k * PerSegment(a) + Chains(st, |d|, a)
      && w.lbb == st.lbb + |d| && w.sndBuf == st.sndBuf - |d| && w.written == st.written + d
      && w == st.(unsent := w.unsent, lbb := w.lbb, sndBuf := w.sndBuf, queuelen := w.queuelen,
                  oversize := w.oversize, written := w.written)
  {
    NewSegsAre(st, d, a);
    FillIsFitting(st, |d|, a);
    if st.unsent != [] { var init, g := NewUnsentShape(st, d, a); }
  }

  /** The pbufs of the last unsent segment: the spare room of the last one is used first, and
      what is more lies in one pbuf behind it, or in the last one if the bytes follow those. */
  lemma WriteFillsPbufs(st: Snd, d: seq<Byte>, a: WriteArgs)
    requires SpareFits(st) && st.unsent != [] && Last(st).bufs != []
    ensures var b, g := Last(st).bufs, Written(st, d, a).unsent[|st.unsent| - 1].bufs;
      var c, f, n := Chains(st, |d|, a), Fitting(st, |d|), |Last(st).bufs|;
      && |g| == n + c && (forall j :: 0 <= j < n - 1 ==> g[j] == b[j])
      && g[n - 1] == b[n - 1] + (if c == 0 then f else st.oversize)
      && (c == 1 ==> g[n] == f - st.oversize)
  {
    FillIsFitting(st, |d|, a);
    NewSegsAre(st, d, a);
    var init, g := NewUnsentShape(st, d, a);
    GrownPbufs(Last(st), d[..Fill(st, |d|)], Used(st, |d|), Chained(st, |d|), Extends(st, |d|, a));
  }

  lemma GrownPbufs(s: Seg, d: seq<Byte>, used: nat, chained: nat, extend: bool)
    requires s.bufs != [] && (chained > 0 && extend ==> used == 0)
    ensures var b, g := s.bufs, Grown(s, d, used, chained, extend).bufs;
      && |g| == |b| + (if chained > 0 && !extend then 1 else 0)
      && (forall j :: 0 <= j < |b| - 1 ==> g[j] == b[j])
      && g[|b| - 1] == b[|b| - 1] + used + (if extend then chained else 0)
      && (chained > 0 && !extend ==> g[|b|] == chained)
  {
  }

  /** Is more to come before the last segment goes out: the caller says so, or Nagle's
      algorithm holds it back. */
  predicate Awaits(st: Snd, n: nat, a: WriteArgs)
    requires 0 < st.MssLocal()
  {
    a.more || (!a.nodelay && (1 < Needed(st, n) || st.unsent != [] || st.unacked != []))
  }

  /** The spare room behind a write: behind a new pbuf as much as TCP_OVERSIZE and the segment
      bear if more is to come; else what is left of the old. */
  lemma WriteSpares(st: Snd, d: seq<Byte>, a: WriteArgs)
    requires SpareFits(st) && d != []
    ensures var w, n := Written(st, d, a), |d|;
      && w.unsent != []
      && w.oversize ==
           if a.copy && (0 < Needed(st, n) || Chains(st, n, a) == 1) then
             if Awaits(st, n, a) then Min(st.MssLocal() - |Last(w).data|, TCP_OVERSIZE) else 0
           else Max(st.oversize - Fitting(st, n), 0)
  {
    NewSegsAre(st, d, a);
    LastOfNewUnsent(st, d, a);
    if a.copy && 0 < Needed(st, |d|) {
      SparesNew(st, d, a);
    } else {
      SparesOld(st, d, a);
    }
  }

  /** Behind a new segment. */
  lemma SparesNew(st: Snd, d: seq<Byte>, a: WriteArgs)
    requires SpareFits(st) && a.copy && NewSegs(st, d, a) != [] && |NewSegs(st, d, a)| == Needed(st, |d|)
    ensures var segs := NewSegs(st, d, a); var l := |segs[|segs| - 1].data|;
      NewOversize(st, d, a) == Spare(l, st.MssLocal(), Awaits(st, |d|, a))
  {
  }

  /** Behind the last unsent segment, which took all the bytes, or behind referenced ones. */
  lemma SparesOld(st: Snd, d: seq<Byte>, a: WriteArgs)
    requires SpareFits(st) && d != [] && |NewSegs(st, d, a)| == Needed(st, |d|)
    requires !(a.copy && NewSegs(st, d, a) != [])
    ensures var w, n := Written(st, d, a), |d|;
      w.oversize ==
        if a.copy && Chains(st, n, a) == 1 then
          if Awaits(st, n, a) then Min(st.MssLocal() - |Last(st).data| - Fitting(st, n), TCP_OVERSIZE) else 0
        else Max(st.oversize - Fitting(st, n), 0)
  {
    FillIsFitting(st, |d|, a);
  }

  // ----- tcp_output

  /** Segment `i` of the unsent ones lies in the window and is let through. */
  predicate Passes(st: Snd, wnd: int, go: seq<bool>, i: nat)
    requires i < |st.unsent|
  {
    st.unsent[i].pos + |st.unsent[i].data| - st.lastack <= wnd && i < |go| && go[i]
  }

  /** What is sent lies in the window, and is all of what may be sent: the segments in front
      of the first one that lies beyond the window or is not let through. */
  lemma {:induction false} SendingSends(st: Snd, wnd: int, go: seq<bool>) returns (k: nat)
    ensures var e := Sending(st, wnd, go);
      && k <= |st.unsent| && e.unsent == st.unsent[k..]
      && (forall i :: 0 <= i < k ==> Passes(st, wnd, go, i))
      && (k < |st.unsent| ==> !Passes(st, wnd, go, k))
      && e == st.(unsent := e.unsent, unacked := e.unacked, nxt := e.nxt)
      && st.nxt <= e.nxt && (forall i :: 0 <= i < k ==> st.unsent[i].Tail() <= e.nxt)
      && (e.nxt == st.nxt || exists i :: 0 <= i < k && st.unsent[i].Tail() == e.nxt)
    decreases |go|
  {
    if HeadFits(st, wnd) && go != [] && go[0] {
      var h := HeadSent(st);
      var j := SendingSends(h, wnd, go[1..]);
      k := j + 1;
      SendsOneMore(st, h, wnd, go, j);
    } else {
      k := 0;
    }
  }

  lemma SendsOneMore(st: Snd, h: Snd, wnd: int, go: seq<bool>, j: nat)
    requires st.unsent != [] && h == HeadSent(st) && go != [] && go[0] && HeadFits(st, wnd) && j <= |h.unsent|
    requires forall i :: 0 <= i < j ==> Passes(h, wnd, go[1..], i)
    requires j < |h.unsent| ==> !Passes(h, wnd, go[1..], j)
    ensures h.unsent[j..] == st.unsent[j + 1..]
    ensures forall i :: 0 <= i < j + 1 ==> Passes(st, wnd, go, i)
    ensures j + 1 < |st.unsent| ==> !Passes(st, wnd, go, j + 1)
    ensures forall i :: 0 <= i < j ==> h.unsent[i] == st.unsent[i + 1]
  {
    forall i | 0 <= i < j + 1 ensures Passes(st, wnd, go, i) {
      if i > 0 { assert Passes(h, wnd, go[1..], i - 1); }
    }
  }

  /** tcp_output: likewise; with nothing left to send there is no spare room. */
  lemma OutputSends(st: Snd, wnd: int, go: seq<bool>) returns (k: nat)
    ensures var e := Output(st, wnd, go);
      && k <= |st.unsent| && e.unsent == st.unsent[k..]
      && (forall i :: 0 <= i < k ==> Passes(st, wnd, go, i))
      && (k < |st.unsent| ==> !Passes(st, wnd, go, k))
      && e == st.(unsent := e.unsent, unacked := e.unacked, nxt := e.nxt, oversize := e.oversize)
      && e.oversize == (if k == |st.unsent| > 0 then 0 else st.oversize)
      && st.nxt <= e.nxt && (forall i :: 0 <= i < k ==> st.unsent[i].Tail() <= e.nxt)
      && (e.nxt == st.nxt || exists i :: 0 <= i < k && st.unsent[i].Tail() == e.nxt)
  {
    k := SendingSends(st, wnd, go);
  }

  /** In every state of a run what is sent joins what is unacked. */
  lemma OutputMoves(st: Snd, wnd: int, go: seq<bool>, x: Seg) returns (k: nat)
    requires Sound(st)
    ensures var e := Output(st, wnd, go);
      && k <= |st.unsent| && e.unsent == st.unsent[k..] && Ascends(e.unacked)
      && (forall i :: 0 <= i < k ==> Passes(st, wnd, go, i))
      && (k < |st.unsent| ==> !Passes(st, wnd, go, k))
      && (x in e.unacked <==> x in st.unacked || x in st.unsent[..k])
  {
    k := OutputSends(st, wnd, go);
    OutputKeepsSound(st, wnd, go);
    var e := Output(st, wnd, go);
    MergeHas(st.unacked, st.unsent);
    MergeHas(e.unacked, e.unsent);
    assert st.unsent == st.unsent[..k] + st.unsent[k..];
    AscendsConcat(st.unsent[..k], st.unsent[k..]);
  }

  // ----- acknowledgements

  /** An acknowledgement of something new that was sent releases exactly the segments that it
      covers whole; any other changes nothing. */
  lemma AckReleases(st: Snd, ack: int, x: Seg)
    requires Sound(st)
    ensures var e := Acked(st, ack);
      && (x in e.unacked <==> x in st.unacked && (st.lastack < ack <= st.nxt ==> ack < x.Tail()))
      && (x in e.unsent <==> x in st.unsent && (st.lastack < ack <= st.nxt ==> ack < x.Tail()))
      && e.lastack == (if st.lastack < ack <= st.nxt then ack else st.lastack)
      && e.oversize == (if e.unsent == [] then 0 else st.oversize)
      && e == st.(unacked := e.unacked, unsent := e.unsent, lastack := e.lastack, sndBuf := e.sndBuf,
                  queuelen := e.queuelen, oversize := e.oversize, released := e.released)
  {
    MergeHas(st.unacked, st.unsent);
    QueuedHas(st);
    DisjointPart(st.unacked, Merge(st.unacked, st.unsent));
    DisjointPart(st.unsent, Merge(st.unacked, st.unsent));
    KeptHas(st.unacked, ack);
    KeptHas(st.unsent, ack);
  }

  // ----- retransmission

  /** A time-out: nothing counts as sent any more, and where the queues are in order
      everything is unsent in the order it was. */
  lemma TimeoutResends(st: Snd)
    requires Sound(st)
    ensures var e := Requeue(st);
      && e.unacked == [] && e.unsent == st.unacked + st.unsent && e == st.(unacked := [], unsent := e.unsent)
      && (InOrder(st) ==> Flat(st) == e.(oversize := 0))
  {
    if InOrder(st) {
      InvIsInOrder(st);
      InvIsSound(st);
    }
    assert [] + st.unsent == st.unsent;
  }

  /** Fast retransmit: the oldest unacked segment, and no other, changes over to its place
      among the unsent ones. */
  lemma RexmitMoves(st: Snd, x: Seg)
    requires Sound(st) && st.unacked != []
    ensures var e, r := Rexmitted(st), st.unacked[0];
      && e.unacked == st.unacked[1..] && Ascends(e.unsent)
      && (x in e.unsent <==> x in st.unsent || x == r)
      && e.oversize == (if Last(e) == r then 0 else st.oversize)
      && e == st.(unacked := e.unacked, unsent := e.unsent, oversize := e.oversize)
  {
    var r := st.unacked[0];
    assert r in st.unacked;
    forall y | y in st.unsent ensures y.pos != r.pos {}
    InsertHas(st.unsent, r);
    InsertLast(st.unsent, r);
  }

  // ----- SYN, FIN and splitting

  /** SYN or FIN become a segment of their own behind all others; it takes the next sequence
      number. */
  lemma EnqueueAdds(st: Snd, syn: bool, fin: bool)
    ensures var e, n := Enqueued(st, syn, fin), |st.unsent|;
      && |e.unsent| == n + 1 && e.unsent[..n] == st.unsent
      && e.unsent[n] == Seg(st.lbb, [], syn, fin, [0]) && e.lbb == st.lbb + 1
      && e.queuelen == st.queuelen + 1 && e.oversize == 0 && (e.finFlag <==> st.finFlag || fin)
      && e == st.(unsent := e.unsent, lbb := e.lbb, queuelen := e.queuelen, oversize := 0, finFlag := e.finFlag)
  {
  }

  /** A FIN goes on the last unsent segment exactly if that has no flag; nothing else of the
      queues changes then.  Otherwise it is a segment of its own. */
  lemma FinGoesOn(st: Snd)
    ensures var e, n := FinSent(st), |st.unsent|;
      && e.unsent != [] && Last(e).fin && e.finFlag
      && (Piggybacks(st) <==> |e.unsent| == n)
      && (Piggybacks(st) ==>
            && e.unsent[..n - 1] == st.unsent[..n - 1] && Last(e) == Last(st).(fin := true)
            && e == st.(unsent := e.unsent, piggy := true, finFlag := true))
      && (!Piggybacks(st) ==> e == Enqueued(st, false, true))
  {
  }

  /** A split: the head holds the first `n` bytes, the rest follows it as a segment with the
      flags; the pbufs of the head are cut where the bytes are. */
  lemma SplitCuts(st: Snd, n: nat)
    requires st.unsent != [] && 0 < n < |st.unsent[0].data|
    requires st.unsent[0].bufs != [] && Sum(st.unsent[0].bufs) == |st.unsent[0].data|
    ensures var e, s := Split(st, n), st.unsent[0];
      && |e.unsent| == |st.unsent| + 1 && e.unsent[2..] == st.unsent[1..]
      && e.unsent[0].data + e.unsent[1].data == s.data && |e.unsent[0].data| == n
      && e.unsent[0] == s.(data := e.unsent[0].data, bufs := e.unsent[0].bufs)
      && e.unsent[1] == Seg(s.pos + n, e.unsent[1].data, false, s.fin, [|s.data| - n])
      && |e.unsent[0].bufs| <= |s.bufs| && Sum(e.unsent[0].bufs) == n
      && (forall j :: 0 <= j < |e.unsent[0].bufs| - 1 ==> e.unsent[0].bufs[j] == s.bufs[j])
      && e.oversize == (if |st.unsent| == 1 then 0 else st.oversize)
      && e.queuelen - st.queuelen == |e.unsent[0].bufs| + 1 - |s.bufs|
      && e == st.(unsent := e.unsent, queuelen := e.queuelen, oversize := e.oversize)
  {
    ShrunkHolds(st.unsent[0].bufs, n);
    ShrunkKeeps(st.unsent[0].bufs, n);
    assert st.unsent[0].data[..n] + st.unsent[0].data[n..] == st.unsent[0].data;
  }

  lemma {:induction false} ShrunkKeeps(bufs: seq<nat>, n: nat)
    ensures |Shrunk(bufs, n)| <= |bufs| + 1
    ensures forall j :: 0 <= j < |Shrunk(bufs, n)| - 1 ==> Shrunk(bufs, n)[j] == bufs[j]
  {
    if bufs != [] && n > bufs[0] {
      var t := Shrunk(bufs[1..], n - bufs[0]);
      ShrunkKeeps(bufs[1..], n - bufs[0]);
      forall j | 0 <= j < |Shrunk(bufs, n)| - 1 ensures Shrunk(bufs, n)[j] == bufs[j] {
        if j > 0 { assert j - 1 < |t| - 1 && t[j - 1] == bufs[1..][j - 1]; }
      }
    } else {
      assert |Shrunk(bufs, n)| == 1;
    }
  }

  /** A window probe sends the next byte of the head, or its FIN: snd_nxt lies beyond it
      then, and nothing else changes. */
  lemma ProbeSends(st: Snd)
    ensures var e := Probed(st);
      && e == st.(nxt := e.nxt) && (st.unsent == [] ==> e == st)
      && (st.unsent != [] ==>
            st.unsent[0].pos < e.nxt && (e.nxt == st.nxt || st.nxt < e.nxt == st.unsent[0].pos + 1))
  {
  }

  // ----- the largest window over a run

  /** The largest window among those a run began with and was told of. */
  function LargestWindow(first: int, evs: seq<Event>): int {
    if evs == [] then first
    else
      var n := |evs| - 1;
      var w := LargestWindow(first, evs[..n]);
      if evs[n].Window? && evs[n].wnd > w then evs[n].wnd else w
  }

  /** In every state of every run the local MSS follows the largest window that was seen, no
      matter what else happens. */
  lemma {:induction false} RunSeesLargest(sts: seq<Snd>, evs: seq<Event>, i: nat)
    requires Run(sts, evs) && i < |sts|
    ensures sts[i].wndMax == LargestWindow(sts[0].wndMax, evs[..i]) && sts[i].mss == sts[0].mss
  {
    if i > 0 {
      RunSeesLargest(sts, evs, i - 1);
      assert evs[..i][..i - 1] == evs[..i - 1];
      assert Next(sts[i - 1], evs[i - 1], sts[i - 1 + 1]);
      StepSeesWindow(sts[i - 1], evs[i - 1]);
    }
  }

  lemma StepSeesWindow(st: Snd, ev: Event)
    requires Legal(st, ev)
    ensures var e := Step(st, ev);
      && e.mss == st.mss && e.wndMax == if ev.Window? && ev.wnd > st.wndMax then ev.wnd else st.wndMax
  {
    match ev
    case Send(wnd, go) => var k := OutputSends(st, wnd, go);
    case _ =>
  }
}
