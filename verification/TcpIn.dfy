/** The receive path as it runs: wrapped 32-bit sequence numbers, 16-bit windows,
    the queue searched and relinked in place.  Every method is tied to the
    functions of modules Reassembly and Delivery on unwrapped positions; `isn` is
    the sequence number of the first byte of the peer's stream. */
module TcpIn {
  import opened SeqNum
  import opened Reassembly
  import opened Delivery
  import Sack
  import SackQueue

  datatype TcpSeg = TcpSeg(seqno: U32, payload: seq<Byte>, fin: bool) {
    /** TCP_TCPLEN */
    function TcpLen(): nat { |payload| + if fin then 1 else 0 }
  }

  /** How far apart the positions of one connection may lie. */
  const SPAN: int := 0x4000_0000

  // ----- wrapped and unwrapped segments

  function Wrapped(s: Seg, isn: int): TcpSeg {
    TcpSeg(Wrap(isn + s.pos), s.data, s.fin)
  }

  predicate Models(segs: seq<TcpSeg>, q: seq<Seg>, isn: int) {
    && |segs| == |q|
    && forall i :: 0 <= i < |q| ==> segs[i] == Wrapped(q[i], isn)
  }

  /** Every queued position lies within SPAN of `base`. */
  predicate Spanned(q: seq<Seg>, base: int) {
    forall i :: 0 <= i < |q| ==> base <= q[i].pos && q[i].Tail() <= base + SPAN
  }

  lemma {:induction false} WindowSpans(q: seq<Seg>, nxt: int, edge: int)
    requires Sorted(q) && Above(q, nxt) && Within(q, edge)
    ensures forall i :: 0 <= i < |q| ==> nxt < q[i].pos && q[i].Tail() <= edge
    ensures forall i, j :: 0 <= i < j < |q| ==> q[i].pos < q[j].pos
  {
    if q != [] {
      WindowSpans(q[1..], q[0].pos, edge);
      assert forall i :: 1 <= i < |q| ==> q[i] == q[1..][i - 1];
    }
  }

  // ----- out of order

  /** tcp_oos_insert_segment */
  method InsertSegment(inseg: TcpSeg, next: seq<TcpSeg>, ghost s: Seg, ghost rest: seq<Seg>, ghost isn: int)
      returns (r: seq<TcpSeg>)
    requires inseg == Wrapped(s, isn) && Models(next, rest, isn)
    requires |s.data| < SPAN && Spanned(rest, s.pos)
    ensures Models(r, Overlay(s, rest), isn)
  {
    var cseg := inseg;
    if cseg.fin {
      return [cseg];
    }
    var k := 0;
    ghost var a := s;
    if |next| > 0 { EndOrder(s, rest[0], isn); }
    while k < |next| &&
      SeqGeq(Add32(cseg.seqno, |cseg.payload|), Add32(next[k].seqno, |next[k].payload|))
      invariant 0 <= k <= |next|
      invariant a == s.(fin := a.fin) && cseg == Wrapped(a, isn)
      invariant Swallow(s, rest) == Swallow(a, rest[k..])
    {
      ghost var n := rest[k];
      EndOrder(a, n, isn);
      assert rest[k..][0] == n && rest[k..][1..] == rest[k + 1..];
      if next[k].fin {
        cseg, a := cseg.(fin := true), a.(fin := true);
      }
      k := k + 1;
    }
    if k < |next| {
      ghost var n := rest[k];
      EndOrder(a, n, isn);
      assert rest[k..][0] == n;
      cseg := TrimRight(cseg, next[k].seqno, a, n.pos, isn);
    }
    r := [cseg] + next[k..];
  }

  lemma EndOrder(a: Seg, b: Seg, isn: int)
    requires -TWO_31 < a.End() - b.End() < TWO_31
    ensures SeqGeq(Add32(Wrapped(a, isn).seqno, |a.data|), Add32(Wrapped(b, isn).seqno, |b.data|))
        <==> a.End() >= b.End()
  {
    WrapAdd(isn + a.pos, |a.data|);
    WrapAdd(isn + b.pos, |b.data|);
    WrappedOrder(isn + a.End(), isn + b.End());
  }

  /** Cuts a segment where the sequence number `at` starts, if it reaches that far. */
  method TrimRight(seg: TcpSeg, at: U32, ghost a: Seg, ghost x: int, ghost isn: int) returns (r: TcpSeg)
    requires seg == Wrapped(a, isn) && at == Wrap(isn + x)
    requires a.pos <= x <= a.pos + SPAN && |a.data| < SPAN
    ensures r == Wrapped(CutAt(a, x), isn)
  {
    WrapAdd(isn + a.pos, |a.data|);
    WrappedOrder(isn + a.End(), isn + x);
    WrappedDifference(isn + x, isn + a.pos);
    r := seg;
    if SeqGt(Add32(seg.seqno, |seg.payload|), at) {
      r := seg.(payload := seg.payload[..Sub32(at, seg.seqno)]);
    }
  }

  lemma PosOrder(x: int, y: int, isn: int)
    requires -SPAN <= x - y <= SPAN
    ensures SeqLt(Wrap(isn + x), Wrap(isn + y)) <==> x < y
    ensures SeqGt(Wrap(isn + x), Wrap(isn + y)) <==> x > y
    ensures Wrap(isn + x) == Wrap(isn + y) <==> x == y
  {
    WrappedOrder(isn + x, isn + y);
  }

  lemma BetweenOrder(x: int, y: int, z: int, isn: int)
    requires -SPAN <= x - y <= SPAN && -SPAN <= x - z <= SPAN
    ensures SeqBetween(Wrap(isn + x), Add32(Wrap(isn + y), 1), Sub32(Wrap(isn + z), 1)) <==> y < x < z
  {
    WrapAdd(isn + y, 1);
    WrapAdd(isn + z, 1);
    WrappedOrder(isn + x, isn + y + 1);
    WrappedOrder(isn + x, isn + z - 1);
  }

  /** `s` goes behind the `i` queued segments that start before it; `q` and `s` are
      close enough for wrapped comparisons. */
  predicate Fits(q: seq<Seg>, s: Seg, edge: int) {
    && |s.data| < SPAN / 4 && s.pos <= edge <= s.pos + SPAN / 4
    && (forall i :: 0 <= i < |q| ==> edge - SPAN / 4 <= q[i].pos && q[i].Tail() <= edge)
    && (forall i, j :: 0 <= i < j < |q| ==> q[i].pos < q[j].pos)
  }

  lemma {:induction false} FirstIsBefore(q: seq<Seg>, x: int, i: nat)
    requires FirstFrom(q, x, i)
    ensures i == Before(q, x)
  {
    if q != [] && q[0].pos < x {
      assert forall j :: 0 <= j < i - 1 ==> q[1..][j] == q[j + 1];
      FirstIsBefore(q[1..], x, i - 1);
    }
  }

  lemma InsertedBefore(q: seq<Seg>, s: Seg, edge: int, i: nat)
    requires FirstFrom(q, s.pos, i)
    ensures i == Before(q, s.pos) && InsertedAt(q, s, edge, i) == Insert(q, s, edge)
  {
    FirstIsBefore(q, s.pos, i);
    InsertIsInsertedAt(q, s, edge, i);
  }

  /** The walk stops at the first segment that does not start before the new one. */
  method StopsAt(ooseq: seq<TcpSeg>, inseg: TcpSeg, i: nat, ghost q: seq<Seg>, ghost s: Seg, ghost edge: int,
                 ghost isn: int)
      returns (stop: bool)
    requires Models(ooseq, q, isn) && inseg == Wrapped(s, isn) && Fits(q, s, edge)
    requires i < |q| && (i > 0 ==> q[i - 1].pos < s.pos)
    ensures stop <==> s.pos <= q[i].pos
  {
    var next := ooseq[i].seqno;
    PosOrder(s.pos, q[i].pos, isn);
    if i > 0 { BetweenOrder(s.pos, q[i - 1].pos, q[i].pos, isn); }
    stop := inseg.seqno == next
      || (i == 0 && SeqLt(inseg.seqno, next))
      || (i > 0 && SeqBetween(inseg.seqno, Add32(ooseq[i - 1].seqno, 1), Sub32(next, 1)));
  }

  /** ... or behind the last one. */
  method EndsAt(ooseq: seq<TcpSeg>, inseg: TcpSeg, i: nat, ghost q: seq<Seg>, ghost s: Seg, ghost edge: int,
                ghost isn: int)
      returns (last: bool)
    requires Models(ooseq, q, isn) && inseg == Wrapped(s, isn) && Fits(q, s, edge)
    requires i < |q| && q[i].pos < s.pos
    ensures last <==> i + 1 == |q|
  {
    PosOrder(s.pos, q[i].pos, isn);
    last := i + 1 == |ooseq| && SeqGt(inseg.seqno, ooseq[i].seqno);
  }

  /** The SACK range does not start before segment `i` if there is a hole in front of it. */
  method PassSegment(ooseq: seq<TcpSeg>, i: nat, beg: U32, ghost q: seq<Seg>, ghost isn: int) returns (sackbeg: U32)
    requires Models(ooseq, q, isn) && i < |q|
    requires beg == Wrap(isn + if i == 0 then q[0].pos else SackQueue.RunStart(q, i - 1))
    requires i > 0 ==> -SPAN <= q[i - 1].End() - q[i].pos <= SPAN
    ensures sackbeg == Wrap(isn + SackQueue.RunStart(q, i))
  {
    sackbeg := beg;
    if i > 0 {
      WrapAdd(isn + q[i - 1].pos, |q[i - 1].data|);
      PosOrder(q[i - 1].End(), q[i].pos, isn);
      if Add32(ooseq[i - 1].seqno, |ooseq[i - 1].payload|) != ooseq[i].seqno {
        sackbeg := ooseq[i].seqno;
      }
    }
  }

  /** The walk over the queue: `passed` segments start before the new one; the run of
      bytes that ends with the last of them, or the new segment, starts at `sackbeg`. */
  method Walk(ooseq: seq<TcpSeg>, inseg: TcpSeg, ghost q: seq<Seg>, ghost s: Seg, ghost edge: int, ghost isn: int)
      returns (passed: nat, sackbeg: U32)
    requires Models(ooseq, q, isn) && inseg == Wrapped(s, isn) && Fits(q, s, edge) && q != []
    ensures FirstFrom(q, s.pos, passed)
    ensures sackbeg ==
      Wrap(isn + if passed == 0 then Min(s.pos, q[0].pos) else SackQueue.RunStart(q, passed - 1))
  {
    var i := 0;
    PosOrder(s.pos, q[0].pos, isn);
    sackbeg := if SeqLt(inseg.seqno, ooseq[0].seqno) then inseg.seqno else ooseq[0].seqno;
    while true
      invariant 0 <= i < |q|
      invariant forall j :: 0 <= j < i ==> q[j].pos < s.pos
      invariant sackbeg == Wrap(isn + if i == 0 then Min(s.pos, q[0].pos) else SackQueue.RunStart(q, i - 1))
      decreases |q| - i
    {
      var stop := StopsAt(ooseq, inseg, i, q, s, edge, isn);
      if stop {
        return i, sackbeg;
      }
      sackbeg := PassSegment(ooseq, i, sackbeg, q, isn);
      var last := EndsAt(ooseq, inseg, i, q, s, edge, isn);
      if last {
        return i + 1, sackbeg;
      }
      i := i + 1;
    }
  }

  /** The part of tcp_receive that queues a segment beyond `rcv_nxt`.  `right` is
      the right edge of the window; `copyOk` tells whether tcp_seg_copy finds
      memory. */
  method StoreOutOfOrder(ooseq: seq<TcpSeg>, inseg: TcpSeg, right: U32, copyOk: bool,
                         ghost q: seq<Seg>, ghost s: Seg, ghost edge: int, ghost isn: int)
      returns (r: seq<TcpSeg>, passed: nat, sackbeg: U32)
    requires Models(ooseq, q, isn) && inseg == Wrapped(s, isn) && right == Wrap(isn + edge)
    requires Fits(q, s, edge)
    ensures Models(r, if copyOk then Insert(q, s, edge) else q, isn)
    ensures passed == Before(q, s.pos) && (q != [] ==> sackbeg == Wrap(isn + SackQueue.SackBeg(q, s)))
  {
    if ooseq == [] {
      return if copyOk then [inseg] else ooseq, 0, inseg.seqno;
    }
    passed, sackbeg := Walk(ooseq, inseg, q, s, edge, isn);
    InsertedBefore(q, s, edge, passed);
    if passed < |ooseq| {
      r := StoreBefore(ooseq, inseg, passed, copyOk, q, s, edge, isn);
    } else {
      r := StoreLast(ooseq, inseg, right, copyOk, q, s, edge, isn);
    }
  }

  /** The segment goes in front of the queued segment `i`, or replaces it. */
  method StoreBefore(ooseq: seq<TcpSeg>, inseg: TcpSeg, i: nat, copyOk: bool,
                     ghost q: seq<Seg>, ghost s: Seg, ghost edge: int, ghost isn: int)
      returns (r: seq<TcpSeg>)
    requires Models(ooseq, q, isn) && inseg == Wrapped(s, isn) && Fits(q, s, edge)
    requires i < |q| && s.pos <= q[i].pos && (i > 0 ==> q[i - 1].pos < s.pos)
    ensures Models(r, if copyOk then InsertedAt(q, s, edge, i) else q, isn)
  {
    PosOrder(s.pos, q[i].pos, isn);
    r := ooseq;
    if inseg.seqno == ooseq[i].seqno && |inseg.payload| <= |ooseq[i].payload| {
      return;
    }
    if copyOk {
      var tail := InsertSegment(inseg, ooseq[i..], s, q[i..], isn);
      if inseg.seqno == ooseq[i].seqno || i == 0 {
        r := ooseq[..i] + tail;
      } else {
        var c := TrimRight(ooseq[i - 1], inseg.seqno, q[i - 1], s.pos, isn);
        r := ooseq[..i - 1] + ([c] + tail);
      }
    }
  }

  /** The segment goes behind the last queued one, cut at the window. */
  method StoreLast(ooseq: seq<TcpSeg>, inseg: TcpSeg, right: U32, copyOk: bool,
                   ghost q: seq<Seg>, ghost s: Seg, ghost edge: int, ghost isn: int)
      returns (r: seq<TcpSeg>)
    requires Models(ooseq, q, isn) && inseg == Wrapped(s, isn) && right == Wrap(isn + edge)
    requires Fits(q, s, edge) && q != [] && q[|q| - 1].pos < s.pos
    ensures Models(r, if copyOk then InsertedAt(q, s, edge, |q|) else q, isn)
  {
    var last := |ooseq| - 1;
    r := ooseq;
    if !ooseq[last].fin && copyOk {
      var c := TrimRight(ooseq[last], inseg.seqno, q[last], s.pos, isn);
      var t := TrimToWindow(inseg, right, s, edge, isn);
      r := ooseq[..last] + [c, t];
    }
  }

  /** Cuts a segment that overruns the right edge of the window, FIN first. */
  method TrimToWindow(seg: TcpSeg, right: U32, ghost s: Seg, ghost edge: int, ghost isn: int) returns (r: TcpSeg)
    requires seg == Wrapped(s, isn) && right == Wrap(isn + edge)
    requires |s.data| < SPAN && s.pos <= edge <= s.pos + SPAN
    ensures r == Wrapped(TrimBack(s, edge - s.pos), isn)
  {
    WrapAdd(isn + s.pos, seg.TcpLen());
    WrappedOrder(isn + s.Tail(), isn + edge);
    WrappedDifference(isn + edge, isn + s.pos);
    r := seg;
    if SeqGt(Add32(seg.TcpLen(), seg.seqno), right) {
      r := TcpSeg(seg.seqno, seg.payload[..Sub32(right, seg.seqno)], false);
    }
  }

  /** All segments lie in one stretch that wrapped comparisons can tell apart. */
  ghost predicate Spread(q: seq<Seg>, base: int) {
    forall k :: 0 <= k < |q| ==> base <= q[k].pos && q[k].End() <= base + SPAN
  }

  /** How far the bytes go on from segment `at` without a gap. */
  method SackEnd(r: seq<TcpSeg>, at: nat, ghost q: seq<Seg>, ghost base: int, ghost isn: int) returns (sackend: U32)
    requires Models(r, q, isn) && at < |q|
    requires Spread(q, base)
    ensures sackend == Wrap(isn + SackQueue.RunEnd(q[at].pos, q[at..]))
  {
    var k := at;
    ghost var x := q[at].pos;
    sackend := r[at].seqno;
    if k < |q| { PosOrder(x, q[k].pos, isn); }
    while k < |r| && sackend == r[k].seqno
      invariant at <= k <= |q| && base <= x <= base + SPAN && sackend == Wrap(isn + x)
      invariant k < |q| ==> (sackend == r[k].seqno <==> x == q[k].pos)
      invariant SackQueue.RunEnd(x, q[k..]) == SackQueue.RunEnd(q[at].pos, q[at..])
    {
      assert q[k..][0] == q[k] && q[k..][1..] == q[k + 1..];
      WrapAdd(isn + x, |r[k].payload|);
      sackend := Add32(sackend, |r[k].payload|);
      x := q[k].End();
      k := k + 1;
      if k < |q| { PosOrder(x, q[k].pos, isn); }
    }
    if k < |q| { assert q[k..][0] == q[k]; }
  }

  /** What was stored lies close to `rcv_nxt`. */
  lemma StoredNear(st: Rcv, s: Seg, copyOk: bool, peer: seq<Byte>, k: nat)
    requires Inv(st, peer) && From(s, peer) && s.pos < s.Tail() && st.nxt < s.pos < st.Edge() && |s.data| < 0x1_0000
    requires k < |SackQueue.Stored(st.queue, s, st.Edge(), copyOk)|
    ensures var x := SackQueue.Stored(st.queue, s, st.Edge(), copyOk)[k];
      st.nxt < x.pos < x.Tail() <= st.Edge() + 0x1_0000
  {
    var r := SackQueue.Stored(st.queue, s, st.Edge(), copyOk);
    InsertHolds(st.queue, s, st.Edge(), peer, 0);
    SackQueue.Ascending(r, k);
    CoveredNear(st, s, copyOk, peer, r[k].pos, k);
    CoveredNear(st, s, copyOk, peer, r[k].Tail() - 1, k);
  }

  lemma CoveredNear(st: Rcv, s: Seg, copyOk: bool, peer: seq<Byte>, p: int, k: nat)
    requires Inv(st, peer) && From(s, peer) && s.pos < s.Tail() && st.nxt < s.pos < st.Edge() && |s.data| < 0x1_0000
    requires k < |SackQueue.Stored(st.queue, s, st.Edge(), copyOk)|
    requires In(SackQueue.Stored(st.queue, s, st.Edge(), copyOk)[k], p)
    ensures st.nxt < p < st.Edge() + 0x1_0000
  {
    SackQueue.CoversAt(SackQueue.Stored(st.queue, s, st.Edge(), copyOk), k, p);
    InsertHolds(st.queue, s, st.Edge(), peer, p);
    if Covers(st.queue, p) {
      CoversFrom(st.queue, p);
      CoversWithin(st.queue, p, st.Edge());
    }
  }

  lemma {:induction false} CoversWithin(q: seq<Seg>, p: int, edge: int)
    requires Within(q, edge) && Covers(q, p)
    ensures p < edge
  {
    if !In(q[0], p) { CoversWithin(q[1..], p, edge); }
  }

  lemma AllNear(st: Rcv, s: Seg, copyOk: bool, peer: seq<Byte>)
    requires Inv(st, peer) && From(s, peer) && s.pos < s.Tail() && st.nxt < s.pos < st.Edge() && |s.data| < 0x1_0000
    requires st.wnd < 0x1_0000
    ensures Spread(SackQueue.Stored(st.queue, s, st.Edge(), copyOk), st.nxt)
  {
    var q := SackQueue.Stored(st.queue, s, st.Edge(), copyOk);
    forall k | 0 <= k < |q| ensures st.nxt <= q[k].pos && q[k].End() <= st.nxt + SPAN {
      StoredNear(st, s, copyOk, peer, k);
    }
  }

  /** Enters the run of bytes around segment `passed` of the new queue into the array. */
  method Record(sacks: array<Sack.Range>, first: bool, inseg: TcpSeg, r: seq<TcpSeg>, passed: nat, beg: U32,
                ghost st: Rcv, ghost s: Seg, ghost copyOk: bool, ghost peer: seq<Byte>, ghost isn: int)
    requires sacks.Length == Sack.MAX && inseg == Wrapped(s, isn) && (first <==> st.queue == [])
    requires Inv(st, peer) && st.wnd < 0x1_0000 && From(s, peer) && |s.data| < 0x1_0000
    requires s.pos < s.Tail() && st.nxt < s.pos < st.Edge()
    requires Models(r, SackQueue.Stored(st.queue, s, st.Edge(), copyOk), isn)
    requires passed == Before(st.queue, s.pos) && (!first ==> beg == Wrap(isn + SackQueue.SackBeg(st.queue, s)))
    modifies sacks
    ensures sacks[..] ==
      SackQueue.Recorded(st.queue, s, SackQueue.Stored(st.queue, s, st.Edge(), copyOk), old(sacks[..]), isn)
  {
    if first {
      WrapAdd(isn + s.pos, |s.data|);
      sacks[0] := Sack.Range(inseg.seqno, Add32(inseg.seqno, |inseg.payload|));
    } else {
      AllNear(st, s, copyOk, peer);
      RecordRun(sacks, r, passed, beg, st.queue, s, SackQueue.Stored(st.queue, s, st.Edge(), copyOk), st.nxt, isn);
    }
  }

  method RecordRun(sacks: array<Sack.Range>, r: seq<TcpSeg>, passed: nat, beg: U32,
                   ghost was: seq<Seg>, ghost s: Seg, ghost q: seq<Seg>, ghost base: int, ghost isn: int)
    requires sacks.Length == Sack.MAX && was != [] && Models(r, q, isn) && Spread(q, base)
    requires passed == Before(was, s.pos) && beg == Wrap(isn + SackQueue.SackBeg(was, s))
    modifies sacks
    ensures sacks[..] == SackQueue.Recorded(was, s, q, old(sacks[..]), isn)
  {
    if passed < |r| {
      var sackbeg := LeftEdge(r, passed, beg, q, base, isn);
      var sackend := SackEnd(r, passed, q, base, isn);
      Sack.AddSack(sacks, true, sackbeg, sackend);
    }
  }

  /** A hole between the new segment and the one in front of it moves the left edge. */
  method LeftEdge(r: seq<TcpSeg>, i: nat, beg: U32, ghost q: seq<Seg>, ghost base: int, ghost isn: int)
    returns (sackbeg: U32)
    requires Models(r, q, isn) && i < |q|
    requires Spread(q, base)
    ensures sackbeg == if i > 0 && q[i - 1].End() != q[i].pos then Wrap(isn + q[i].pos) else beg
  {
    sackbeg := beg;
    if i > 0 {
      WrapAdd(isn + q[i - 1].pos, |q[i - 1].data|);
      PosOrder(q[i - 1].End(), q[i].pos, isn);
      if Add32(r[i - 1].seqno, |r[i - 1].payload|) != r[i].seqno {
        sackbeg := r[i].seqno;
      }
    }
  }

  // ----- in order

  /** A segment that a 16-bit length can describe, close to `rcv_nxt`. */
  predicate Near(s: Seg, nxt: int) {
    && |s.data| < 0x1_0000
    && nxt - TWO_31 < s.pos && s.Tail() < nxt + SPAN
  }

  /** Data to the left of `rcv_nxt` is cut off. */
  method TrimLeft(inseg: TcpSeg, rcvNxt: U32, ghost s: Seg, ghost nxt: int, ghost isn: int) returns (r: TcpSeg)
    requires inseg == Wrapped(s, isn) && rcvNxt == Wrap(isn + nxt)
    requires Near(s, nxt) && s.pos < s.Tail()
    ensures r == Wrapped(TrimFront(s, nxt), isn)
  {
    WrapAdd(isn + s.pos, 1);
    WrapAdd(isn + s.pos, inseg.TcpLen());
    WrapAdd(isn + s.Tail(), 1);
    WrappedOrder(isn + nxt, isn + s.pos + 1);
    if s.pos + 1 <= nxt { WrappedOrder(isn + nxt, isn + s.Tail() - 1); }
    WrappedDifference(isn + nxt, isn + s.pos);
    r := inseg;
    if SeqBetween(rcvNxt, Add32(inseg.seqno, 1), Sub32(Add32(inseg.seqno, inseg.TcpLen()), 1)) {
      r := TcpSeg(rcvNxt, inseg.payload[Sub32(rcvNxt, inseg.seqno)..], inseg.fin);
    }
  }

  lemma InWindow(pos: int, nxt: int, wnd: nat, isn: int)
    requires nxt - TWO_31 < pos < nxt + SPAN && wnd < 0x1_0000
    ensures SeqBetween(Wrap(isn + pos), Wrap(isn + nxt), Sub32(Add32(Wrap(isn + nxt), wnd), 1))
        <==> nxt <= pos < nxt + wnd
    ensures nxt <= pos ==> (Wrap(isn + pos) == Wrap(isn + nxt) <==> pos == nxt)
  {
    WrapAdd(isn + nxt, wnd);
    WrapAdd(isn + nxt + wnd, 1);
    WrappedOrder(isn + pos, isn + nxt);
    if nxt <= pos { WrappedOrder(isn + pos, isn + nxt + wnd - 1); }
  }

  lemma {:induction false} FinReachesAll(e: int, q: seq<Seg>, peer: seq<Byte>)
    requires Good(q, peer) && e == |peer| + 1
    ensures Reach(e, q) == (e, [])
    decreases |q|
  {
    if q != [] { FinReachesAll(e, q[1..], peer); }
  }

  lemma AbsorbStep(a: Seg, q: seq<Seg>, peer: seq<Byte>)
    requires Good(q, peer) && q != [] && From(a, peer) && !a.fin
    requires a.pos < q[0].pos && q[0].End() <= a.Tail()
    ensures Good(q[1..], peer) && (q[0].fin ==> |q| == 1)
    ensures var b := a.(fin := q[0].fin); From(b, peer) && Reach(b.Tail(), q[1..]) == Reach(a.Tail(), q)
  {
    if |q| > 1 { FinIsLast(q, peer); }
  }

  lemma AbsorbCut(a: Seg, q: seq<Seg>, peer: seq<Byte>)
    requires q != [] && From(a, peer) && !a.fin && a.data != [] && a.pos < q[0].pos && a.Tail() < q[0].End()
    ensures var b := CutAt(a, q[0].pos);
      From(b, peer) && b.pos < b.Tail() <= q[0].pos && Reach(b.Tail(), q) == Reach(a.Tail(), q)
  {
  }

  /** Queued segments that the in-order segment covers are dropped, their FIN moves
      to it, and it is cut where the next one starts. */
  method Absorb(inseg: TcpSeg, ooseq: seq<TcpSeg>, ghost t: Seg, ghost q: seq<Seg>, ghost peer: seq<Byte>,
                ghost isn: int)
      returns (r: TcpSeg, rest: seq<TcpSeg>, ghost u: Seg, ghost k: nat)
    requires inseg == Wrapped(t, isn) && Models(ooseq, q, isn)
    requires From(t, peer) && t.pos < t.Tail() && Good(q, peer) && Above(q, t.pos)
    requires |t.data| < SPAN && forall i :: 0 <= i < |q| ==> t.pos < q[i].pos && q[i].Tail() <= t.pos + SPAN
    ensures k <= |q| && r == Wrapped(u, isn) && Models(rest, q[k..], isn)
    ensures From(u, peer) && u.pos == t.pos < u.Tail()
    ensures k < |q| ==> u.Tail() <= q[k].pos
    ensures Reach(u.Tail(), q[k..]) == Reach(t.Tail(), q) && Good(q[k..], peer)
  {
    r, u := inseg, t;
    k := 0;
    if r.fin {
      FinReachesAll(t.Tail(), q, peer);
      k := |q|;
      assert q[k..] == [];
      return r, [], u, k;
    }
    var i := 0;
    while i < |ooseq| &&
      SeqGeq(Add32(r.seqno, r.TcpLen()), Add32(ooseq[i].seqno, |ooseq[i].payload|))
      invariant 0 <= i <= |q|
      invariant u == t.(fin := u.fin) && r == Wrapped(u, isn) && From(u, peer)
      invariant u.fin ==> i == |q|
      invariant Reach(u.Tail(), q[i..]) == Reach(t.Tail(), q) && Good(q[i..], peer)
    {
      TailOrder(u, q[i], isn);
      AbsorbStep(u, q[i..], peer);
      assert q[i..][0] == q[i] && q[i..][1..] == q[i + 1..];
      if ooseq[i].fin {
        r, u := r.(fin := true), u.(fin := true);
      }
      i := i + 1;
    }
    k := i;
    if i < |ooseq| {
      TailOrder(u, q[i], isn);
      assert q[i..][0] == q[i];
      AbsorbCut(u, q[i..], peer);
      r := TrimRight(r, ooseq[i].seqno, u, q[i].pos, isn);
      u := CutAt(u, q[i].pos);
    }
    rest := ooseq[i..];
  }

  lemma TailOrder(a: Seg, b: Seg, isn: int)
    requires -TWO_31 < a.Tail() - b.End() < TWO_31
    ensures SeqGeq(Add32(Wrapped(a, isn).seqno, Wrapped(a, isn).TcpLen()), Add32(Wrapped(b, isn).seqno, |b.data|))
        <==> a.Tail() >= b.End()
  {
    WrapAdd(isn + a.pos, Wrapped(a, isn).TcpLen());
    WrapAdd(isn + b.pos, |b.data|);
    WrappedOrder(isn + a.Tail(), isn + b.End());
  }

  /** The in-order segment is cut at the window and merged with what it covers. */
  method MergeInOrder(inseg: TcpSeg, ooseq: seq<TcpSeg>, wnd: U16,
                      ghost t: Seg, ghost st: Rcv, ghost peer: seq<Byte>, ghost isn: int)
      returns (seg: TcpSeg, rest: seq<TcpSeg>, ghost u: Seg, ghost q: seq<Seg>)
    requires Inv(st, peer) && Models(ooseq, st.queue, isn) && wnd == st.wnd > 0
    requires inseg == Wrapped(t, isn) && From(t, peer) && |t.data| < 0x1_0000
    requires t.pos == st.nxt < t.Tail()
    ensures seg == Wrapped(u, isn) && Models(rest, q, isn)
    ensures From(u, peer) && u.pos == st.nxt < u.Tail() <= st.Edge()
    ensures Good(q, peer) && Within(q, st.Edge()) && (q != [] ==> u.Tail() <= q[0].pos)
    ensures Reach(u.Tail(), q) == Reach(TrimBack(t, st.wnd).Tail(), st.queue)
  {
    seg := inseg;
    if seg.TcpLen() > wnd {
      seg := TcpSeg(seg.seqno, seg.payload[..wnd], false);
    }
    u, q, rest := TrimBack(t, st.wnd), st.queue, ooseq;
    if ooseq != [] {
      ghost var e, k := u.Tail(), 0;
      WindowSpans(q, st.nxt, st.Edge());
      seg, rest, u, k := Absorb(seg, ooseq, u, q, peer, isn);
      SuffixWithin(q, k, st.Edge());
      ReachKeeps(e, q, st.Edge(), peer);
      q := q[k..];
      ReachIsMaximal(u.Tail(), q, 0);
    }
  }

  /** A segment that starts within the window. */
  function Accepted(c: Conn, t: Seg, copyOk: bool, peer: seq<Byte>): Conn {
    if t.pos == c.rcv.nxt then
      Announce(c.(rcv := InOrder(c.rcv, t))).(rxOpen := InOrder(c.rcv, t).nxt <= |peer|)
    else c.(rcv := c.rcv.(queue := SackQueue.Stored(c.rcv.queue, t, c.rcv.Edge(), copyOk)))
  }

  lemma ReceiveCases(c: Conn, s: Seg, copyOk: bool, peer: seq<Byte>)
    requires ConnInv(c, peer) && From(s, peer)
    ensures Bytes(peer, c.rcv.nxt, c.rcv.nxt) == []
    ensures s.pos == s.Tail() || !c.rxOpen ==> Delivery.Receive(c, s, copyOk, peer) == c
    ensures s.pos < s.Tail() && c.rxOpen ==>
      var t, d := TrimFront(s, c.rcv.nxt), Delivery.Receive(c, s, copyOk, peer);
      && From(t, peer) && |t.data| <= |s.data| && t.pos < t.Tail()
      && c.rcv.nxt <= |peer|
      && d == if c.rcv.nxt <= t.pos < c.rcv.Edge() then Accepted(c, t, copyOk, peer) else c
  {
    var t := TrimFront(s, c.rcv.nxt);
    if s.pos < s.Tail() && c.rxOpen && c.rcv.nxt == t.pos < c.rcv.Edge() {
      ReceiveInOrder(c, s, copyOk, peer);
    }
  }

  lemma ReceiveInOrder(c: Conn, s: Seg, copyOk: bool, peer: seq<Byte>)
    requires Sorted(c.rcv.queue) && s.pos < s.Tail() && c.rxOpen
    requires TrimFront(s, c.rcv.nxt).pos == c.rcv.nxt < c.rcv.Edge()
    ensures var r := InOrder(c.rcv, TrimFront(s, c.rcv.nxt));
      Delivery.Receive(c, s, copyOk, peer) == Announce(c.(rcv := r)).(rxOpen := r.nxt <= |peer|)
  {
    ReachIsMaximal(TrimBack(TrimFront(s, c.rcv.nxt), c.rcv.wnd).Tail(), c.rcv.queue, 0);
  }

  ghost function Processed(d: Conn, s: Seg, copyOk: bool, acceptOk: bool, peer: seq<Byte>): Conn {
    var e := Delivery.Receive(d, s, copyOk, peer);
    Delivery.HandUp(e, Bytes(peer, d.rcv.nxt, e.rcv.nxt), d.rcv.nxt <= |peer| < e.rcv.nxt, acceptOk)
  }

  /** What follows the refused data: nothing is handed up if nothing was received. */
  lemma ProcessedIs(d: Conn, s: Seg, copyOk: bool, acceptOk: bool, peer: seq<Byte>)
    requires ConnInv(d, peer) && From(s, peer)
    ensures var e := Delivery.Receive(d, s, copyOk, peer);
      && e.rcv.wnd <= TCP_WND
      && Processed(d, s, copyOk, acceptOk, peer) ==
         if e.rcv.nxt <= d.rcv.nxt then e
         else Delivery.HandUp(e, Bytes(peer, d.rcv.nxt, e.rcv.nxt), e.rcv.nxt > |peer|, acceptOk)
  {
    ReceivedWindow(d, s, copyOk, peer);
    assert Bytes(peer, d.rcv.nxt, d.rcv.nxt) == [];
  }

  lemma ReceivedWindow(d: Conn, s: Seg, copyOk: bool, peer: seq<Byte>)
    requires ConnInv(d, peer) && From(s, peer)
    ensures var e := Delivery.Receive(d, s, copyOk, peer);
      e.rcv.wnd <= TCP_WND && d.rcv.nxt <= e.rcv.nxt && (d.rxOpen <==> d.rcv.nxt <= |peer|)
  {
    if d.rxOpen && s.pos < s.Tail() {
      ArriveMoves(d.rcv, s, copyOk, peer);
    }
  }

  lemma WindowBounds(c: Conn, peer: seq<Byte>)
    requires ConnInv(c, peer)
    ensures c.annEdge <= c.rcv.Edge() && c.annEdge - c.rcv.nxt < 0x1_0000 && 0 <= c.rcv.wnd <= TCP_WND
  {
    AcceptedIsReceived(c, peer);
  }

  lemma InputInSteps(c: Conn, s: Seg, copyOk: bool, retryOk: bool, acceptOk: bool, peer: seq<Byte>)
    requires ConnInv(c, peer) && Legal(c, Segment(s, copyOk, retryOk, acceptOk), peer)
    ensures var d := Retry(c, retryOk);
      && ConnInv(d, peer) && d.rcv.nxt == c.rcv.nxt && d.rcv.Edge() <= c.rcv.Edge() + 1 && d.annEdge == c.annEdge
      && Delivery.Input(c, s, copyOk, retryOk, acceptOk, peer) ==
         if d.refused.Held? && s.pos < s.Tail() then d
         else Processed(d, s, copyOk, acceptOk, peer)
    ensures Delivery.Receive(Retry(c, retryOk), s, copyOk, peer).rcv.wnd <= TCP_WND
  {
    RetryKeeps(c, retryOk, peer);
    var d := Retry(c, retryOk);
    AcceptedIsReceived(d, peer);
    ProcessedIs(d, s, copyOk, acceptOk, peer);
  }

  // ----- the control block

  /** The receiving half of a control block.  `rxOpen` says that the state is one
      in which text is accepted (before CLOSE_WAIT); `accepted` and `closed` record
      what the application's callbacks were given. */
  class TcpPcb {
    var rcvNxt: U32
    var rcvWnd: U16
    var rcvAnnWnd: U16
    var rcvAnnRightEdge: U32
    var mss: U16
    var rxOpen: bool
    var ooseq: seq<TcpSeg>
    const rcvSacks: array<Sack.Range>
    const sackOk: bool
    var refused: Refused
    var accepted: seq<Byte>
    var closed: nat

    ghost const peer: seq<Byte>
    ghost const isn: int
    ghost var view: Conn

    /** The fields are the wrapped form of `view`. */
    ghost predicate Coupled()
      reads this
    {
      && rcvNxt == Wrap(isn + view.rcv.nxt) && rcvWnd == view.rcv.wnd && rcvSacks.Length == Sack.MAX
      && rcvAnnWnd == view.annWnd && rcvAnnRightEdge == Wrap(isn + view.annEdge)
      && mss == view.mss && rxOpen == view.rxOpen
      && Models(ooseq, view.rcv.queue, isn)
      && refused == view.refused && accepted == view.accepted && closed == view.closed
    }

    /** ... and `view` satisfies the invariant of every run. */
    ghost predicate Valid()
      reads this
    {
      Coupled() && ConnInv(view, peer)
    }

    /** The last transmission is not half a sequence space ago. */
    ghost predicate Recent()
      reads this
    {
      view.rcv.Edge() + 0x1_0000 < view.annEdge + SPAN
    }

    constructor (isn: int, mss: U16, sackOk: bool, ghost peer: seq<Byte>)
      ensures Valid() && view == Fresh(mss) && this.isn == isn && this.peer == peer
      ensures fresh(rcvSacks) && rcvSacks[..] == Sack.Fill([])
    {
      rcvSacks := new Sack.Range[Sack.MAX](_ => Sack.NONE);
      this.sackOk := sackOk;
      rcvNxt, rcvAnnRightEdge := Wrap(isn), Wrap(isn);
      rcvWnd, rcvAnnWnd := TCP_WND, TCP_WND;
      this.mss := mss;
      rxOpen, ooseq, refused, accepted, closed := true, [], Nothing, [], 0;
      this.peer, this.isn, view := peer, isn, Fresh(mss);
    }

    /** tcp_update_rcv_ann_wnd */
    method UpdateRcvAnnWnd() returns (inflation: U32)
      requires Coupled() && view.annEdge <= view.rcv.Edge() < view.annEdge + SPAN
      requires view.annEdge - view.rcv.nxt < 0x1_0000
      modifies this
      ensures Coupled() && view == Announce(old(view))
      ensures inflation ==
        if view.rcv.Edge() >= view.annEdge + Min(TCP_WND / 2, mss) then view.rcv.Edge() - view.annEdge else 0
      ensures unchanged(`rcvNxt, `rcvWnd, `rcvAnnRightEdge, `mss, `rxOpen, `ooseq, `refused, `accepted, `closed)
    {
      ghost var c := view;
      var newRightEdge := Add32(rcvNxt, rcvWnd);
      WrapAdd(isn + c.rcv.nxt, rcvWnd);
      WrapAdd(isn + c.annEdge, Min(TCP_WND / 2, mss));
      WrappedOrder(isn + c.rcv.Edge(), isn + c.annEdge + Min(TCP_WND / 2, mss));
      WrappedDifference(isn + c.rcv.Edge(), isn + c.annEdge);
      WrappedOrder(isn + c.rcv.nxt, isn + c.annEdge);
      WrappedDifference(isn + c.annEdge, isn + c.rcv.nxt);
      if SeqGeq(newRightEdge, Add32(rcvAnnRightEdge, Min(TCP_WND / 2, mss))) {
        rcvAnnWnd := rcvWnd;
        inflation := Sub32(newRightEdge, rcvAnnRightEdge);
      } else {
        if SeqGt(rcvNxt, rcvAnnRightEdge) {
          rcvAnnWnd := 0;
        } else {
          rcvAnnWnd := Sub32(rcvAnnRightEdge, rcvNxt);
        }
        inflation := 0;
      }
      view := Announce(view);
    }

    /** The state between the arrival at `base` and the end of the drain loop. */
    ghost predicate Receiving(base: Conn)
      reads this
    {
      && Coupled()
      && view == Announce(base.(rcv := view.rcv))
      && base.rxOpen && 0 <= base.rcv.nxt <= view.rcv.nxt && base.rcv.Edge() == view.rcv.Edge() < base.annEdge + SPAN
      && base.annEdge <= base.rcv.Edge() && base.annEdge - base.rcv.nxt < 0x1_0000
      && 0 <= view.rcv.wnd < 0x1_0000
      && Good(view.rcv.queue, peer) && Within(view.rcv.queue, view.rcv.Edge())
      && (view.rcv.queue != [] ==> view.rcv.nxt <= view.rcv.queue[0].pos)
      && view.rcv.nxt <= |peer| + 1
    }

    /** Takes the first queued segment, which starts at `rcv_nxt`. */
    method Dequeue(ghost base: Conn) returns (cseg: TcpSeg)
      requires Receiving(base) && ooseq != [] && view.rcv.queue[0].pos == view.rcv.nxt
      modifies this
      ensures Receiving(base)
      ensures cseg == Wrapped(old(view.rcv.queue[0]), isn)
      ensures view.rcv == Rcv(old(view.rcv.queue[0].Tail()), base.rcv.Edge() - old(view.rcv.queue[0].Tail()),
                              old(view.rcv.queue[1..]))
      ensures ooseq == old(ooseq[1..])
    {
      cseg := Unlink();
      var _ := UpdateRcvAnnWnd();
    }

    method Unlink() returns (cseg: TcpSeg)
      requires Coupled() && ooseq != [] && view.rcv.queue[0].pos == view.rcv.nxt
      requires view.rcv.queue[0].Tail() <= view.rcv.Edge()
      modifies `rcvNxt, `rcvWnd, `ooseq, `view
      ensures Coupled() && cseg == Wrapped(old(view.rcv.queue[0]), isn) && ooseq == old(ooseq[1..])
      ensures var n, c := old(view.rcv.queue[0]), old(view);
        view == c.(rcv := Rcv(n.Tail(), c.rcv.Edge() - n.Tail(), c.rcv.queue[1..]))
    {
      cseg := ooseq[0];
      ghost var n := view.rcv.queue[0];
      WrapAdd(isn + view.rcv.nxt, cseg.TcpLen());
      rcvNxt := Add32(rcvNxt, cseg.TcpLen());
      rcvWnd := rcvWnd - cseg.TcpLen();
      ooseq := ooseq[1..];
      view := view.(rcv := Rcv(n.Tail(), view.rcv.Edge() - n.Tail(), view.rcv.queue[1..]));
    }

    /** What was handed up since `base`, and whether the queue is in sequence. */
    ghost predicate Draining(base: Conn, goal: (int, seq<Seg>), data: seq<Byte>, gotFin: bool)
      reads this
    {
      && Receiving(base) && |ooseq| == |view.rcv.queue|
      && Reach(view.rcv.nxt, view.rcv.queue) == goal
      && data == Bytes(peer, base.rcv.nxt, view.rcv.nxt) && gotFin == (view.rcv.nxt > |peer|)
    }

    /** Segments of the queue that are now in sequence are chained to the data. */
    method Drain(recvData: seq<Byte>, recvFin: bool, ghost base: Conn, ghost goal: (int, seq<Seg>))
        returns (data: seq<Byte>, gotFin: bool)
      requires Draining(base, goal, recvData, recvFin)
      modifies this
      ensures Draining(base, goal, data, gotFin)
      ensures view.rcv.nxt == goal.0 && view.rcv.queue == goal.1
    {
      data, gotFin := recvData, recvFin;
      HeadOrder(view.rcv, isn, peer);
      while ooseq != [] && ooseq[0].seqno == rcvNxt
        invariant Draining(base, goal, data, gotFin)
        invariant ooseq != [] ==> (ooseq[0].seqno == rcvNxt <==> view.rcv.queue[0].pos == view.rcv.nxt)
        decreases |ooseq|
      {
        data, gotFin := ChainHead(data, gotFin, base, goal);
      }
    }

    method ChainHead(recvData: seq<Byte>, recvFin: bool, ghost base: Conn, ghost goal: (int, seq<Seg>))
        returns (data: seq<Byte>, gotFin: bool)
      requires Draining(base, goal, recvData, recvFin) && ooseq != [] && view.rcv.queue[0].pos == view.rcv.nxt
      modifies this
      ensures Draining(base, goal, data, gotFin) && |ooseq| == old(|ooseq|) - 1
      ensures ooseq != [] ==> (ooseq[0].seqno == rcvNxt <==> view.rcv.queue[0].pos == view.rcv.nxt)
    {
      ghost var r := view.rcv;
      ReachStep(r, peer);
      var cseg := Dequeue(base);
      HeadBytes(base.rcv.nxt, r.queue[0], peer);
      data := recvData + cseg.payload;
      gotFin := recvFin || cseg.fin;
      HeadOrder(view.rcv, isn, peer);
    }

    /** `rcv_nxt`, `rcv_wnd` and the queue move on behind the merged segment. */
    method Advance(seg: TcpSeg, rest: seq<TcpSeg>, ghost u: Seg, ghost q: seq<Seg>, ghost goal: (int, seq<Seg>))
      requires Valid() && view.rcv.Edge() < view.annEdge + SPAN && rxOpen
      requires seg == Wrapped(u, isn) && Models(rest, q, isn)
      requires From(u, peer) && u.pos == view.rcv.nxt < u.Tail() <= view.rcv.Edge()
      requires Good(q, peer) && Within(q, view.rcv.Edge()) && (q != [] ==> u.Tail() <= q[0].pos)
      requires Reach(u.Tail(), q) == goal
      modifies this
      ensures Draining(old(view), goal, seg.payload, seg.fin)
    {
      HeadBytes(u.pos, u, peer);
      assert Bytes(peer, u.pos, u.pos) == [];
      WindowBounds(view, peer);
      MoveOn(seg, rest, u, q);
      var _ := UpdateRcvAnnWnd();
    }

    method MoveOn(seg: TcpSeg, rest: seq<TcpSeg>, ghost u: Seg, ghost q: seq<Seg>)
      requires Coupled() && seg == Wrapped(u, isn) && Models(rest, q, isn)
      requires u.pos == view.rcv.nxt < u.Tail() <= view.rcv.Edge()
      modifies `rcvNxt, `rcvWnd, `ooseq, `view
      ensures Coupled() && view == old(view).(rcv := Rcv(u.Tail(), old(view).rcv.Edge() - u.Tail(), q))
    {
      WrapAdd(isn + u.pos, seg.TcpLen());
      rcvNxt := Add32(seg.seqno, seg.TcpLen());
      rcvWnd := rcvWnd - seg.TcpLen();
      ooseq := rest;
      view := view.(rcv := Rcv(u.Tail(), view.rcv.Edge() - u.Tail(), q));
    }

    /** tcp_receive for a segment that starts at `rcv_nxt`. */
    method TakeInOrder(inseg: TcpSeg, ghost t: Seg) returns (data: seq<Byte>, gotFin: bool)
      requires Valid() && view.rcv.Edge() < view.annEdge + SPAN && rxOpen && 0 < rcvWnd
      requires inseg == Wrapped(t, isn) && From(t, peer) && |t.data| < 0x1_0000
      requires t.pos == view.rcv.nxt < t.Tail()
      modifies this, rcvSacks
      ensures Coupled() && view == Announce(old(view).(rcv := InOrder(old(view.rcv), t)))
      ensures data == Bytes(peer, old(view.rcv.nxt), view.rcv.nxt) && gotFin == (view.rcv.nxt > |peer|)
      ensures rcvSacks[..] ==
        if sackOk then SackQueue.Delivered(view.rcv.queue, old(rcvSacks[..]), isn) else old(rcvSacks[..])
    {
      ghost var base := view;
      ghost var goal := Reach(TrimBack(t, view.rcv.wnd).Tail(), view.rcv.queue);
      ghost var u, q;
      var seg, rest;
      seg, rest, u, q := MergeInOrder(inseg, ooseq, rcvWnd, t, view.rcv, peer, isn);
      Advance(seg, rest, u, q, goal);
      data, gotFin := Drain(seg.payload, seg.fin, base, goal);
      DropSacks();
    }

    /** Nothing in front of the queue is reported any more. */
    method DropSacks()
      requires Coupled()
      modifies rcvSacks
      ensures rcvSacks[..] ==
        if sackOk then SackQueue.Delivered(view.rcv.queue, old(rcvSacks[..]), isn) else old(rcvSacks[..])
    {
      if sackOk {
        if ooseq != [] {
          Sack.RemoveSacksLt(rcvSacks, ooseq[0].seqno);
        } else if rcvSacks[0].Valid() {
          Sack.Wipe(rcvSacks);
        }
      }
    }

    /** tcp_receive for a segment within the window but beyond `rcv_nxt`. */
    method StoreBeyond(seg: TcpSeg, copyOk: bool, ghost t: Seg)
      requires Valid()
      requires seg == Wrapped(t, isn) && |t.data| < 0x1_0000 && view.rcv.nxt < t.pos < view.rcv.Edge()
      requires From(t, peer) && t.pos < t.Tail()
      modifies this, rcvSacks
      ensures Coupled()
      ensures view == old(view).(rcv := old(view.rcv).(queue :=
        if copyOk then Insert(old(view.rcv.queue), t, old(view.rcv.Edge())) else old(view.rcv.queue)))
      ensures rcvSacks[..] ==
        if sackOk then SackQueue.Recorded(old(view.rcv.queue), t, view.rcv.queue, old(rcvSacks[..]), isn)
        else old(rcvSacks[..])
    {
      ghost var q, edge := view.rcv.queue, view.rcv.Edge();
      WindowSpans(q, view.rcv.nxt, edge);
      WrapAdd(isn + view.rcv.nxt, rcvWnd);
      var first, passed, sackbeg := ooseq == [], 0, 0;
      ooseq, passed, sackbeg := StoreOutOfOrder(ooseq, seg, Add32(rcvNxt, rcvWnd), copyOk, q, t, edge, isn);
      if sackOk {
        Record(rcvSacks, first, seg, ooseq, passed, sackbeg, view.rcv, t, copyOk, peer, isn);
      }
      view := view.(rcv := view.rcv.(queue := if copyOk then Insert(q, t, edge) else q));
    }

    /** The text part of tcp_receive; the state leaves the ones in which text is
        accepted once the FIN is there. */
    method Receive(inseg: TcpSeg, copyOk: bool, ghost s: Seg) returns (data: seq<Byte>, gotFin: bool)
      requires Valid() && view.rcv.Edge() < view.annEdge + SPAN
      requires inseg == Wrapped(s, isn) && From(s, peer) && Near(s, view.rcv.nxt)
      modifies this, rcvSacks
      ensures Coupled() && view == Delivery.Receive(old(view), s, copyOk, peer)
      ensures rcvSacks[..] ==
        if sackOk && s.pos < s.Tail() && old(rxOpen) then
          SackQueue.Arrived(old(view.rcv), s, copyOk, old(rcvSacks[..]), isn)
        else old(rcvSacks[..])
      ensures data == Bytes(peer, old(view.rcv.nxt), view.rcv.nxt)
      ensures gotFin == (old(view.rcv.nxt) <= |peer| < view.rcv.nxt)
    {
      data, gotFin := [], false;
      ReceiveCases(view, s, copyOk, peer);
      if inseg.TcpLen() > 0 && rxOpen {
        var seg := TrimLeft(inseg, rcvNxt, s, view.rcv.nxt, isn);
        ghost var t := TrimFront(s, view.rcv.nxt);
        var inside := BeginsInside(seg, t);
        if inside {
          data, gotFin := Accept(seg, copyOk, t);
        }
      }
    }

    /** Does the segment start within the window. */
    method BeginsInside(seg: TcpSeg, ghost t: Seg) returns (inside: bool)
      requires Valid() && seg.seqno == Wrap(isn + t.pos)
      requires view.rcv.nxt - TWO_31 < t.pos < view.rcv.nxt + SPAN
      ensures inside <==> view.rcv.nxt <= t.pos < view.rcv.Edge()
    {
      InWindow(t.pos, view.rcv.nxt, rcvWnd, isn);
      inside := SeqBetween(seg.seqno, rcvNxt, Sub32(Add32(rcvNxt, rcvWnd), 1));
    }

    /** The text of a segment that starts within the window. */
    method Accept(seg: TcpSeg, copyOk: bool, ghost t: Seg) returns (data: seq<Byte>, gotFin: bool)
      requires Valid() && view.rcv.Edge() < view.annEdge + SPAN && rxOpen
      requires seg == Wrapped(t, isn) && From(t, peer) && t.pos < t.Tail() && |t.data| < 0x1_0000
      requires view.rcv.nxt <= t.pos < view.rcv.Edge()
      modifies this, rcvSacks
      ensures Coupled() && view == Accepted(old(view), t, copyOk, peer)
      ensures data == Bytes(peer, old(view.rcv.nxt), view.rcv.nxt) && gotFin == (view.rcv.nxt > |peer|)
      ensures rcvSacks[..] ==
        if sackOk then SackQueue.Accepted(old(view.rcv), t, copyOk, old(rcvSacks[..]), isn) else old(rcvSacks[..])
    {
      InWindow(t.pos, view.rcv.nxt, rcvWnd, isn);
      data, gotFin := [], false;
      if rcvNxt == seg.seqno {
        data, gotFin := TakeInOrder(seg, t);
        CloseOnFin(gotFin);
      } else {
        assert Bytes(peer, view.rcv.nxt, view.rcv.nxt) == [];
        StoreBeyond(seg, copyOk, t);
      }
    }

    /** A FIN in sequence moves the state behind CLOSE_WAIT. */
    method CloseOnFin(gotFin: bool)
      requires Coupled() && rxOpen
      modifies this
      ensures Coupled() && view == old(view).(rxOpen := !gotFin)
    {
      if gotFin {
        rxOpen := false;
      }
      view := view.(rxOpen := !gotFin);
    }

    /** tcp_process_refused_data; `accept` is the answer of the application. */
    method ProcessRefusedData(accept: bool)
      requires Valid()
      modifies this
      ensures Valid() && view == Retry(old(view), accept)
      ensures unchanged(`rcvNxt, `rcvAnnWnd, `rcvAnnRightEdge, `mss, `rxOpen, `ooseq)
    {
      RetryKeeps(view, accept, peer);
      if refused.Held? && accept {
        var fin := refused.fin;
        accepted := accepted + refused.data;
        refused := Nothing;
        if fin {
          if rcvWnd != TCP_WND {
            rcvWnd := rcvWnd + 1;
          }
          closed := closed + 1;
        }
      }
      view := Retry(view, accept);
    }

    /** The end of tcp_input: data and end of stream are handed up. */
    method HandUp(data: seq<Byte>, gotFin: bool, acceptOk: bool)
      requires Coupled() && rcvWnd < 0xffff
      modifies this
      ensures Coupled() && view == Delivery.HandUp(old(view), data, gotFin, acceptOk)
    {
      if data != [] {
        if acceptOk {
          accepted := accepted + data;
        } else {
          refused := Held(data, false);
        }
      }
      if gotFin {
        if refused.Held? {
          refused := refused.(fin := true);
        } else {
          if rcvWnd != TCP_WND {
            rcvWnd := rcvWnd + 1;
          }
          closed := closed + 1;
        }
      }
      view := Delivery.HandUp(view, data, gotFin, acceptOk);
    }

    /** tcp_process and what tcp_input does after it. */
    method Process(inseg: TcpSeg, copyOk: bool, acceptOk: bool, ghost s: Seg)
      requires Valid() && view.rcv.Edge() < view.annEdge + SPAN
      requires inseg == Wrapped(s, isn) && From(s, peer) && Near(s, view.rcv.nxt)
      requires Delivery.Receive(view, s, copyOk, peer).rcv.wnd <= TCP_WND
      modifies this, rcvSacks
      ensures Coupled() && view == Processed(old(view), s, copyOk, acceptOk, peer)
      ensures rcvSacks[..] ==
        if sackOk && s.pos < s.Tail() && old(rxOpen) then
          SackQueue.Arrived(old(view.rcv), s, copyOk, old(rcvSacks[..]), isn)
        else old(rcvSacks[..])
    {
      var data, gotFin := Receive(inseg, copyOk, s);
      HandUp(data, gotFin, acceptOk);
    }

    /** tcp_input for a segment that belongs to the connection. */
    method Input(inseg: TcpSeg, copyOk: bool, retryOk: bool, acceptOk: bool, ghost s: Seg)
      requires Valid() && Recent()
      requires inseg == Wrapped(s, isn) && Near(s, view.rcv.nxt)
      requires Legal(view, Segment(s, copyOk, retryOk, acceptOk), peer)
      modifies this, rcvSacks
      ensures Valid() && view == Delivery.Input(old(view), s, copyOk, retryOk, acceptOk, peer)
      ensures rcvSacks[..] ==
        if sackOk then SackQueue.Step(old(view), Segment(s, copyOk, retryOk, acceptOk), old(rcvSacks[..]), isn)
        else old(rcvSacks[..])
    {
      InputKeeps(view, s, copyOk, retryOk, acceptOk, peer);
      InputInSteps(view, s, copyOk, retryOk, acceptOk, peer);
      if refused.Held? {
        ProcessRefusedData(retryOk);
        if refused.Held? && inseg.TcpLen() > 0 {
          return;
        }
      }
      Process(inseg, copyOk, acceptOk, s);
    }

    /** tcp_recved; the window stays right as long as no more is given back than there is
        to give back, else it is clamped. */
    method Recved(len: U16) returns (inflation: U32)
      requires Valid() && Recent()
      modifies this
      ensures Coupled() && view == GiveBack(old(view), len)
      ensures inflation ==
        if view.rcv.Edge() - view.annEdge >= Min(TCP_WND / 2, mss) then view.rcv.Edge() - view.annEdge else 0
      ensures old(view.returned) + len <= |accepted| ==> Valid()
      ensures unchanged(`rcvNxt, `rcvAnnRightEdge, `mss, `rxOpen, `ooseq, `refused, `accepted, `closed)
    {
      if view.returned + len <= |accepted| { GiveBackKeeps(view, len, peer); }
      WindowBounds(view, peer);
      inflation := TakeBack(len);
    }

    method TakeBack(len: U16) returns (inflation: U32)
      requires Coupled() && Recent() && view.annEdge <= view.rcv.Edge() && view.annEdge - view.rcv.nxt < 0x1_0000
      requires 0 <= view.rcv.wnd <= TCP_WND
      modifies this
      ensures Coupled() && view == GiveBack(old(view), len)
      ensures inflation ==
        if view.rcv.Edge() - view.annEdge >= Min(TCP_WND / 2, mss) then view.rcv.Edge() - view.annEdge else 0
      ensures unchanged(`rcvNxt, `rcvAnnRightEdge, `mss, `rxOpen, `ooseq, `refused, `accepted, `closed)
    {
      GrowWindow(len);
      inflation := UpdateRcvAnnWnd();
    }

    method GrowWindow(len: U16)
      requires Coupled()
      modifies this`rcvWnd, this`view
      ensures Coupled()
      ensures view == old(view).(rcv := old(view).rcv.(wnd := Min(TCP_WND, old(view).rcv.wnd + len)),
                                 returned := old(view).returned + len)
    {
      var wnd := (rcvWnd + len) % 0x1_0000;
      if wnd > TCP_WND || wnd < rcvWnd {
        rcvWnd := TCP_WND;
      } else {
        rcvWnd := wnd;
      }
      view := view.(rcv := view.rcv.(wnd := Min(TCP_WND, view.rcv.wnd + len)), returned := view.returned + len);
    }

    /** tcp_free_ooseq */
    method FreeOoseq()
      requires Valid()
      modifies `ooseq, `view, rcvSacks
      ensures Valid() && view == Forget(old(view)) && ooseq == []
      ensures rcvSacks[..] == SackQueue.Step(old(view), Reclaimed, old(rcvSacks[..]), isn)
    {
      if ooseq != [] {
        ooseq := [];
        Sack.Wipe(rcvSacks);
      }
      view := Forget(view);
    }

    /** The window bookkeeping of tcp_output_segment and of an empty ACK. */
    method AnnounceWindow() returns (wnd: U16)
      requires Valid()
      modifies this
      ensures Valid() && view == Transmit(old(view)) && wnd == view.annWnd
      ensures view.annEdge == view.rcv.nxt + wnd && rcvAnnRightEdge == Add32(rcvNxt, wnd)
      ensures unchanged(`rcvNxt, `rcvWnd, `rcvAnnWnd, `mss, `rxOpen, `ooseq, `refused, `accepted, `closed)
    {
      WrapAdd(isn + view.rcv.nxt, rcvAnnWnd);
      wnd := rcvAnnWnd;
      rcvAnnRightEdge := Add32(rcvNxt, rcvAnnWnd);
      view := Transmit(view);
    }
  }

  lemma {:induction false} SuffixWithin(q: seq<Seg>, k: nat, edge: int)
    requires Within(q, edge) && k <= |q|
    ensures Within(q[k..], edge)
    decreases k
  {
    if k > 0 {
      SuffixWithin(q[1..], k - 1, edge);
      assert q[1..][k - 1..] == q[k..];
    }
  }

  lemma ReachStep(st: Rcv, peer: seq<Byte>)
    requires Good(st.queue, peer) && st.queue != [] && st.queue[0].pos == st.nxt
    ensures Reach(st.queue[0].Tail(), st.queue[1..]) == Reach(st.nxt, st.queue)
    ensures From(st.queue[0], peer)
  {
  }

  lemma HeadOrder(st: Rcv, isn: int, peer: seq<Byte>)
    requires Good(st.queue, peer) && Within(st.queue, st.Edge()) && st.wnd < 0x1_0000
    requires st.queue != [] ==> st.nxt <= st.queue[0].pos
    ensures st.queue != [] ==> (Wrap(isn + st.queue[0].pos) == Wrap(isn + st.nxt) <==> st.queue[0].pos == st.nxt)
  {
    if st.queue != [] { PosOrder(st.queue[0].pos, st.nxt, isn); }
  }

  lemma HeadBytes(from: int, s: Seg, peer: seq<Byte>)
    requires From(s, peer) && 0 <= from <= s.pos
    ensures Bytes(peer, from, s.Tail()) == Bytes(peer, from, s.pos) + s.data
    ensures s.Tail() > |peer| <==> s.fin
  {
  }
}
