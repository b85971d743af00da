/** Reassembly of the peer's stream, on unwrapped positions. */
module Reassembly {
  import opened SeqNum

  // Position 0 is the first byte after the peer's SYN; a FIN occupies the
  // position just after the last byte.  The functions below say what one arriving
  // segment does to `rcv_nxt`, `rcv_wnd` and the out-of-sequence queue; module
  // TcpIn proves that the in-place algorithms on wrapped sequence numbers compute
  // them.

  datatype Seg = Seg(pos: int, data: seq<Byte>, fin: bool) {
    /** First position after the payload. */
    function End(): int { pos + |data| }

    /** First position after the segment, counting its FIN (TCP_TCPLEN). */
    function Tail(): int { End() + if fin then 1 else 0 }
  }

  /** `rcv_nxt`, `rcv_wnd` and the queue `ooseq`. */
  datatype Rcv = Rcv(nxt: int, wnd: int, queue: seq<Seg>) {
    function Edge(): int { nxt + wnd }
  }

  // ----- what the peer may send

  /** `s` carries the bytes and the FIN of the stream `peer` at their places. */
  predicate From(s: Seg, peer: seq<Byte>) {
    && 0 <= s.pos && s.End() <= |peer|
    && s.data == peer[s.pos..s.End()]
    && (s.fin ==> s.End() == |peer|)
  }

  // ----- in-order data

  /** Data to the left of `nxt` is cut off a segment that straddles `nxt`. */
  function TrimFront(s: Seg, nxt: int): Seg {
    if s.pos < nxt < s.Tail() then
      Seg(nxt, if nxt <= s.End() then s.data[nxt - s.pos..] else [], s.fin)
    else s
  }

  /** At most `room` sequence numbers of a segment are kept; a cut loses the FIN. */
  function TrimBack(s: Seg, room: int): Seg {
    if 0 <= room < s.Tail() - s.pos then Seg(s.pos, s.data[..room], false) else s
  }

  /** Extends the contiguous prefix that ends at `e` by the queued segments it
      reaches; returns the new end and what stays queued. */
  function Reach(e: int, q: seq<Seg>): (int, seq<Seg>)
    decreases |q|
  {
    if q == [] || e < q[0].pos then (e, q)
    else Reach(Max(e, q[0].Tail()), q[1..])
  }

  // ----- out-of-sequence data

  /** Cuts the payload of `p` at position `x`. */
  function CutAt(p: Seg, x: int): Seg {
    if p.pos <= x < p.End() then p.(data := p.data[..x - p.pos]) else p
  }

  /** `s` swallows the queued segments that end within it, with their FIN, and is
      cut where the next one starts. */
  function Swallow(s: Seg, rest: seq<Seg>): seq<Seg>
    decreases |rest|
  {
    if rest != [] && s.End() >= rest[0].End() then
      Swallow(s.(fin := s.fin || rest[0].fin), rest[1..])
    else if rest != [] then [CutAt(s, rest[0].pos)] + rest
    else [s]
  }

  /** tcp_oos_insert_segment: a FIN makes everything behind it obsolete. */
  function Overlay(s: Seg, rest: seq<Seg>): seq<Seg> {
    if s.fin then [s] else Swallow(s, rest)
  }

  /** The queue after a segment beyond `rcv_nxt` was stored in it. */
  function Insert(q: seq<Seg>, s: Seg, edge: int): seq<Seg> {
    if q == [] then [s]
    else if s.pos == q[0].pos then
      if |s.data| > |q[0].data| then Overlay(s, q) else q
    else if s.pos < q[0].pos then Overlay(s, q)
    else if |q| == 1 then
      if q[0].fin then q else [CutAt(q[0], s.pos), TrimBack(s, edge - s.pos)]
    else if s.pos < q[1].pos then [CutAt(q[0], s.pos)] + Overlay(s, q[1..])
    else [q[0]] + Insert(q[1..], s, edge)
  }

  // ----- one arrival

  /** Data at `rcv_nxt`: the window closes by what it and the queue behind it fill. */
  function InOrder(st: Rcv, t: Seg): Rcv {
    var r := Reach(TrimBack(t, st.wnd).Tail(), st.queue);
    Rcv(r.0, st.Edge() - r.0, r.1)
  }

  /** tcp_receive for a segment with Tail() > pos. */
  function Arrive(st: Rcv, s: Seg, copyOk: bool): Rcv {
    var t := TrimFront(s, st.nxt);
    if st.nxt <= t.pos < st.Edge() then
      if t.pos == st.nxt then
        InOrder(st, t)
      else if copyOk then st.(queue := Insert(st.queue, t, st.Edge()))
      else st
    else st
  }

  // ----- the invariant

  /** Strictly ascending, non-overlapping, no empty segment. */
  predicate Sorted(q: seq<Seg>) {
    q == [] || (q[0].pos < q[0].Tail() && (|q| > 1 ==> q[0].Tail() <= q[1].pos) && Sorted(q[1..]))
  }

  predicate AllFrom(q: seq<Seg>, peer: seq<Byte>) {
    q == [] || (From(q[0], peer) && AllFrom(q[1..], peer))
  }

  /** Nothing is queued beyond the right edge of the window. */
  predicate Within(q: seq<Seg>, edge: int) {
    q == [] || (q[0].Tail() <= edge && Within(q[1..], edge))
  }

  predicate Above(q: seq<Seg>, nxt: int) {
    q == [] || nxt < q[0].pos
  }

  predicate Inv(st: Rcv, peer: seq<Byte>) {
    && 0 <= st.nxt <= |peer| + 1
    && 0 <= st.wnd
    && Sorted(st.queue) && AllFrom(st.queue, peer)
    && Above(st.queue, st.nxt) && Within(st.queue, st.Edge())
  }

  predicate In(s: Seg, p: int) {
    s.pos <= p < s.Tail()
  }

  /** Position `p` is held by the queue; a FIN holds its position too. */
  predicate Covers(q: seq<Seg>, p: int) {
    q != [] && (In(q[0], p) || Covers(q[1..], p))
  }

  /** The segments before `x` in the queue: their number. */
  function Before(q: seq<Seg>, x: int): (k: nat)
    ensures k <= |q|
  {
    if q == [] || q[0].pos >= x then 0 else 1 + Before(q[1..], x)
  }

  /** The segment is stored by a branch that does not cut it at the window. */
  predicate StoredUntrimmed(st: Rcv, s: Seg) {
    var k := Before(st.queue, s.pos);
    && st.nxt < s.pos < st.Edge() < s.Tail()
    && (k == |st.queue| ==> st.queue == [])
    && (k < |st.queue| && st.queue[k].pos == s.pos ==> |s.data| > |st.queue[k].data|)
  }

  // ----- what the functions do to the queue

  lemma {:induction false} CoversMeans(q: seq<Seg>, p: int)
    ensures Covers(q, p) <==> exists i :: 0 <= i < |q| && In(q[i], p)
  {
    if q != [] {
      CoversMeans(q[1..], p);
      if i :| 0 <= i < |q| && In(q[i], p) {
        assert i > 0 ==> q[1..][i - 1] == q[i];
      }
      if i :| 0 <= i < |q[1..]| && In(q[1..][i], p) {
        assert q[i + 1] == q[1..][i];
      }
    }
  }

  /** Nothing is held before the first segment. */
  lemma {:induction false} CoversFrom(q: seq<Seg>, p: int)
    requires Sorted(q) && Covers(q, p)
    ensures q[0].pos <= p
  {
    if !In(q[0], p) { CoversFrom(q[1..], p); }
  }

  /** The contiguous run: everything from `e` up to the result is held by the
      queue, the result itself is not, and exactly the segments beyond it stay. */
  lemma {:induction false} ReachIsMaximal(e: int, q: seq<Seg>, p: int)
    requires Sorted(q)
    ensures var (n, rest) := Reach(e, q);
      && e <= n
      && (e <= p < n ==> Covers(q, p))
      && !Covers(q, n)
      && Above(rest, n)
      && |rest| <= |q| && rest == q[|q| - |rest|..]
    decreases |q|
  {
    if q != [] && q[0].pos <= e {
      ReachIsMaximal(Max(e, q[0].Tail()), q[1..], p);
    } else if Covers(q, e) {
      CoversFrom(q, e);
    }
  }

  /** `q` is a well-formed queue of peer bytes. */
  predicate Good(q: seq<Seg>, peer: seq<Byte>) {
    Sorted(q) && AllFrom(q, peer)
  }

  /** A FIN ends the queue. */
  lemma FinIsLast(q: seq<Seg>, peer: seq<Byte>)
    requires Good(q, peer) && |q| > 1
    ensures !q[0].fin
  {
    assert From(q[0], peer) && AllFrom(q[1..], peer) && Sorted(q[1..]);
  }

  /** Swallowing keeps the queue well-formed and starts where the segment starts. */
  lemma {:induction false} SwallowGood(s: Seg, rest: seq<Seg>, peer: seq<Byte>)
    requires Good(rest, peer) && From(s, peer) && s.pos < s.Tail()
    requires s.fin ==> rest == []
    requires rest != [] ==> s.pos <= rest[0].pos && (s.pos == rest[0].pos ==> rest[0].End() <= s.End())
    ensures var r := Swallow(s, rest); r != [] && r[0].pos == s.pos && Good(r, peer)
    decreases |rest|
  {
    if rest != [] && s.End() >= rest[0].End() {
      if |rest| > 1 { FinIsLast(rest, peer); }
      SwallowGood(s.(fin := s.fin || rest[0].fin), rest[1..], peer);
    }
  }

  /** ... and holds exactly the positions of the segment and of the queue. */
  lemma {:induction false} SwallowCovers(s: Seg, rest: seq<Seg>, peer: seq<Byte>, p: int)
    requires Good(rest, peer) && From(s, peer) && s.pos < s.Tail()
    requires s.fin ==> rest == []
    requires rest != [] ==> s.pos <= rest[0].pos
    ensures Covers(Swallow(s, rest), p) <==> In(s, p) || Covers(rest, p)
    decreases |rest|
  {
    if rest != [] && s.End() >= rest[0].End() {
      if |rest| > 1 { FinIsLast(rest, peer); }
      SwallowCovers(s.(fin := s.fin || rest[0].fin), rest[1..], peer, p);
    } else if rest != [] {
      assert ([CutAt(s, rest[0].pos)] + rest)[1..] == rest;
    }
  }

  lemma {:induction false} FinHidesQueue(s: Seg, rest: seq<Seg>, peer: seq<Byte>, p: int)
    requires Good(rest, peer) && From(s, peer) && s.fin
    requires rest != [] ==> s.pos <= rest[0].pos
    ensures Covers(rest, p) ==> In(s, p)
    decreases |rest|
  {
    if Covers(rest, p) && !In(rest[0], p) {
      FinHidesQueue(s, rest[1..], peer, p);
    }
  }

  lemma OverlayHolds(s: Seg, rest: seq<Seg>, peer: seq<Byte>, p: int)
    requires Good(rest, peer) && From(s, peer) && s.pos < s.Tail()
    requires rest != [] ==> s.pos <= rest[0].pos && (s.pos == rest[0].pos ==> rest[0].End() < s.End())
    ensures var r := Overlay(s, rest); r != [] && r[0].pos == s.pos && Good(r, peer)
    ensures Covers(Overlay(s, rest), p) <==> In(s, p) || Covers(rest, p)
  {
    if s.fin {
      FinHidesQueue(s, rest, peer, p);
    } else {
      SwallowGood(s, rest, peer);
      SwallowCovers(s, rest, peer, p);
    }
  }

  /** The positions an insertion throws away: what the predecessor holds behind
      the end of a segment that lies strictly inside it. */
  predicate Lost(q: seq<Seg>, s: Seg, p: int) {
    var k := Before(q, s.pos);
    && 0 < k && !q[k - 1].fin
    && (k < |q| ==> q[k].pos != s.pos)
    && s.Tail() <= p < q[k - 1].Tail()
  }

  /** The FIN an insertion ignores: it came on a segment no longer than the one
      already queued at the same place. */
  predicate FinIgnored(q: seq<Seg>, s: Seg) {
    var k := Before(q, s.pos);
    && k < |q| && q[k].pos == s.pos && |q[k].data| == |s.data|
    && s.fin && !q[k].fin
  }

  /** The positions a new segment adds. */
  predicate Gained(q: seq<Seg>, s: Seg, edge: int, p: int) {
    && In(s, p)
    && (Before(q, s.pos) == |q| > 0 ==> p < edge)
    && !(FinIgnored(q, s) && p == s.End())
  }

  /** A segment in front of a queue. */
  lemma Prepend(c: Seg, r: seq<Seg>, peer: seq<Byte>, p: int)
    requires Good(r, peer) && From(c, peer) && c.pos < c.Tail()
    requires r != [] ==> c.Tail() <= r[0].pos
    ensures Good([c] + r, peer)
    ensures Covers([c] + r, p) <==> In(c, p) || Covers(r, p)
  {
    assert ([c] + r)[1..] == r;
  }

  /** Insertion keeps the queue well-formed, and exactly these positions are held
      afterwards. */
  lemma {:induction false} InsertHolds(q: seq<Seg>, s: Seg, edge: int, peer: seq<Byte>, p: int)
    requires Good(q, peer) && From(s, peer) && s.pos < s.Tail()
    requires s.pos < edge && Within(q, edge)
    ensures var r := Insert(q, s, edge);
      r != [] && Good(r, peer) && (r[0].pos == s.pos || (q != [] && r[0].pos == q[0].pos))
    ensures Covers(Insert(q, s, edge), p) <==> (Covers(q, p) && !Lost(q, s, p)) || Gained(q, s, edge, p)
    decreases |q|
  {
    if q == [] || s.pos <= q[0].pos {
      InsertAtHead(q, s, edge, peer, p);
    } else if |q| == 1 {
      InsertAtTail(q, s, edge, peer, p);
    } else if s.pos < q[1].pos {
      InsertBehindHead(q, s, edge, peer, p);
    } else {
      assert q[0].Tail() <= q[1].pos <= s.pos;
      InsertHolds(q[1..], s, edge, peer, p);
      Prepend(q[0], Insert(q[1..], s, edge), peer, p);
      assert Before(q, s.pos) == 1 + Before(q[1..], s.pos);
    }
  }

  lemma InsertAtHead(q: seq<Seg>, s: Seg, edge: int, peer: seq<Byte>, p: int)
    requires Good(q, peer) && From(s, peer) && s.pos < s.Tail()
    requires q == [] || s.pos <= q[0].pos
    requires s.pos < edge
    ensures var r := Insert(q, s, edge);
      r != [] && Good(r, peer) && r[0].pos == s.pos
    ensures Covers(Insert(q, s, edge), p) <==> (Covers(q, p) && !Lost(q, s, p)) || Gained(q, s, edge, p)
  {
    assert Before(q, s.pos) == 0;
    if q == [] {
      Prepend(s, [], peer, p);
      assert [s] + [] == [s];
    } else if s.pos < q[0].pos || |s.data| > |q[0].data| {
      OverlayHolds(s, q, peer, p);
    } else {
      assert From(q[0], peer);
    }
  }

  /** What is cut still carries the stream. */
  lemma CutCarries(s: Seg, x: int, peer: seq<Byte>)
    requires From(s, peer) && !s.fin && s.pos < x
    ensures From(CutAt(s, x), peer) && CutAt(s, x).Tail() == Min(s.Tail(), x) && CutAt(s, x).pos == s.pos
  {
  }

  lemma TrimCarries(s: Seg, n: int, peer: seq<Byte>)
    requires From(s, peer) && 0 < n
    ensures From(TrimBack(s, n), peer)
    ensures TrimBack(s, n).Tail() == Min(s.Tail(), s.pos + n) && TrimBack(s, n).pos == s.pos
  {
  }

  lemma InsertAtTail(q: seq<Seg>, s: Seg, edge: int, peer: seq<Byte>, p: int)
    requires Good(q, peer) && From(s, peer) && s.pos < s.Tail()
    requires |q| == 1 && q[0].pos < s.pos < edge && Within(q, edge)
    ensures var r := Insert(q, s, edge);
      r != [] && Good(r, peer) && r[0].pos == q[0].pos
    ensures Covers(Insert(q, s, edge), p) <==> (Covers(q, p) && !Lost(q, s, p)) || Gained(q, s, edge, p)
  {
    assert Before(q, s.pos) == 1;
    assert Covers(q, p) <==> In(q[0], p);
    if !q[0].fin {
      var c, t := CutAt(q[0], s.pos), TrimBack(s, edge - s.pos);
      CutCarries(q[0], s.pos, peer);
      TrimCarries(s, edge - s.pos, peer);
      Prepend(t, [], peer, p);
      Prepend(c, [t] + [], peer, p);
      assert [c] + ([t] + []) == [c, t];
    }
  }

  lemma InsertBehindHead(q: seq<Seg>, s: Seg, edge: int, peer: seq<Byte>, p: int)
    requires Good(q, peer) && From(s, peer) && s.pos < s.Tail()
    requires |q| > 1 && q[0].pos < s.pos < q[1].pos && s.pos < edge
    ensures var r := Insert(q, s, edge);
      r != [] && Good(r, peer) && r[0].pos == q[0].pos
    ensures Covers(Insert(q, s, edge), p) <==> (Covers(q, p) && !Lost(q, s, p)) || Gained(q, s, edge, p)
  {
    FinIsLast(q, peer);
    OverlayHolds(s, q[1..], peer, p);
    var c := CutAt(q[0], s.pos);
    assert From(c, peer) && q[0].pos < c.Tail() <= s.pos;
    Prepend(c, Overlay(s, q[1..]), peer, p);
    assert Before(q, s.pos) == 1;
    if Covers(q[1..], p) { CoversFrom(q[1..], p); }
  }

  /** The segment ends strictly inside the queued segment in front of it. */
  predicate EndsInsidePredecessor(q: seq<Seg>, s: Seg) {
    var k := Before(q, s.pos);
    && 0 < k && !q[k - 1].fin
    && (k < |q| ==> q[k].pos != s.pos)
    && s.Tail() < q[k - 1].Tail()
  }

  lemma {:induction false} BeforeIsLess(q: seq<Seg>, x: int)
    requires Sorted(q)
    ensures var k := Before(q, x); (k > 0 ==> q[k - 1].pos < x) && (k < |q| ==> x <= q[k].pos)
  {
    if q != [] && q[0].pos < x { BeforeIsLess(q[1..], x); }
  }

  /** An insertion keeps every position the queue held, exactly unless the new
      segment ends strictly inside its predecessor. */
  lemma InsertLosesNothingIff(q: seq<Seg>, s: Seg, edge: int, peer: seq<Byte>)
    requires Good(q, peer) && From(s, peer) && s.pos < s.Tail()
    requires s.pos < edge && Within(q, edge)
    ensures (forall p :: Covers(q, p) ==> Covers(Insert(q, s, edge), p)) <==> !EndsInsidePredecessor(q, s)
  {
    forall p
      ensures Covers(Insert(q, s, edge), p) <==> (Covers(q, p) && !Lost(q, s, p)) || Gained(q, s, edge, p)
    {
      InsertHolds(q, s, edge, peer, p);
    }
    if EndsInsidePredecessor(q, s) {
      var k := Before(q, s.pos);
      BeforeIsLess(q, s.pos);
      assert In(q[k - 1], s.Tail());
      CoversMeans(q, s.Tail());
      assert Lost(q, s, s.Tail()) && !Gained(q, s, edge, s.Tail());
    }
  }

  // ----- the window

  lemma {:induction false} SwallowWithin(s: Seg, rest: seq<Seg>, edge: int, peer: seq<Byte>)
    requires Good(rest, peer) && From(s, peer) && s.pos < s.Tail()
    requires s.fin ==> rest == []
    requires rest != [] ==> s.pos <= rest[0].pos
    requires Within(rest, edge)
    ensures Within(Swallow(s, rest), edge) <==> s.Tail() <= edge
    decreases |rest|
  {
    if rest != [] && s.End() >= rest[0].End() {
      if |rest| > 1 { FinIsLast(rest, peer); }
      SwallowWithin(s.(fin := s.fin || rest[0].fin), rest[1..], edge, peer);
    } else if rest != [] {
      assert ([CutAt(s, rest[0].pos)] + rest)[1..] == rest;
    }
  }

  /** What is stored reaches beyond the right edge of the window exactly when the
      segment does and lands where it is not cut. */
  lemma {:induction false} InsertWithin(q: seq<Seg>, s: Seg, edge: int, peer: seq<Byte>)
    requires Good(q, peer) && From(s, peer) && s.pos < s.Tail()
    requires s.pos < edge && Within(q, edge)
    ensures var k := Before(q, s.pos);
      Within(Insert(q, s, edge), edge) <==>
        (s.Tail() <= edge || (k == |q| && q != []) || (k < |q| && q[k].pos == s.pos && |s.data| <= |q[k].data|))
    decreases |q|
  {
    assert Within([s], edge) <==> s.Tail() <= edge;
    if q == [] {
    } else if s.pos <= q[0].pos {
      if (s.pos < q[0].pos || |s.data| > |q[0].data|) && !s.fin {
        SwallowWithin(s, q, edge, peer);
      }
    } else if |q| == 1 {
      if !q[0].fin {
        var c, t := CutAt(q[0], s.pos), TrimBack(s, edge - s.pos);
        assert Within([t], edge) && [c, t][1..] == [t];
      }
    } else if s.pos < q[1].pos {
      var c, r := CutAt(q[0], s.pos), Overlay(s, q[1..]);
      assert c.Tail() <= q[0].Tail() <= edge && Before(q, s.pos) == 1;
      if !s.fin { SwallowWithin(s, q[1..], edge, peer); }
      assert ([c] + r)[1..] == r;
    } else {
      var r := Insert(q[1..], s, edge);
      InsertWithin(q[1..], s, edge, peer);
      assert ([q[0]] + r)[1..] == r;
    }
  }

  lemma {:induction false} ReachKeeps(e: int, q: seq<Seg>, edge: int, peer: seq<Byte>)
    requires Good(q, peer) && Within(q, edge)
    ensures var (n, rest) := Reach(e, q);
      Good(rest, peer) && Within(rest, edge) && n <= Max(e, Min(edge, |peer| + 1))
    decreases |q|
  {
    if q != [] && q[0].pos <= e {
      ReachKeeps(Max(e, q[0].Tail()), q[1..], edge, peer);
    }
  }

  /** One arrival keeps the invariant exactly when it does not store a segment
      that the peer sent beyond the window. */
  lemma ArriveKeepsInv(st: Rcv, s: Seg, copyOk: bool, peer: seq<Byte>)
    requires Inv(st, peer) && From(s, peer) && s.pos < s.Tail()
    ensures Inv(Arrive(st, s, copyOk), peer) <==> !(copyOk && StoredUntrimmed(st, s))
  {
    var t := TrimFront(s, st.nxt);
    assert From(t, peer) && t.pos < t.Tail();
    if st.nxt <= t.pos < st.Edge() {
      if t.pos == st.nxt {
        InOrderKeeps(st, t, peer);
      } else if copyOk {
        InsertHolds(st.queue, t, st.Edge(), peer, 0);
        InsertWithin(st.queue, t, st.Edge(), peer);
      }
    }
  }

  lemma InOrderKeeps(st: Rcv, t: Seg, peer: seq<Byte>)
    requires Inv(st, peer) && From(t, peer) && t.pos == st.nxt < t.Tail() && 0 < st.wnd
    ensures Inv(InOrder(st, t), peer)
  {
    var e := TrimBack(t, st.wnd).Tail();
    ReachIsMaximal(e, st.queue, 0);
    ReachKeeps(e, st.queue, st.Edge(), peer);
  }

  /** In-order data moves `rcv_nxt` to the end of the contiguous run of what just
      came in and what was queued, no less and no more; the right edge stays. */
  lemma ArriveIsMaximal(st: Rcv, s: Seg, copyOk: bool, peer: seq<Byte>, p: int)
    requires Inv(st, peer) && From(s, peer) && s.pos <= st.nxt < s.Tail() && 0 < st.wnd
    ensures var r := Arrive(st, s, copyOk);
      && st.nxt < r.nxt && r.Edge() == st.Edge()
      && (st.nxt <= p < r.nxt ==> In(s, p) || Covers(st.queue, p))
      && (r.nxt < st.Edge() ==> !In(s, r.nxt))
      && !Covers(st.queue, r.nxt)
      && (Covers(r.queue, p) <==> r.nxt < p && Covers(st.queue, p))
  {
    var e := TrimBack(TrimFront(s, st.nxt), st.wnd).Tail();
    ReachIsMaximal(e, st.queue, p);
    ReachKeeps(e, st.queue, st.Edge(), peer);
    ReachLeaves(e, st.queue, p);
  }

  /** Data beyond `rcv_nxt` is queued: exactly these positions are held afterwards, and
      nothing else changes. */
  lemma ArriveStores(st: Rcv, s: Seg, peer: seq<Byte>, p: int)
    requires Inv(st, peer) && From(s, peer) && s.pos < s.Tail() && st.nxt < s.pos < st.Edge()
    ensures var r := Arrive(st, s, true);
      && r.nxt == st.nxt && r.wnd == st.wnd && Good(r.queue, peer)
      && (Covers(r.queue, p) <==>
          (Covers(st.queue, p) && !Lost(st.queue, s, p)) || Gained(st.queue, s, st.Edge(), p))
  {
    InsertHolds(st.queue, s, st.Edge(), peer, p);
  }

  /** Nothing changes if data beyond `rcv_nxt` cannot be copied, or no position of the
      segment lies in the window. */
  lemma ArriveIgnores(st: Rcv, s: Seg, copyOk: bool)
    requires s.pos < s.Tail()
    requires (st.nxt < s.pos && !copyOk) || s.Tail() <= st.nxt || st.Edge() <= Max(s.pos, st.nxt)
    ensures Arrive(st, s, copyOk) == st
  {
  }

  lemma {:induction false} ReachLeaves(e: int, q: seq<Seg>, p: int)
    requires Sorted(q)
    ensures Covers(Reach(e, q).1, p) <==> Reach(e, q).0 < p && Covers(q, p)
    decreases |q|
  {
    ReachIsMaximal(e, q, p);
    if q != [] && q[0].pos <= e {
      ReachLeaves(Max(e, q[0].Tail()), q[1..], p);
      ReachIsMaximal(Max(e, q[0].Tail()), q[1..], p);
    } else if Covers(q, p) {
      CoversFrom(q, p);
    }
  }

  /** An insertion in closed form: everything in front of the predecessor is kept,
      the predecessor is cut, and what follows is overlaid. */
  function InsertedAt(q: seq<Seg>, s: Seg, edge: int, i: nat): seq<Seg>
    requires i <= |q|
  {
    if i < |q| && q[i].pos == s.pos then
      if |s.data| > |q[i].data| then q[..i] + Overlay(s, q[i..]) else q
    else if i == 0 then
      if q == [] then [s] else Overlay(s, q)
    else if i < |q| then q[..i - 1] + ([CutAt(q[i - 1], s.pos)] + Overlay(s, q[i..]))
    else if q[i - 1].fin then q
    else q[..i - 1] + [CutAt(q[i - 1], s.pos), TrimBack(s, edge - s.pos)]
  }

  /** `i` is the index of the first segment that does not start before `x`. */
  predicate FirstFrom(q: seq<Seg>, x: int, i: nat) {
    && i <= |q| && (forall j :: 0 <= j < i ==> q[j].pos < x)
    && (i < |q| ==> x <= q[i].pos)
  }

  lemma {:induction false} InsertIsInsertedAt(q: seq<Seg>, s: Seg, edge: int, i: nat)
    requires FirstFrom(q, s.pos, i)
    ensures Insert(q, s, edge) == InsertedAt(q, s, edge, i)
    decreases i
  {
    if i == 0 {
      assert q[0..] == q && q[..0] + Overlay(s, q) == Overlay(s, q);
    } else if i == 1 && (|q| == 1 || s.pos < q[1].pos) {
      assert q[..0] == [];
    } else {
      InsertIsInsertedAt(q[1..], s, edge, i - 1);
      InsertedAtStep(q, s, edge, i);
    }
  }

  lemma InsertedAtStep(q: seq<Seg>, s: Seg, edge: int, i: nat)
    requires 0 < i <= |q| && (i == 1 ==> |q| > 1 && q[1].pos == s.pos)
    ensures InsertedAt(q, s, edge, i) == [q[0]] + InsertedAt(q[1..], s, edge, i - 1)
  {
    var t := q[1..];
    assert q == [q[0]] + t;
    assert q[i..] == t[i - 1..];
    assert q[..i] == [q[0]] + t[..i - 1];
    if i > 1 {
      assert q[..i - 1] == [q[0]] + t[..i - 2];
    }
  }
}
