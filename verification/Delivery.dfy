/** Delivery to the application. */
module Delivery {
  import opened SeqNum
  import opened Reassembly

  // Refused data, end of stream and the receive window, over every run of a connection.
  // Positions are unwrapped as in module Reassembly; `peer` is the stream the other end
  // sends.

  /** TCP_WND and TCP_WND_MAX without window scaling. */
  const TCP_WND: int := 32 * 1024

  datatype Refused = Nothing | Held(data: seq<Byte>, fin: bool)

  /** The receiving half of a connection, together with what the application has
      seen of it: the bytes it accepted, how many of them it gave back with
      tcp_recved, and how often it was told that the stream ended. */
  datatype Conn = Conn(
    rcv: Rcv, annWnd: int, annEdge: int, mss: nat, rxOpen: bool, refused: Refused,
    accepted: seq<Byte>, returned: nat, closed: nat)
  {
    function Pending(): seq<Byte> {
      if refused.Held? then refused.data else []
    }
  }

  /** The bytes of `peer` between two positions (a FIN is no byte). */
  function Bytes(peer: seq<Byte>, from: int, to: int): seq<Byte> {
    if 0 <= from <= to then peer[Min(from, |peer|)..Min(to, |peer|)] else []
  }

  // ----- the operations

  /** tcp_update_rcv_ann_wnd */
  function Announce(c: Conn): Conn {
    if c.rcv.Edge() >= c.annEdge + Min(TCP_WND / 2, c.mss) then c.(annWnd := c.rcv.wnd)
    else if c.rcv.nxt > c.annEdge then c.(annWnd := 0)
    else c.(annWnd := c.annEdge - c.rcv.nxt)
  }

  /** The end of the stream is signalled; its sequence number is given back. */
  function SignalEnd(c: Conn): Conn {
    c.(closed := c.closed + 1,
       rcv := if c.rcv.wnd != TCP_WND then c.rcv.(wnd := c.rcv.wnd + 1) else c.rcv)
  }

  /** tcp_process_refused_data */
  function Retry(c: Conn, accept: bool): Conn {
    match c.refused
    case Nothing => c
    case Held(data, fin) =>
      if !accept then c
      else
        var d := c.(refused := Nothing, accepted := c.accepted + data);
        if fin then SignalEnd(d) else d
  }

  /** tcp_receive: the text and the FIN of a segment. */
  function Receive(c: Conn, s: Seg, copyOk: bool, peer: seq<Byte>): Conn {
    if s.pos == s.Tail() || !c.rxOpen then c
    else
      var r := Arrive(c.rcv, s, copyOk);
      var d := c.(rcv := r, rxOpen := r.nxt <= |peer|);
      if r.nxt == c.rcv.nxt then d else Announce(d)
  }

  /** What tcp_input does with the data and the FIN that tcp_receive produced. */
  function HandUp(c: Conn, data: seq<Byte>, gotFin: bool, accept: bool): Conn {
    var d :=
      if data == [] then c
      else if accept then c.(accepted := c.accepted + data)
      else c.(refused := Held(data, false));
    if !gotFin then d
    else if d.refused.Held? then d.(refused := d.refused.(fin := true))
    else SignalEnd(d)
  }

  /** tcp_input for a segment without SYN or RST. */
  function Input(c: Conn, s: Seg, copyOk: bool, retryOk: bool, acceptOk: bool, peer: seq<Byte>): Conn {
    var d := Retry(c, retryOk);
    if d.refused.Held? && s.pos < s.Tail() then d
    else
      var e := Receive(d, s, copyOk, peer);
      if e.rcv.nxt <= d.rcv.nxt then e
      else HandUp(e, Bytes(peer, d.rcv.nxt, e.rcv.nxt), e.rcv.nxt > |peer|, acceptOk)
  }

  /** tcp_recved */
  function GiveBack(c: Conn, n: nat): Conn {
    Announce(c.(rcv := c.rcv.(wnd := Min(TCP_WND, c.rcv.wnd + n)), returned := c.returned + n))
  }

  /** tcp_free_ooseq: the pool of buffers is empty or the data waited too long. */
  function Forget(c: Conn): Conn {
    c.(rcv := c.rcv.(queue := []))
  }

  /** Every transmitted segment carries the announced window. */
  function Transmit(c: Conn): Conn {
    c.(annEdge := c.rcv.nxt + c.annWnd)
  }

  // ----- runs

  datatype Event =
    | Segment(s: Seg, copyOk: bool, retryOk: bool, acceptOk: bool)
    | Poll(acceptOk: bool)
    | Recved(n: nat)
    | Transmitted
    | Reclaimed

  function Step(c: Conn, ev: Event, peer: seq<Byte>): Conn {
    match ev
    case Segment(s, copyOk, retryOk, acceptOk) => Input(c, s, copyOk, retryOk, acceptOk, peer)
    case Poll(acceptOk) => Retry(c, acceptOk)
    case Recved(n) => GiveBack(c, n)
    case Transmitted => Transmit(c)
    case Reclaimed => Forget(c)
  }

  /** The other end sends pieces of its stream and overruns the window only where
      the stack cuts; the application gives back only what it has. */
  predicate Legal(c: Conn, ev: Event, peer: seq<Byte>) {
    match ev
    case Segment(s, _, _, _) => From(s, peer) && !StoredUntrimmed(c.rcv, s)
    case Poll(_) => true
    case Recved(n) => c.returned + n <= |c.accepted|
    case Transmitted => true
    case Reclaimed => true
  }

  /** How the connection starts after the handshake. */
  function Fresh(mss: nat): Conn {
    Conn(Rcv(0, TCP_WND, []), TCP_WND, 0, mss, true, Nothing, [], 0, 0)
  }

  // ----- the invariant

  /** The stream is received up to `nxt`: what was accepted followed by what is
      held for the application is exactly that prefix. */
  predicate StreamInv(c: Conn, peer: seq<Byte>) {
    && 0 <= c.rcv.nxt
    && c.accepted + c.Pending() == Bytes(peer, 0, c.rcv.nxt)
    && (c.rxOpen <==> c.rcv.nxt <= |peer|)
    && (c.refused.Held? ==> c.refused.data != [] && (c.refused.fin <==> c.rcv.nxt > |peer|))
    && c.closed == (if c.rcv.nxt > |peer| && c.refused.Nothing? then 1 else 0)
  }

  /** What was received and is not given back; a FIN counts until it is signalled. */
  function Outstanding(c: Conn, peer: seq<Byte>): int {
    Min(c.rcv.nxt, |peer|) - c.returned + if c.rcv.nxt > |peer| && c.closed == 0 then 1 else 0
  }

  /** The window and what is outstanding add up to TCP_WND. */
  predicate WindowInv(c: Conn, peer: seq<Byte>) {
    && c.returned <= |c.accepted|
    && c.rcv.wnd + Outstanding(c, peer) == TCP_WND
    && 0 <= c.annWnd
    && c.annEdge <= c.rcv.nxt + c.annWnd <= c.rcv.Edge()
  }

  predicate ConnInv(c: Conn, peer: seq<Byte>) {
    Inv(c.rcv, peer) && StreamInv(c, peer) && WindowInv(c, peer)
  }

  /** Nothing that the other end or the application was told is taken back. */
  predicate Grows(c: Conn, d: Conn) {
    && c.rcv.nxt <= d.rcv.nxt && c.rcv.Edge() <= d.rcv.Edge()
    && c.annEdge <= d.annEdge
    && c.accepted <= d.accepted
    && c.accepted + c.Pending() <= d.accepted + d.Pending()
    && c.closed <= d.closed
  }

  lemma GrowsFurther(a: Conn, b: Conn, c: Conn)
    requires Grows(a, b) && Grows(b, c)
    ensures Grows(a, c)
  {
    PrefixOf(a.accepted, b.accepted, c.accepted);
    PrefixOf(a.accepted + a.Pending(), b.accepted + b.Pending(), c.accepted + c.Pending());
  }

  lemma PrefixOf(a: seq<Byte>, b: seq<Byte>, c: seq<Byte>)
    requires a <= b && b <= c
    ensures a <= c
  {
    assert a == b[..|a|] == c[..|a|];
  }

  lemma FreshInv(mss: nat, peer: seq<Byte>)
    ensures ConnInv(Fresh(mss), peer)
  {
  }

  lemma RetryKeeps(c: Conn, accept: bool, peer: seq<Byte>)
    requires ConnInv(c, peer)
    ensures var d := Retry(c, accept);
      && ConnInv(d, peer) && Grows(c, d)
      && d.rcv.nxt == c.rcv.nxt && d.rcv.queue == c.rcv.queue && d.rxOpen == c.rxOpen
      && (d.rcv == c.rcv || !d.rxOpen)
      && (c.refused.Held? && d.refused.Held? ==> d == c)
  {
    if c.refused.Held? && accept {
      assert c.accepted + c.refused.data + [] == c.accepted + c.refused.data;
      if c.refused.fin { WiderWindow(c.rcv, c.rcv.wnd + 1, peer); }
    }
  }

  /** A wider window keeps the reassembly invariant. */
  lemma WiderWindow(st: Rcv, wnd: int, peer: seq<Byte>)
    requires Inv(st, peer) && st.wnd <= wnd
    ensures Inv(st.(wnd := wnd), peer)
  {
    WiderWithin(st.queue, st.Edge(), st.nxt + wnd);
  }

  lemma {:induction false} WiderWithin(q: seq<Seg>, a: int, b: int)
    requires Within(q, a) && a <= b
    ensures Within(q, b)
  {
    if q != [] { WiderWithin(q[1..], a, b); }
  }

  /** An arrival moves `rcv_nxt` and the window together, or neither. */
  lemma ArriveMoves(st: Rcv, s: Seg, copyOk: bool, peer: seq<Byte>)
    requires Inv(st, peer) && From(s, peer) && s.pos < s.Tail()
    ensures var r := Arrive(st, s, copyOk);
      && st.nxt <= r.nxt && r.Edge() == st.Edge()
  {
    var t := TrimFront(s, st.nxt);
    if st.nxt <= t.pos < st.Edge() && t.pos == st.nxt {
      ReachIsMaximal(TrimBack(t, st.wnd).Tail(), st.queue, 0);
    }
  }

  /** The announced window stays within the real one, and its right edge does not
      move left at the next transmission. */
  lemma AnnounceKeeps(c: Conn)
    requires c.annEdge <= c.rcv.Edge() && 0 <= c.rcv.wnd
    ensures var d := Announce(c);
      && 0 <= d.annWnd <= d.rcv.wnd && d.annEdge <= d.rcv.nxt + d.annWnd
      && d == c.(annWnd := d.annWnd)
  {
  }

  /** Silly windows are not announced: the right edge the next transmission carries stays
      where it was told to be, or lies behind what was received, or moves right to the real
      edge by half the window or a full segment at least. */
  lemma AnnouncedEdge(c: Conn)
    ensures var d := Announce(c); var edge := d.rcv.nxt + d.annWnd;
      || edge == Max(c.annEdge, c.rcv.nxt)
      || (edge == c.rcv.Edge() && edge - c.annEdge >= Min(TCP_WND / 2, c.mss))
    ensures var d := Announce(c);
      c.rcv.Edge() - c.annEdge < Min(TCP_WND / 2, c.mss) ==> d.rcv.nxt + d.annWnd == Max(c.annEdge, c.rcv.nxt)
    ensures c.rcv.Edge() - c.annEdge >= Min(TCP_WND / 2, c.mss) ==> Announce(c).annWnd == c.rcv.wnd
  {
  }

  lemma HandUpKeeps(b: Conn, e: Conn, accept: bool, peer: seq<Byte>)
    requires ConnInv(b, peer) && Inv(e.rcv, peer) && b.refused.Nothing? && b.rxOpen
    requires e == b.(rcv := e.rcv, annWnd := e.annWnd, rxOpen := e.rcv.nxt <= |peer|)
    requires b.rcv.nxt < e.rcv.nxt && e.rcv.Edge() == b.rcv.Edge()
    requires 0 <= e.annWnd <= e.rcv.wnd && e.annEdge <= e.rcv.nxt + e.annWnd
    ensures var d := HandUp(e, Bytes(peer, b.rcv.nxt, e.rcv.nxt), e.rcv.nxt > |peer|, accept);
      ConnInv(d, peer) && Grows(b, d)
  {
    var data := Bytes(peer, b.rcv.nxt, e.rcv.nxt);
    assert Bytes(peer, 0, b.rcv.nxt) + data == Bytes(peer, 0, e.rcv.nxt);
    assert b.accepted + [] == b.accepted == Bytes(peer, 0, b.rcv.nxt);
    assert data == [] ==> Bytes(peer, 0, e.rcv.nxt) == b.accepted;
    assert b.accepted + data + [] == b.accepted + data;
    if e.rcv.nxt > |peer| { WiderWindow(e.rcv, e.rcv.wnd + 1, peer); }
  }

  lemma InputKeeps(c: Conn, s: Seg, copyOk: bool, retryOk: bool, acceptOk: bool, peer: seq<Byte>)
    requires ConnInv(c, peer) && From(s, peer) && !StoredUntrimmed(c.rcv, s)
    ensures var d := Input(c, s, copyOk, retryOk, acceptOk, peer);
      ConnInv(d, peer) && Grows(c, d)
  {
    RetryKeeps(c, retryOk, peer);
    var b := Retry(c, retryOk);
    if b.rxOpen && s.pos < s.Tail() && b.refused.Nothing? {
      ReceivedKeeps(b, s, copyOk, acceptOk, peer);
    }
  }

  lemma ReceivedKeeps(b: Conn, s: Seg, copyOk: bool, acceptOk: bool, peer: seq<Byte>)
    requires ConnInv(b, peer) && b.refused.Nothing? && b.rxOpen && s.pos < s.Tail()
    requires From(s, peer) && !StoredUntrimmed(b.rcv, s)
    ensures var e := Receive(b, s, copyOk, peer);
      var d := if e.rcv.nxt <= b.rcv.nxt then e
               else HandUp(e, Bytes(peer, b.rcv.nxt, e.rcv.nxt), e.rcv.nxt > |peer|, acceptOk);
      ConnInv(d, peer) && Grows(b, d)
  {
    ArriveKeepsInv(b.rcv, s, copyOk, peer);
    ArriveMoves(b.rcv, s, copyOk, peer);
    var r := Arrive(b.rcv, s, copyOk);
    var d := b.(rcv := r, rxOpen := r.nxt <= |peer|);
    if b.rcv.nxt < r.nxt {
      AnnounceKeeps(d);
      HandUpKeeps(b, Announce(d), acceptOk, peer);
    }
  }

  /** Progress: a segment that holds the next byte expected, while the window is open and
      the application accepts, is delivered at once, with all that is queued behind it. */
  lemma InputDelivers(c: Conn, s: Seg, copyOk: bool, peer: seq<Byte>)
    requires ConnInv(c, peer) && From(s, peer) && c.rxOpen && !StoredUntrimmed(c.rcv, s)
    requires s.pos <= c.rcv.nxt < s.Tail() && 0 < c.rcv.wnd
    ensures var d := Input(c, s, copyOk, true, true, peer);
      && c.rcv.nxt < d.rcv.nxt == Arrive(c.rcv, s, copyOk).nxt && d.refused.Nothing?
      && d.accepted == Bytes(peer, 0, d.rcv.nxt) && (d.closed == 1 <==> d.rcv.nxt > |peer|)
  {
    InputKeeps(c, s, copyOk, true, true, peer);
    InputAccepts(c, s, copyOk, peer);
    var d := Input(c, s, copyOk, true, true, peer);
    assert d.accepted + [] == d.accepted;
  }

  lemma InputAccepts(c: Conn, s: Seg, copyOk: bool, peer: seq<Byte>)
    requires ConnInv(c, peer) && From(s, peer) && c.rxOpen && s.pos <= c.rcv.nxt < s.Tail() && 0 < c.rcv.wnd
    ensures var d := Input(c, s, copyOk, true, true, peer);
      c.rcv.nxt < d.rcv.nxt == Arrive(c.rcv, s, copyOk).nxt && d.refused.Nothing?
  {
    RetryKeeps(c, true, peer);
    ArriveIsMaximal(c.rcv, s, copyOk, peer, 0);
    ReceiveArrives(Retry(c, true), s, copyOk, peer);
    var b := Retry(c, true);
    var e := Receive(b, s, copyOk, peer);
    AcceptedLeavesNothing(e, Bytes(peer, b.rcv.nxt, e.rcv.nxt), e.rcv.nxt > |peer|);
  }

  /** What the application accepts is not held. */
  lemma AcceptedLeavesNothing(c: Conn, data: seq<Byte>, gotFin: bool)
    requires c.refused.Nothing?
    ensures var d := HandUp(c, data, gotFin, true); d.refused.Nothing? && d.rcv.nxt == c.rcv.nxt
  {
  }

  lemma ReceiveArrives(b: Conn, s: Seg, copyOk: bool, peer: seq<Byte>)
    requires b.rxOpen && s.pos < s.Tail()
    ensures Receive(b, s, copyOk, peer).rcv == Arrive(b.rcv, s, copyOk)
    ensures Receive(b, s, copyOk, peer).refused == b.refused
  {
  }

  /** Giving back is counted exactly unless it exceeds what is outstanding, in
      which case the window is clamped. */
  lemma GiveBackConservesIff(c: Conn, n: nat, peer: seq<Byte>)
    requires ConnInv(c, peer)
    ensures var d := GiveBack(c, n);
      && d.rcv.wnd - c.rcv.wnd == Min(n, Outstanding(c, peer))
      && (d.rcv.wnd - c.rcv.wnd == n <==> n <= Outstanding(c, peer))
    ensures GiveBack(c, n).rcv.wnd <= TCP_WND && Outstanding(c, peer) == TCP_WND - c.rcv.wnd
  {
  }

  lemma AcceptedIsReceived(c: Conn, peer: seq<Byte>)
    requires ConnInv(c, peer)
    ensures |c.accepted| <= Min(c.rcv.nxt, |peer|)
  {
    assert |c.accepted + c.Pending()| == Min(c.rcv.nxt, |peer|);
  }

  lemma GiveBackKeeps(c: Conn, n: nat, peer: seq<Byte>)
    requires ConnInv(c, peer) && c.returned + n <= |c.accepted|
    ensures ConnInv(GiveBack(c, n), peer) && Grows(c, GiveBack(c, n))
  {
    var d := c.(rcv := c.rcv.(wnd := c.rcv.wnd + n), returned := c.returned + n);
    AcceptedIsReceived(c, peer);
    WiderWindow(c.rcv, c.rcv.wnd + n, peer);
    AnnounceKeeps(d);
    assert GiveBack(c, n) == Announce(d);
    SameStream(c, Announce(d), peer);
  }

  /** The window does not matter for the stream. */
  lemma SameStream(c: Conn, d: Conn, peer: seq<Byte>)
    requires StreamInv(c, peer) && d.rcv.nxt == c.rcv.nxt
    requires d == c.(rcv := d.rcv, annWnd := d.annWnd, annEdge := d.annEdge, returned := d.returned)
    ensures StreamInv(d, peer) && d.Pending() == c.Pending()
  {
  }

  /** Every step keeps the invariant, and takes back nothing. */
  lemma StepKeeps(c: Conn, ev: Event, peer: seq<Byte>)
    requires ConnInv(c, peer) && Legal(c, ev, peer)
    ensures ConnInv(Step(c, ev, peer), peer) && Grows(c, Step(c, ev, peer))
  {
    match ev
    case Segment(s, copyOk, retryOk, acceptOk) => InputKeeps(c, s, copyOk, retryOk, acceptOk, peer);
    case Poll(acceptOk) => RetryKeeps(c, acceptOk, peer);
    case Recved(n) => GiveBackKeeps(c, n, peer);
    case Transmitted =>
    case Reclaimed =>
  }

  /** A run: `cs` are the states before and after the events. */
  predicate Run(cs: seq<Conn>, evs: seq<Event>, peer: seq<Byte>) {
    && |cs| == |evs| + 1
    && cs[0] == Fresh(cs[0].mss)
    && forall i {:trigger evs[i]} :: 0 <= i < |evs| ==> Next(cs[i], evs[i], cs[i + 1], peer)
  }

  predicate Next(c: Conn, ev: Event, d: Conn, peer: seq<Byte>) {
    Legal(c, ev, peer) && d == Step(c, ev, peer)
  }

  lemma {:induction false} RunInv(cs: seq<Conn>, evs: seq<Event>, peer: seq<Byte>, i: nat)
    requires Run(cs, evs, peer) && i < |cs|
    ensures ConnInv(cs[i], peer)
  {
    if i == 0 {
      FreshInv(cs[0].mss, peer);
    } else {
      RunInv(cs, evs, peer, i - 1);
      assert Next(cs[i - 1], evs[i - 1], cs[i - 1 + 1], peer);
      StepKeeps(cs[i - 1], evs[i - 1], peer);
    }
  }

  /** Segments in any order, repeated, overlapping, interleaved with refusals, give
      the application exactly a prefix of the peer's stream, held data included;
      the end is signalled at most once, and only when all of it is accepted. */
  lemma RunDeliversPrefix(cs: seq<Conn>, evs: seq<Event>, peer: seq<Byte>, i: nat)
    requires Run(cs, evs, peer) && i < |cs|
    ensures cs[i].accepted <= peer
    ensures cs[i].accepted + cs[i].Pending() == Bytes(peer, 0, cs[i].rcv.nxt)
    ensures cs[i].closed <= 1
    ensures cs[i].closed == 1 <==> cs[i].rcv.nxt == |peer| + 1 && cs[i].accepted == peer
  {
    RunInv(cs, evs, peer, i);
    var c := cs[i];
    assert c.accepted <= c.accepted + c.Pending();
    if c.closed == 1 {
      assert c.accepted + [] == c.accepted;
    } else if c.rcv.nxt == |peer| + 1 {
      assert |c.accepted + c.refused.data| == |peer|;
    }
  }

  lemma RunStepGrows(cs: seq<Conn>, evs: seq<Event>, peer: seq<Byte>, i: nat)
    requires Run(cs, evs, peer) && i < |evs|
    ensures Grows(cs[i], cs[i + 1])
  {
    RunInv(cs, evs, peer, i);
    assert Next(cs[i], evs[i], cs[i + 1], peer);
    StepKeeps(cs[i], evs[i], peer);
  }

  /** From any state of a run on, right edges do not move left and nothing handed
      up is changed or overtaken. */
  lemma {:induction false} RunGrows(cs: seq<Conn>, evs: seq<Event>, peer: seq<Byte>, i: nat, j: nat)
    requires Run(cs, evs, peer) && i <= j < |cs|
    ensures Grows(cs[i], cs[j])
    decreases j
  {
    if i < j {
      RunGrows(cs, evs, peer, i, j - 1);
      RunStepGrows(cs, evs, peer, j - 1);
      GrowsFurther(cs[i], cs[j - 1], cs[j]);
    }
  }
}
