/** What every step of a connection does. */
module Handover {
  import opened SeqNum
  import opened Reassembly
  import opened Delivery

  // ----- what is handed up, and what is refused

  /** The application accepts what arrives: it gets all of it, and the end behind it. */
  lemma HandUpAccepts(c: Conn, data: seq<Byte>, gotFin: bool)
    requires c.refused.Nothing?
    ensures var d := HandUp(c, data, gotFin, true);
      && d.accepted == c.accepted + data && d.refused.Nothing? && d.closed == c.closed + (if gotFin then 1 else 0)
      && d == c.(accepted := d.accepted, closed := d.closed, rcv := d.rcv)
      && d.rcv == c.rcv.(wnd := d.rcv.wnd) && (!gotFin ==> d.rcv.wnd == c.rcv.wnd)
  {
    assert c.accepted + [] == c.accepted;
  }

  /** The application refuses: all of it is held for later, the end as well; the application
      has not seen any of it. */
  lemma HandUpRefuses(c: Conn, data: seq<Byte>, gotFin: bool)
    requires c.refused.Nothing? && data != []
    ensures HandUp(c, data, gotFin, false) == c.(refused := Held(data, gotFin))
  {
  }

  /** Refused once more, nothing changes; with nothing refused there is nothing to offer. */
  lemma RetryOffers(c: Conn, accept: bool)
    ensures !accept || c.refused.Nothing? ==> Retry(c, accept) == c
    ensures accept ==> Retry(c, accept).refused.Nothing? && Retry(c, accept).accepted == c.accepted + c.Pending()
  {
    assert c.accepted + [] == c.accepted;
  }

  /** The bytes that came in sequence with this step. */
  function Arrived(c: Conn, d: Conn, peer: seq<Byte>): seq<Byte> {
    Bytes(peer, c.rcv.nxt, d.rcv.nxt)
  }

  /** What the application takes of what it is offered in a step from c to d: refused data
      if it accepts when that is offered again, then what came in sequence if it accepts that. */
  function Taken(c: Conn, ev: Event, d: Conn, peer: seq<Byte>): seq<Byte> {
    match ev
    case Segment(_, _, retryOk, acceptOk) =>
      (if retryOk then c.Pending() else []) + (if acceptOk then Arrived(c, d, peer) else [])
    case Poll(acceptOk) => if acceptOk then c.Pending() else []
    case _ => []
  }

  /** ... and what is held for it behind the step. */
  function Refused(c: Conn, ev: Event, d: Conn, peer: seq<Byte>): seq<Byte> {
    match ev
    case Segment(_, _, retryOk, acceptOk) =>
      (if retryOk then [] else c.Pending()) + (if acceptOk then [] else Arrived(c, d, peer))
    case Poll(acceptOk) => if acceptOk then [] else c.Pending()
    case _ => c.Pending()
  }

  /** Every step hands up exactly what an application that answers yes is offered, and holds
      exactly what it refused. */
  lemma StepHandsUp(c: Conn, ev: Event, peer: seq<Byte>)
    requires ConnInv(c, peer) && Legal(c, ev, peer)
    ensures var d := Step(c, ev, peer);
      && d.accepted == c.accepted + Taken(c, ev, d, peer) && d.Pending() == Refused(c, ev, d, peer)
  {
    var d := Step(c, ev, peer);
    assert c.accepted + [] == c.accepted && c.Pending() + [] == c.Pending();
    match ev
    case Segment(s, copyOk, retryOk, acceptOk) => InputHandsUp(c, s, copyOk, retryOk, acceptOk, peer);
    case Poll(acceptOk) => RetryOffers(c, acceptOk);
    case _ =>
  }

  /** What comes in sequence while nothing is refused. */
  lemma ReceivedHandsUp(b: Conn, s: Seg, copyOk: bool, acceptOk: bool, peer: seq<Byte>)
    requires ConnInv(b, peer) && From(s, peer) && b.refused.Nothing?
    ensures var d := Input(b, s, copyOk, false, acceptOk, peer); var data := Arrived(b, d, peer);
      && d.accepted == b.accepted + (if acceptOk then data else [])
      && d.Pending() == (if acceptOk then [] else data)
  {
    var e := Receive(b, s, copyOk, peer);
    ReceiveFrame(b, s, copyOk, peer);
    if s.pos < s.Tail() && b.rxOpen { ArriveMoves(b.rcv, s, copyOk, peer); }
    if b.rcv.nxt < e.rcv.nxt {
      MovedHandsUp(e, Bytes(peer, b.rcv.nxt, e.rcv.nxt), e.rcv.nxt > |peer|, acceptOk);
    }
    assert b.accepted + [] == b.accepted && Bytes(peer, b.rcv.nxt, b.rcv.nxt) == [];
  }

  lemma ReceiveFrame(b: Conn, s: Seg, copyOk: bool, peer: seq<Byte>)
    ensures var e := Receive(b, s, copyOk, peer);
      && e == b.(rcv := e.rcv, annWnd := e.annWnd, rxOpen := e.rxOpen)
      && (s.pos == s.Tail() || !b.rxOpen ==> e == b)
  {
  }

  lemma MovedHandsUp(e: Conn, data: seq<Byte>, gotFin: bool, accept: bool)
    requires e.refused.Nothing?
    ensures var d := HandUp(e, data, gotFin, accept);
      && d.accepted == e.accepted + (if accept then data else []) && d.Pending() == (if accept then [] else data)
      && d.rcv.nxt == e.rcv.nxt
  {
    assert e.accepted + [] == e.accepted;
  }

  lemma InputHandsUp(c: Conn, s: Seg, copyOk: bool, retryOk: bool, acceptOk: bool, peer: seq<Byte>)
    requires ConnInv(c, peer) && From(s, peer)
    ensures var d := Input(c, s, copyOk, retryOk, acceptOk, peer);
      && d.accepted ==
           c.accepted + ((if retryOk then c.Pending() else []) + (if acceptOk then Arrived(c, d, peer) else []))
      && d.Pending() == (if retryOk then [] else c.Pending()) + (if acceptOk then [] else Arrived(c, d, peer))
  {
    var b := Retry(c, retryOk);
    RetryOffers(c, retryOk);
    RetryKeeps(c, retryOk, peer);
    if b.refused.Nothing? {
      ReceivedHandsUp(b, s, copyOk, acceptOk, peer);
      assert c.accepted + c.Pending() + [] == c.accepted + (c.Pending() + []);
      InputAfterRetry(c, s, copyOk, retryOk, acceptOk, peer);
      var d := Input(c, s, copyOk, retryOk, acceptOk, peer);
      Together(c.accepted, if retryOk then c.Pending() else [], Arrived(c, d, peer));
    } else {
      InputWhileRefused(c, s, copyOk, retryOk, acceptOk, peer);
    }
  }

  lemma Together(a: seq<Byte>, b: seq<Byte>, c: seq<Byte>)
    ensures a + b + c == a + (b + c) && a + b + [] == a + (b + []) && [] + c == c && a + [] == a
  {
  }

  /** With the refused data gone, a segment is taken as if none had been. */
  lemma InputAfterRetry(c: Conn, s: Seg, copyOk: bool, retryOk: bool, acceptOk: bool, peer: seq<Byte>)
    requires Retry(c, retryOk).refused.Nothing?
    ensures Input(c, s, copyOk, retryOk, acceptOk, peer) == Input(Retry(c, retryOk), s, copyOk, false, acceptOk, peer)
  {
  }

  /** Nothing overtakes refused data: a segment that comes while it is still refused changes
      nothing at all. */
  lemma InputWhileRefused(c: Conn, s: Seg, copyOk: bool, retryOk: bool, acceptOk: bool, peer: seq<Byte>)
    requires ConnInv(c, peer) && Retry(c, retryOk).refused.Held?
    ensures !retryOk && Input(c, s, copyOk, retryOk, acceptOk, peer) == c && Arrived(c, c, peer) == []
  {
  }

  /** In every step of every run. */
  lemma RunHandsUp(cs: seq<Conn>, evs: seq<Event>, peer: seq<Byte>, i: nat)
    requires Run(cs, evs, peer) && i < |evs|
    ensures cs[i + 1].accepted == cs[i].accepted + Taken(cs[i], evs[i], cs[i + 1], peer)
    ensures cs[i + 1].Pending() == Refused(cs[i], evs[i], cs[i + 1], peer)
  {
    RunInv(cs, evs, peer, i);
    assert Next(cs[i], evs[i], cs[i + 1], peer);
    StepHandsUp(cs[i], evs[i], peer);
  }

  // ----- what is queued

  /** A segment beyond rcv_nxt, with nothing refused: it is queued, and nothing else happens. */
  lemma InputStores(c: Conn, s: Seg, retryOk: bool, acceptOk: bool, peer: seq<Byte>, p: int)
    requires Inv(c.rcv, peer) && From(s, peer) && s.pos < s.Tail() && c.rcv.nxt < s.pos < c.rcv.Edge()
    requires c.rxOpen && c.refused.Nothing?
    ensures var d := Input(c, s, true, retryOk, acceptOk, peer);
      && d == c.(rcv := c.rcv.(queue := d.rcv.queue), rxOpen := c.rcv.nxt <= |peer|) && Good(d.rcv.queue, peer)
      && (Covers(d.rcv.queue, p) <==>
          (Covers(c.rcv.queue, p) && !Lost(c.rcv.queue, s, p)) || Gained(c.rcv.queue, s, c.rcv.Edge(), p))
  {
    ArriveStores(c.rcv, s, peer, p);
    NotMoved(c, s, true, retryOk, acceptOk, peer);
  }

  lemma NotMoved(c: Conn, s: Seg, copyOk: bool, retryOk: bool, acceptOk: bool, peer: seq<Byte>)
    requires s.pos < s.Tail() && c.rxOpen && c.refused.Nothing? && Arrive(c.rcv, s, copyOk).nxt == c.rcv.nxt
    ensures Input(c, s, copyOk, retryOk, acceptOk, peer)
      == c.(rcv := Arrive(c.rcv, s, copyOk), rxOpen := c.rcv.nxt <= |peer|)
  {
  }

  /** A segment that lies outside of the window, or cannot be copied, changes nothing. */
  lemma InputIgnores(c: Conn, s: Seg, copyOk: bool, retryOk: bool, acceptOk: bool, peer: seq<Byte>)
    requires c.rxOpen && c.refused.Nothing? && c.rcv.nxt <= |peer| && s.pos < s.Tail()
    requires (c.rcv.nxt < s.pos && !copyOk) || s.Tail() <= c.rcv.nxt || c.rcv.Edge() <= Max(s.pos, c.rcv.nxt)
    ensures Input(c, s, copyOk, retryOk, acceptOk, peer) == c
  {
    ArriveIgnores(c.rcv, s, copyOk);
    NotMoved(c, s, copyOk, retryOk, acceptOk, peer);
  }

  /** Giving up the queue changes nothing else. */
  lemma ReclaimsQueue(c: Conn)
    ensures Forget(c).rcv.queue == [] && Forget(c).(rcv := c.rcv) == c
    ensures Forget(c).rcv.nxt == c.rcv.nxt && Forget(c).rcv.wnd == c.rcv.wnd
  {
  }

  // ----- the window that is announced

  /** Half the window, or a full segment: less than that is not worth an announcement. */
  function Worth(c: Conn): int {
    Min(TCP_WND / 2, c.mss)
  }

  /** The right edge that is announced, `e` being the real one. */
  predicate Announces(c: Conn, d: Conn, e: int) {
    d.rcv.nxt + d.annWnd == if e - c.annEdge >= Worth(c) then e else Max(c.annEdge, d.rcv.nxt)
  }

  /** The window is announced anew when data came in sequence or was given back: all of it
      if that moves the edge far enough, and else what was announced before.  In no other
      step the announced window changes. */
  lemma StepAnnounces(c: Conn, ev: Event, peer: seq<Byte>)
    requires ConnInv(c, peer) && Legal(c, ev, peer)
    ensures var d := Step(c, ev, peer);
      && (d.rcv.nxt > c.rcv.nxt ==> Announces(c, d, c.rcv.Edge()))
      && (ev.Recved? ==> Announces(c, d, d.rcv.Edge()))
      && (d.rcv.nxt == c.rcv.nxt && !ev.Recved? ==> d.annWnd == c.annWnd)
      && (!ev.Transmitted? ==> d.annEdge == c.annEdge)
      && d.mss == c.mss && d.returned == c.returned + (if ev.Recved? then ev.n else 0)
  {
    match ev
    case Segment(s, copyOk, retryOk, acceptOk) =>
      RetryKeeps(c, retryOk, peer);
      RetryFrame(c, retryOk);
      var b := Retry(c, retryOk);
      if s.pos < s.Tail() && b.rxOpen && b.refused.Nothing? {
        InputAfterRetry(c, s, copyOk, retryOk, acceptOk, peer);
        InputAnnounces(b, s, copyOk, acceptOk, peer);
      }
    case Poll(acceptOk) => RetryKeeps(c, acceptOk, peer); RetryFrame(c, acceptOk);
    case _ =>
  }

  lemma RetryFrame(c: Conn, accept: bool)
    ensures var d := Retry(c, accept);
      && d.annWnd == c.annWnd && d.annEdge == c.annEdge && d.mss == c.mss && d.returned == c.returned
  {
  }

  lemma InputAnnounces(b: Conn, s: Seg, copyOk: bool, acceptOk: bool, peer: seq<Byte>)
    requires ConnInv(b, peer) && From(s, peer) && s.pos < s.Tail() && b.rxOpen && b.refused.Nothing?
    ensures var d := Input(b, s, copyOk, false, acceptOk, peer);
      && (d.rcv.nxt > b.rcv.nxt ==> Announces(b, d, b.rcv.Edge()))
      && (d.rcv.nxt == b.rcv.nxt ==> d.annWnd == b.annWnd)
      && d.annEdge == b.annEdge && d.mss == b.mss && d.returned == b.returned
  {
    var r := Arrive(b.rcv, s, copyOk);
    ArriveMoves(b.rcv, s, copyOk, peer);
    if r.nxt == b.rcv.nxt {
      NotMoved(b, s, copyOk, false, acceptOk, peer);
    } else {
      var e := Receive(b, s, copyOk, peer);
      AnnouncedEdge(b.(rcv := r, rxOpen := r.nxt <= |peer|));
      HandUpFrame(e, Bytes(peer, b.rcv.nxt, e.rcv.nxt), e.rcv.nxt > |peer|, acceptOk);
    }
  }

  lemma HandUpFrame(c: Conn, data: seq<Byte>, gotFin: bool, accept: bool)
    ensures var d := HandUp(c, data, gotFin, accept);
      && d.annWnd == c.annWnd && d.annEdge == c.annEdge && d.mss == c.mss && d.returned == c.returned
      && d.rcv.nxt == c.rcv.nxt
  {
  }

  /** The announced window falls short of the real one by less than is worth an
      announcement; the end of the stream, once signalled, may add one to it. */
  predicate Generous(c: Conn) {
    c.rcv.Edge() - (c.rcv.nxt + c.annWnd) <= Max(Worth(c) - 1, 0) + c.closed
  }

  lemma StepIsGenerous(c: Conn, ev: Event, peer: seq<Byte>)
    requires ConnInv(c, peer) && Legal(c, ev, peer) && Generous(c)
    ensures Generous(Step(c, ev, peer))
  {
    var d := Step(c, ev, peer);
    StepAnnounces(c, ev, peer);
    StepKeeps(c, ev, peer);
    StepEdge(c, ev, peer);
  }

  /** How far the real edge moves: by what is given back, and by the end signalled. */
  lemma StepEdge(c: Conn, ev: Event, peer: seq<Byte>)
    requires ConnInv(c, peer) && Legal(c, ev, peer)
    ensures var d := Step(c, ev, peer);
      d.rcv.Edge() == c.rcv.Edge() + (if ev.Recved? then ev.n else 0) + (d.closed - c.closed)
  {
    StepKeeps(c, ev, peer);
    StepAnnounces(c, ev, peer);
  }

  /** In every state of every run the peer is granted all of the window but less than half
      of it, or a full segment; so the window is never closed for good. */
  lemma {:induction false} RunIsGenerous(cs: seq<Conn>, evs: seq<Event>, peer: seq<Byte>, i: nat)
    requires Run(cs, evs, peer) && i < |cs|
    ensures Generous(cs[i])
  {
    if i > 0 {
      RunIsGenerous(cs, evs, peer, i - 1);
      RunInv(cs, evs, peer, i - 1);
      assert Next(cs[i - 1], evs[i - 1], cs[i - 1 + 1], peer);
      StepIsGenerous(cs[i - 1], evs[i - 1], peer);
    }
  }

  /** A transmission in any state of a run tells the peer that much: with it the edge the
      peer knows lies at most that far from the real one, and nothing else changes. */
  lemma RunTellsEdge(cs: seq<Conn>, evs: seq<Event>, peer: seq<Byte>, i: nat)
    requires Run(cs, evs, peer) && i < |evs| && evs[i].Transmitted?
    ensures cs[i + 1] == cs[i].(annEdge := cs[i].rcv.nxt + cs[i].annWnd)
    ensures cs[i + 1].rcv.Edge() - cs[i + 1].annEdge <= Max(Worth(cs[i]) - 1, 0) + cs[i].closed
  {
    RunIsGenerous(cs, evs, peer, i);
    assert Next(cs[i], evs[i], cs[i + 1], peer);
  }

  /** ... when all that was received has been given back, that is all of TCP_WND but so much. */
  lemma RunReopens(cs: seq<Conn>, evs: seq<Event>, peer: seq<Byte>, i: nat)
    requires Run(cs, evs, peer) && i < |cs| && Outstanding(cs[i], peer) == 0
    ensures cs[i].annWnd >= TCP_WND - Max(Worth(cs[i]) - 1, 0) - 1
  {
    RunIsGenerous(cs, evs, peer, i);
    RunInv(cs, evs, peer, i);
  }
}
