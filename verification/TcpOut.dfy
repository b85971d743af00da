/** The send path as it runs: wrapped sequence numbers, counters kept step by step,
    changes recorded in locals and committed at the end.  Every method is tied to the
    functions of module SendQueue; `iss` is the initial sequence number.  A failing
    allocation is a budget that runs out: whatever a call has made by then is dropped,
    and the queues and counters stay as they were. */
module TcpOut {
  import opened SeqNum
  import opened SendQueue
  import opened SendRuns

  datatype TxSeg = TxSeg(seqno: U32, data: seq<Byte>, syn: bool, fin: bool, bufs: seq<nat>) {
    /** TCP_TCPLEN */
    function TcpLen(): nat {
      |data| + if syn || fin then 1 else 0
    }
  }

  datatype Err = ErrOk | ErrMem | ErrVal | ErrConn

  const SPAN: int := 0x4000_0000

  function Wrapped(s: Seg, iss: int): TxSeg {
    TxSeg(Wrap(iss + s.pos), s.data, s.syn, s.fin, s.bufs)
  }

  predicate Models(segs: seq<TxSeg>, q: seq<Seg>, iss: int) {
    && |segs| == |q|
    && forall i :: 0 <= i < |q| ==> segs[i] == Wrapped(q[i], iss)
  }

  /** What phases 1 and 2 of tcp_write found out about the last unsent segment. */
  datatype Filling = Filling(ok: bool, used: nat, chained: nat, extend: bool, oversize: nat, mem: nat, queuelen: nat)

  /** What phase 3 made. */
  datatype Making = Making(ok: bool, queue: seq<TxSeg>, oversize: nat, mem: nat, queuelen: nat)

  /** The sending half of a control block. */
  class TcpPcb {
    var unacked: seq<TxSeg>
    var unsent: seq<TxSeg>
    var sndLbb: U32
    var sndNxt: U32
    var lastack: U32
    var sndBuf: nat
    var sndQueuelen: nat
    var unsentOversize: nat
    var mss: nat
    var sndWndMax: nat
    var finSent: bool
    var nagleMemErr: bool

    const iss: int
    ghost var view: Snd

    ghost predicate Coupled()
      reads this
    {
      && Models(unacked, view.unacked, iss) && Models(unsent, view.unsent, iss)
      && sndLbb == Wrap(iss + view.lbb) && sndNxt == Wrap(iss + view.nxt) && lastack == Wrap(iss + view.lastack)
      && sndBuf == view.sndBuf && sndQueuelen == view.queuelen && unsentOversize == view.oversize
      && mss == view.mss && sndWndMax == view.wndMax && finSent == view.finFlag
    }

    ghost predicate Valid()
      reads this
    {
      Coupled() && Sound(view)
    }

    constructor (iss: int, mss: nat, sndWndMax: nat)
      requires 0 < mss < 0x1_0000
      ensures Valid() && view == Fresh(mss, sndWndMax) && this.iss == iss
    {
      unacked, unsent := [], [];
      sndLbb, sndNxt, lastack := Wrap(iss), Wrap(iss), Wrap(iss);
      sndBuf, sndQueuelen, unsentOversize := SND_BUF, 0, 0;
      this.mss, this.sndWndMax, finSent, nagleMemErr := mss, sndWndMax, false, false;
      this.iss, view := iss, Fresh(mss, sndWndMax);
      FreshSound(mss, sndWndMax);
    }

    method MssLocal() returns (m: nat)
      requires Coupled()
      ensures m == view.MssLocal()
    {
      m := Min(mss, Min(sndWndMax / 2, 0xffff));
      if m == 0 {
        m := mss;
      }
    }

    /** The allocations of phase 2. */
    ghost function ChainNeeds(len: nat, a: WriteArgs): nat
      reads this
      requires SpareFits(view)
    {
      if Chained(view, len) > 0 && !Extends(view, len, a) then 1 else 0
    }

    /** What phases 1 and 2 decide. */
    ghost predicate Filled(r: Filling, len: nat, a: WriteArgs, budget: nat)
      reads this
      requires SpareFits(view)
    {
      && r.ok && r.used == Used(view, len) && r.chained == Chained(view, len)
      && r.extend == (Chained(view, len) > 0 && Extends(view, len, a))
      && r.mem == budget - ChainNeeds(len, a) && r.queuelen == view.queuelen + ChainNeeds(len, a)
      && r.oversize == (if Chained(view, len) > 0 && a.copy
                        then Spare(Chained(view, len), Room(view) - Used(view, len), Roomy(view, a, true))
                        else view.oversize - Used(view, len))
    }

    /** Phases 1 and 2: bytes for the spare room of the last pbuf, then for a pbuf
        chained to it. */
    method FillLast(len: nat, a: WriteArgs, mssLocal: nat, budget: nat) returns (r: Filling)
      requires Coupled() && SpareFits(view) && mssLocal == view.MssLocal()
      ensures r.ok <==> ChainNeeds(len, a) <= budget
      ensures r.ok ==> Filled(r, len, a, budget)
    {
      r := Filling(true, 0, 0, false, 0, budget, sndQueuelen);
      if unsent != [] {
        var lastLen := |unsent[|unsent| - 1].data|;
        var space := mssLocal - lastLen;
        var oversize := unsentOversize;
        var used := 0;
        if oversize > 0 {
          used := Min(space, Min(oversize, len));
          oversize := oversize - used;
          space := space - used;
        }
        r := r.(used := used, oversize := oversize);
        if used < len && space > 0 && lastLen > 0 {
          var seglen := Min(space, len - used);
          if !a.copy && a.contiguous && used == 0 {
            r := r.(extend := true);
          } else {
            if r.mem == 0 {
              return r.(ok := false);
            }
            r := r.(mem := r.mem - 1, queuelen := r.queuelen + 1);
            if a.copy {
              r := r.(oversize := Spare(seglen, space, a.more || (!a.nodelay && (unsent != [] || unacked != []))));
            }
          }
          r := r.(chained := seglen);
        }
      }
    }

    /** `r` holds the segments `done` made from `f` on. */
    ghost predicate Made(r: Making, done: seq<Seg>, f: Filling, a: WriteArgs, mssLocal: nat)
      reads this
    {
      && r.ok && Models(r.queue, done, iss)
      && r.queuelen == f.queuelen + BufCount(done)
      && r.mem == f.mem - BufCount(done) - |done|
      && (done != [] ==> r.queuelen <= SND_QUEUELEN)
      && r.oversize == (if done != [] && a.copy
                        then Spare(|done[|done| - 1].data|, mssLocal, Roomy(view, a, |done| == 1))
                        else f.oversize)
    }

    /** Phase 3 for one segment. */
    method MakeSeg(d: seq<Byte>, pos: nat, a: WriteArgs, mssLocal: nat, m: nat, r: Making,
                   ghost s: Seg, ghost done: seq<Seg>, ghost f: Filling)
        returns (r': Making)
      requires Coupled() && Made(r, done, f, a, mssLocal)
      requires m <= |d|
      requires s == Seg(view.lbb + pos, d[..m], false, false, if a.copy then [m] else [0, m])
      ensures r'.ok <==> (|s.bufs| + 1 <= r.mem && r.queuelen + |s.bufs| <= SND_QUEUELEN)
      ensures r'.ok ==> Made(r', done + [s], f, a, mssLocal)
    {
      var bufs: seq<nat> := if a.copy then [m] else [0, m];
      if r.mem < |bufs| || r.queuelen + |bufs| > SND_QUEUELEN || r.mem == |bufs| {
        return r.(ok := false);
      }
      WrapAdd(iss + view.lbb, pos);
      BufCountOf(done, s);
      var oversize := if a.copy
        then Spare(m, mssLocal, a.more || (!a.nodelay && (r.queue != [] || unsent != [] || unacked != [])))
        else r.oversize;
      r' := Making(true, r.queue + [TxSeg(Add32(sndLbb, pos), d[..m], false, false, bufs)], oversize,
                   r.mem - |bufs| - 1, r.queuelen + |bufs|);
    }

    /** `done` is made and `togo` is still to be made, out of the `left` bytes. */
    ghost predicate Making1(r: Making, done: seq<Seg>, togo: seq<Seg>, segs: seq<Seg>, left: seq<Byte>, pos: nat,
                            f: Filling, a: WriteArgs, mssLocal: nat)
      reads this
      requires 0 < mssLocal
    {
      && togo == Chunk(left, view.lbb + pos, mssLocal, a.copy)
      && segs == done + togo && BufCount(segs) == BufCount(done) + BufCount(togo)
      && Made(r, done, f, a, mssLocal)
    }

    /** The segments are made exactly if the memory and the limit suffice. */
    ghost predicate MadeIff(r: Making, segs: seq<Seg>, f: Filling, a: WriteArgs, mssLocal: nat)
      reads this
    {
      && (r.ok <==> BufCount(segs) + |segs| <= f.mem && (segs != [] ==> f.queuelen + BufCount(segs) <= SND_QUEUELEN))
      && (r.ok ==> Made(r, segs, f, a, mssLocal))
    }

    /** One round of phase 3. */
    method MakeNext(left: seq<Byte>, pos: nat, a: WriteArgs, mssLocal: nat, r: Making,
                    ghost done: seq<Seg>, ghost togo: seq<Seg>, ghost segs: seq<Seg>, ghost f: Filling)
        returns (r': Making, m: nat)
      requires Coupled() && 0 < mssLocal && left != [] && Making1(r, done, togo, segs, left, pos, f, a, mssLocal)
      ensures m == Min(|left|, mssLocal) && togo != []
      ensures !r'.ok ==> MadeIff(r', segs, f, a, mssLocal)
      ensures r'.ok ==> Making1(r', done + [togo[0]], togo[1..], segs, left[m..], pos + m, f, a, mssLocal)
    {
      m := Min(|left|, mssLocal);
      Shift(done, togo);
      r' := MakeSeg(left, pos, a, mssLocal, m, r, togo[0], done, f);
    }

    /** Phase 3: new segments for what is left of the bytes. */
    method MakeSegs(d: seq<Byte>, start: nat, a: WriteArgs, mssLocal: nat, f: Filling) returns (r: Making)
      requires Coupled() && 0 < mssLocal && f.ok
      ensures MadeIff(r, Chunk(d, view.lbb + start, mssLocal, a.copy), f, a, mssLocal)
    {
      ghost var segs := Chunk(d, view.lbb + start, mssLocal, a.copy);
      ghost var done, togo: seq<Seg> := [], segs;
      r := Making(true, [], f.oversize, f.mem, f.queuelen);
      var left, pos: nat := d, start;
      NothingMade(r, segs, f, a, mssLocal);
      while left != []
        invariant Making1(r, done, togo, segs, left, pos, f, a, mssLocal)
        decreases |left|
      {
        var m;
        r, m := MakeNext(left, pos, a, mssLocal, r, done, togo, segs, f);
        if !r.ok {
          return;
        }
        done, togo := done + [togo[0]], togo[1..];
        left, pos := left[m..], pos + m;
      }
      AllMade(r, done, togo, segs, pos, f, a, mssLocal);
    }

    lemma AllMade(r: Making, done: seq<Seg>, togo: seq<Seg>, segs: seq<Seg>, pos: nat, f: Filling, a: WriteArgs,
                  mssLocal: nat)
      requires 0 < mssLocal && Making1(r, done, togo, segs, [], pos, f, a, mssLocal)
      ensures MadeIff(r, segs, f, a, mssLocal)
    {
      assert togo == [] && done + [] == done;
    }

    lemma NothingMade(r: Making, segs: seq<Seg>, f: Filling, a: WriteArgs, mssLocal: nat)
      requires f.ok && r == Making(true, [], f.oversize, f.mem, f.queuelen)
      ensures Made(r, [], f, a, mssLocal) && [] + segs == segs && BufCount(segs) == BufCount([]) + BufCount(segs)
    {
    }

    /** What phases 1 to 3 together decide, before anything is changed. */
    ghost predicate Planned(d: seq<Byte>, a: WriteArgs, f: Filling, m: Making)
      reads this
      requires SpareFits(view)
    {
      && f.used == Used(view, |d|) && f.chained == Chained(view, |d|)
      && f.extend == (f.chained > 0 && Extends(view, |d|, a))
      && Models(m.queue, NewSegs(view, d, a), iss)
      && m.queuelen == view.queuelen + NewBufs(view, d, a) && m.oversize == NewOversize(view, d, a)
    }

    method Plan(d: seq<Byte>, a: WriteArgs, budget: nat) returns (ok: bool, f: Filling, m: Making)
      requires Coupled() && SpareFits(view)
      ensures ok <==> Allocations(view, d, a) <= budget
                      && (NewSegs(view, d, a) != [] ==> view.queuelen + NewBufs(view, d, a) <= SND_QUEUELEN)
      ensures ok ==> Planned(d, a, f, m)
    {
      var mssLocal := MssLocal();
      f := FillLast(|d|, a, mssLocal, budget);
      ok, m := f.ok, Making(false, [], 0, 0, 0);
      if f.ok {
        var pos := f.used + f.chained;
        m := MakeSegs(d[pos..], pos, a, mssLocal, f);
        PlannedIs(d, a, budget, f, m);
        ok := m.ok;
      }
    }

    lemma PlannedIs(d: seq<Byte>, a: WriteArgs, budget: nat, f: Filling, m: Making)
      requires SpareFits(view) && Filled(f, |d|, a, budget)
      requires MadeIff(m, NewSegs(view, d, a), f, a, view.MssLocal())
      ensures m.ok <==> Allocations(view, d, a) <= budget
                        && (NewSegs(view, d, a) != [] ==> view.queuelen + NewBufs(view, d, a) <= SND_QUEUELEN)
      ensures m.ok ==> Planned(d, a, f, m)
    {
      assert NewBufs(view, d, a) == BufCount(NewSegs(view, d, a)) + ChainNeeds(|d|, a);
    }

    /** The last unsent segment grows in its last pbuf and by a new one. */
    method GrowTail(d: seq<Byte>, f: Filling) returns (last: TxSeg)
      requires Coupled() && unsent != [] && f.used + f.chained == |d|
      ensures last == Wrapped(Grown(Last(view), d, f.used, f.chained, f.extend), iss)
    {
      last := unsent[|unsent| - 1];
      var bufs := if f.used > 0 then GrowLast(last.bufs, f.used) else last.bufs;
      if f.chained > 0 {
        bufs := if f.extend then GrowLast(bufs, f.chained) else bufs + [f.chained];
      }
      last := last.(data := last.data + d, bufs := bufs);
    }

    /** The unsent queue with the grown last segment and the new ones. */
    method NewQueue(d: seq<Byte>, a: WriteArgs, f: Filling, m: Making) returns (q: seq<TxSeg>)
      requires Coupled() && SpareFits(view) && Planned(d, a, f, m)
      ensures Models(q, NewUnsent(view, d, a), iss)
    {
      if unsent == [] {
        q := m.queue;
      } else {
        ghost var init, g := NewUnsentShape(view, d, a);
        var last := GrowTail(d[..f.used + f.chained], f);
        q := unsent[..|unsent| - 1] + ([last] + m.queue);
        ModelsConcat([last], m.queue, [g], NewSegs(view, d, a), iss);
        ModelsConcat(unsent[..|unsent| - 1], [last] + m.queue, init, [g] + NewSegs(view, d, a), iss);
      }
    }

    /** All phases were successful: the changes are made. */
    method Commit(d: seq<Byte>, queue: seq<TxSeg>, queuelen: nat, oversize: nat, ghost w: Snd)
      requires Coupled() && |d| <= sndBuf
      requires Models(queue, w.unsent, iss) && queuelen == w.queuelen && oversize == w.oversize
      requires w == view.(unsent := w.unsent, lbb := view.lbb + |d|, sndBuf := view.sndBuf - |d|,
                          queuelen := w.queuelen, oversize := w.oversize, written := view.written + d)
      modifies this
      ensures Coupled() && view == w
      ensures unchanged(`nagleMemErr, `finSent)
    {
      WrapAdd(iss + view.lbb, |d|);
      unsent := queue;
      sndLbb := Add32(sndLbb, |d|);
      sndBuf := sndBuf - |d|;
      sndQueuelen := queuelen;
      unsentOversize := oversize;
      view := w;
    }

    /** The three phases and their commit, or nothing. */
    method Enqueue(d: seq<Byte>, a: WriteArgs, budget: nat) returns (ok: bool)
      requires Coupled() && SpareFits(view) && |d| <= sndBuf
      modifies this
      ensures Coupled()
      ensures ok <==> (Allocations(old(view), d, a) <= budget
        && (NewSegs(old(view), d, a) != [] ==> old(view).queuelen + NewBufs(old(view), d, a) <= SND_QUEUELEN))
      ensures ok ==> view == Written(old(view), d, a)
      ensures !ok ==> unchanged(this)
      ensures unchanged(`nagleMemErr, `finSent)
    {
      var f, m;
      ok, f, m := Plan(d, a, budget);
      if ok {
        var queue := NewQueue(d, a, f, m);
        Commit(d, queue, m.queuelen, m.oversize, Written(view, d, a));
      }
    }

    /** tcp_write.  Memory for `budget` allocations is there; the write goes through
        exactly if that and the limits suffice, and otherwise changes nothing.  The queues
        stay in order unless it lets a segment grow that an unacked one follows. */
    method Write(d: seq<Byte>, a: WriteArgs, budget: nat) returns (err: Err)
      requires Valid()
      modifies this
      ensures Coupled()
      ensures Valid() <==> err != ErrOk || AtEnd(old(view)) || Fill(old(view), |d|) == 0
      ensures err == if old(finSent) then ErrConn else if WriteSucceeds(old(view), d, a, budget) then ErrOk else ErrMem
      ensures view == if err == ErrOk then Written(old(view), d, a) else old(view)
      ensures err != ErrOk ==> unchanged(`unacked, `unsent, `sndLbb, `sndNxt, `lastack,
        `sndBuf, `sndQueuelen, `unsentOversize, `finSent)
      ensures nagleMemErr == (old(nagleMemErr) || err == ErrMem)
    {
      ghost var st := view;
      err := TryWrite(d, a, budget);
      if err == ErrOk {
        Affordable(st, d);
        WriteKeepsIff(st, d, a);
      }
    }

    method TryWrite(d: seq<Byte>, a: WriteArgs, budget: nat) returns (err: Err)
      requires Coupled() && SpareFits(view)
      modifies this
      ensures Coupled()
      ensures err == if old(finSent) then ErrConn else if WriteSucceeds(old(view), d, a, budget) then ErrOk else ErrMem
      ensures view == if err == ErrOk then Written(old(view), d, a) else old(view)
      ensures err != ErrOk ==> unchanged(`unacked, `unsent, `sndLbb, `sndNxt, `lastack,
        `sndBuf, `sndQueuelen, `unsentOversize, `finSent)
      ensures nagleMemErr == (old(nagleMemErr) || err == ErrMem)
    {
      if finSent {
        return ErrConn;
      }
      if d != [] && (|d| > sndBuf || sndQueuelen >= SND_QUEUELEN) {
        nagleMemErr := true;
        return ErrMem;
      }
      EmptyWrite(view, a);
      var ok := Enqueue(d, a, budget);
      if !ok {
        nagleMemErr := true;
        return ErrMem;
      }
      return ErrOk;
    }

    /** tcp_enqueue_flags; `memOk` tells whether the pbuf and the segment are there. */
    method EnqueueFlags(syn: bool, fin: bool, memOk: bool) returns (err: Err)
      requires Coupled() && (syn || fin)
      modifies this
      ensures Coupled() && err == (if memOk then ErrOk else ErrMem)
      ensures view == if memOk then Enqueued(old(view), syn, fin) else old(view)
    {
      if !memOk {
        nagleMemErr := true;
        return ErrMem;
      }
      WrapAdd(iss + view.lbb, 1);
      unsent := unsent + [TxSeg(sndLbb, [], syn, fin, [0])];
      unsentOversize := 0;
      sndLbb := Add32(sndLbb, 1);
      if fin {
        finSent := true;
      }
      sndQueuelen := sndQueuelen + 1;
      view := Enqueued(view, syn, fin);
      return ErrOk;
    }

    /** tcp_send_fin */
    method SendFin(memOk: bool) returns (err: Err)
      requires Coupled()
      modifies this
      ensures Coupled()
      ensures err == ErrOk <==> memOk || Piggybacks(old(view))
      ensures err == ErrOk ==> view == FinSent(old(view))
      ensures err != ErrOk ==> view == old(view) && err == ErrMem
    {
      if unsent != [] {
        var k := |unsent| - 1;
        if !unsent[k].syn && !unsent[k].fin {
          unsent := unsent[..k] + [unsent[k].(fin := true)];
          finSent := true;
          view := FinSent(view);
          return ErrOk;
        }
      }
      err := EnqueueFlags(false, true, memOk);
    }

    // ----- acknowledgements

    /** tcp_free_acked_segments: the list without the acknowledged segments, their
        bytes and their pbufs. */
    method FreeAcked(list: seq<TxSeg>, ackno: U32, ghost q: seq<Seg>, ghost ack: int)
        returns (rest: seq<TxSeg>, bytes: nat, bufs: nat)
      requires Models(list, q, iss) && ackno == Wrap(iss + ack)
      requires forall i :: 0 <= i < |q| ==> -SPAN < q[i].Tail() - ack < SPAN
      ensures Models(rest, Kept(q, ack), iss)
      ensures bytes == |Payload(Freed(q, ack))| && bufs == BufCount(Freed(q, ack))
    {
      rest, bytes, bufs := list, 0, 0;
      ghost var left := q;
      if left != [] { TailOrder(left[0], ack, iss); }
      while rest != [] && SeqLeq(Add32(rest[0].seqno, rest[0].TcpLen()), ackno)
        invariant Freeing(rest, bytes, bufs, left, q, ack)
        invariant rest != [] ==> (SeqLeq(Add32(rest[0].seqno, rest[0].TcpLen()), ackno) <==> left[0].Tail() <= ack)
        decreases |rest|
      {
        rest, bytes, bufs, left := FreeHead(rest, bytes, bufs, ackno, left, q, ack);
      }
    }

    /** tcp_seg_free for the head, and its bytes and pbufs counted. */
    method FreeHead(list: seq<TxSeg>, bytes0: nat, bufs0: nat, ackno: U32,
                    ghost was: seq<Seg>, ghost q: seq<Seg>, ghost ack: int)
        returns (rest: seq<TxSeg>, bytes: nat, bufs: nat, ghost left: seq<Seg>)
      requires Freeing(list, bytes0, bufs0, was, q, ack) && was != [] && was[0].Tail() <= ack
      requires ackno == Wrap(iss + ack)
      ensures Freeing(rest, bytes, bufs, left, q, ack) && |rest| < |list|
      ensures rest != [] ==> (SeqLeq(Add32(rest[0].seqno, rest[0].TcpLen()), ackno) <==> left[0].Tail() <= ack)
    {
      FreedHead(was, ack);
      bytes, bufs := bytes0 + |list[0].data|, bufs0 + |list[0].bufs|;
      rest, left := list[1..], was[1..];
      if left != [] { TailOrder(left[0], ack, iss); }
    }

    /** The queue was `q`, and `left` is still to be looked at. */
    ghost predicate Freeing(rest: seq<TxSeg>, bytes: nat, bufs: nat, left: seq<Seg>, q: seq<Seg>, ack: int) {
      && Models(rest, left, iss) && Kept(left, ack) == Kept(q, ack)
      && bytes + |Payload(Freed(left, ack))| == |Payload(Freed(q, ack))|
      && bufs + BufCount(Freed(left, ack)) == BufCount(Freed(q, ack))
      && (forall i :: 0 <= i < |left| ==> -SPAN < left[i].Tail() - ack < SPAN)
    }

    /** tcp_receive for an acknowledgement. */
    method ReceiveAck(ackno: U32, ghost ack: int) returns (acked: nat)
      requires Coupled() && ackno == Wrap(iss + ack) && Close(ack)
      modifies this
      ensures Coupled() && view == Acked(old(view), ack)
      ensures acked == view.sndBuf - old(view.sndBuf)
    {
      acked := 0;
      AckOrder(ack, view.lastack, view.nxt, iss);
      if SeqBetween(ackno, Add32(lastack, 1), sndNxt) {
        acked := TakeAck(ackno, ack);
      }
    }

    method TakeAck(ackno: U32, ghost ack: int) returns (acked: nat)
      requires Coupled() && ackno == Wrap(iss + ack) && Close(ack) && view.lastack < ack <= view.nxt
      modifies this
      ensures Coupled() && view == Acked(old(view), ack)
      ensures acked == view.sndBuf - old(view.sndBuf)
    {
      var u, bytes, bufs := FreeAcked(unacked, ackno, view.unacked, ack);
      var n, bytes', bufs' := FreeAcked(unsent, ackno, view.unsent, ack);
      acked := bytes + bytes';
      AckedFields(view, ack);
      Release(ackno, u, n, acked, bufs + bufs', Acked(view, ack));
    }

    method Release(ackno: U32, u: seq<TxSeg>, n: seq<TxSeg>, bytes: nat, bufs: nat, ghost w: Snd)
      requires Coupled() && Models(u, w.unacked, iss) && Models(n, w.unsent, iss)
      requires ackno == Wrap(iss + w.lastack) && bufs <= sndQueuelen
      requires w == view.(unacked := w.unacked, unsent := w.unsent, lastack := w.lastack, released := w.released,
                          sndBuf := view.sndBuf + bytes, queuelen := view.queuelen - bufs,
                          oversize := if w.unsent == [] then 0 else view.oversize)
      modifies this
      ensures Coupled() && view == w
    {
      unacked, unsent, lastack := u, n, ackno;
      if unsent == [] {
        unsentOversize := 0;
      }
      sndBuf := sndBuf + bytes;
      sndQueuelen := sndQueuelen - bufs;
      view := w;
    }

    /** Everything queued lies within SPAN of the acknowledged position. */
    ghost predicate Close(ack: int)
      reads this
    {
      && -SPAN < ack - view.lastack < SPAN && -SPAN < ack - view.nxt < SPAN
      && (forall i :: 0 <= i < |view.unacked| ==> -SPAN < view.unacked[i].Tail() - ack < SPAN)
      && (forall i :: 0 <= i < |view.unsent| ==> -SPAN < view.unsent[i].Tail() - ack < SPAN)
      && view.queuelen >= BufCount(Freed(view.unacked, ack)) + BufCount(Freed(view.unsent, ack))
    }

    // ----- transmission

    /** Everything queued lies between `lo` and `lo + SPAN`. */
    ghost predicate Around(lo: int)
      reads this
    {
      && lo <= view.lastack <= lo + SPAN && lo <= view.nxt <= lo + SPAN
      && InSpan(view.unacked, lo) && InSpan(view.unsent, lo)
    }

    /** A segment is linked in front of the first one that does not start before it. */
    method LinkSorted(list: seq<TxSeg>, seg: TxSeg, ghost q: seq<Seg>, ghost s: Seg, ghost lo: int)
        returns (r: seq<TxSeg>, atEnd: bool)
      requires Models(list, q, iss) && seg == Wrapped(s, iss)
      requires InSpan(q, lo) && OneInSpan(s, lo)
      ensures Models(r, InsertSorted(q, s), iss) && atEnd == LinksLast(q, s)
    {
      var i := 0;
      while i < |list| && SeqLt(list[i].seqno, seg.seqno)
        invariant 0 <= i <= |q|
        invariant forall j :: 0 <= j < i ==> q[j].pos < s.pos
      {
        PosOrder(q[i].pos, s.pos, iss);
        i := i + 1;
      }
      if i < |q| { PosOrder(q[i].pos, s.pos, iss); }
      InsertSortedAt(q, s, i);
      r, atEnd := list[..i] + ([seg] + list[i..]), i == |list|;
    }

    /** A transmitted segment joins the unacked ones. */
    method LinkUnacked(seg: TxSeg, ghost s: Seg, ghost lo: int) returns (r: seq<TxSeg>)
      requires Coupled() && Around(lo) && seg == Wrapped(s, iss) && OneInSpan(s, lo)
      ensures Models(r, Requeued(view.unacked, s), iss)
    {
      if unacked == [] {
        return [seg];
      }
      var last := |unacked| - 1;
      PosOrder(s.pos, view.unacked[last].pos, iss);
      if SeqLt(seg.seqno, unacked[last].seqno) {
        var atEnd;
        r, atEnd := LinkSorted(unacked, seg, view.unacked, s, lo);
      } else {
        r := unacked + [seg];
      }
    }

    /** The head of the unsent queue is transmitted. */
    method SendHead(ghost lo: int)
      requires Coupled() && Around(lo) && unsent != []
      modifies this
      ensures Coupled() && Around(lo) && view == HeadSent(old(view))
    {
      var seg := unsent[0];
      ghost var s, e := view.unsent[0], HeadSent(view);
      WrapAdd(iss + s.pos, seg.TcpLen());
      PosOrder(view.nxt, s.Tail(), iss);
      var sndEnd := Add32(seg.seqno, seg.TcpLen());
      var u := unacked;
      RequeuedSpan(view.unacked, s, lo);
      if seg.TcpLen() > 0 {
        u := LinkUnacked(seg, s, lo);
      }
      MoveHead(u, if SeqLt(sndNxt, sndEnd) then sndEnd else sndNxt, e);
    }

    method MoveHead(u: seq<TxSeg>, nxt: U32, ghost w: Snd)
      requires Coupled() && unsent != [] && Models(u, w.unacked, iss) && nxt == Wrap(iss + w.nxt)
      requires w == view.(unacked := w.unacked, unsent := view.unsent[1..], nxt := w.nxt)
      modifies this
      ensures Coupled() && view == w
    {
      unacked, unsent, sndNxt := u, unsent[1..], nxt;
      view := w;
    }

    /** tcp_output; `wnd` is the smaller of the send and the congestion window. */
    method Output(wnd: nat, go: seq<bool>, ghost lo: int)
      requires Coupled() && Around(lo) && Reaching(view.unsent, view.lastack)
      modifies this
      ensures Coupled() && view == SendQueue.Output(old(view), wnd, go)
    {
      if unsent == [] {
        NothingToSend(view, wnd, go);
        return;
      }
      SendAll(wnd, go, lo);
      DropSpare();
    }

    /** With nothing unsent there is no spare room. */
    method DropSpare()
      requires Coupled()
      modifies `unsentOversize, `view
      ensures Coupled() && view == if unsent == [] then old(view).(oversize := 0) else old(view)
    {
      if unsent == [] {
        unsentOversize := 0;
        view := view.(oversize := 0);
      }
    }

    /** What is left to decide leads to `goal`. */
    ghost predicate SendingTo(lo: int, wnd: nat, left: seq<bool>, goal: Snd)
      reads this
    {
      Coupled() && Around(lo) && Reaching(view.unsent, view.lastack) && Sending(view, wnd, left) == goal
    }

    /** The sending loop. */
    method SendAll(wnd: nat, go: seq<bool>, ghost lo: int)
      requires Coupled() && Around(lo) && Reaching(view.unsent, view.lastack)
      modifies this
      ensures Coupled() && view == Sending(old(view), wnd, go)
    {
      ghost var goal := Sending(view, wnd, go);
      var left := go;
      HeadOrder(view, lo, wnd, iss);
      while unsent != [] && Add32(Sub32(unsent[0].seqno, lastack), |unsent[0].data|) <= wnd && left != [] && left[0]
        invariant SendingTo(lo, wnd, left, goal)
        invariant unsent != [] ==>
          (Add32(Sub32(unsent[0].seqno, lastack), |unsent[0].data|) <= wnd <==> HeadFits(view, wnd))
        decreases |left|
      {
        SendNext(wnd, left, lo, goal);
        left := left[1..];
      }
    }

    method SendNext(wnd: nat, ghost left: seq<bool>, ghost lo: int, ghost goal: Snd)
      requires SendingTo(lo, wnd, left, goal) && HeadFits(view, wnd) && left != [] && left[0]
      modifies this
      ensures SendingTo(lo, wnd, left[1..], goal)
      ensures unsent != [] ==>
        (Add32(Sub32(unsent[0].seqno, lastack), |unsent[0].data|) <= wnd <==> HeadFits(view, wnd))
    {
      SendHead(lo);
      HeadOrder(view, lo, wnd, iss);
    }

    // ----- retransmission and splitting

    /** tcp_rexmit_rto_prepare; `busy` tells which unacked segments the driver still
        holds. */
    method RexmitRtoPrepare(busy: seq<bool>) returns (err: Err)
      requires Coupled() && |busy| == |unacked|
      modifies this
      ensures Coupled() && err == (if unacked == [] && old(unacked) != [] then ErrOk else ErrVal)
      ensures err == ErrOk <==> old(unacked) != [] && true !in busy
      ensures view == if err == ErrOk then Requeue(old(view)) else old(view)
    {
      if unacked == [] {
        return ErrVal;
      }
      for i := 0 to |unacked|
        invariant forall j :: 0 <= j < i ==> !busy[j]
        invariant Coupled() && view == old(view) && unacked == old(unacked)
      {
        if busy[i] {
          return ErrVal;
        }
      }
      ModelsConcat(unacked, unsent, view.unacked, view.unsent, iss);
      unsent := unacked + unsent;
      unacked := [];
      view := Requeue(view);
      return ErrOk;
    }

    /** tcp_rexmit */
    method Rexmit(busy: bool, ghost lo: int) returns (err: Err)
      requires Coupled() && Around(lo)
      modifies this
      ensures Coupled() && err == (if old(unacked) != [] && !busy then ErrOk else ErrVal)
      ensures view == if err == ErrOk then Rexmitted(old(view)) else old(view)
    {
      if unacked == [] || busy {
        return ErrVal;
      }
      var seg := unacked[0];
      ghost var s := view.unacked[0];
      var u, atEnd := LinkSorted(unsent, seg, view.unsent, s, lo);
      if atEnd {
        unsentOversize := 0;
      }
      unsent := u;
      unacked := unacked[1..];
      view := Rexmitted(view);
      return ErrOk;
    }

    /** pbuf_realloc on the head of the unsent queue: whole pbufs are kept as long as
        they are needed. */
    method ShrinkChain(bufs: seq<nat>, n: nat) returns (r: seq<nat>)
      requires bufs != [] && n <= Sum(bufs)
      ensures r == Shrunk(bufs, n)
    {
      var rem, k := n, 0;
      while rem > bufs[k]
        invariant 0 <= k < |bufs| && 0 <= rem <= Sum(bufs[k..])
        invariant Shrunk(bufs, n) == bufs[..k] + Shrunk(bufs[k..], rem)
        decreases |bufs| - k
      {
        SumSuffix(bufs, k);
        assert bufs[..k] + ([bufs[k]] + Shrunk(bufs[k + 1..], rem - bufs[k]))
            == bufs[..k + 1] + Shrunk(bufs[k + 1..], rem - bufs[k]);
        rem, k := rem - bufs[k], k + 1;
      }
      r := bufs[..k] + [rem];
    }

    /** tcp_split_unsent_seg; `memOk` tells whether the pbuf and the segment for the
        remainder are there. */
    method SplitUnsentSeg(split: nat, memOk: bool) returns (err: Err)
      requires Coupled()
      requires unsent != [] ==>
        unsent[0].bufs != [] && Sum(unsent[0].bufs) == |unsent[0].data| && |unsent[0].bufs| <= sndQueuelen
      modifies this
      ensures Coupled()
      ensures var splits := old(unsent) != [] && 0 < split < |old(unsent)[0].data|;
        && err == (if old(unsent) == [] || (splits && !memOk) then ErrMem else if split == 0 then ErrVal else ErrOk)
        && view == if splits && memOk then Split(old(view), split) else old(view)
    {
      if unsent == [] {
        return ErrMem;
      }
      if split == 0 {
        return ErrVal;
      }
      var useg := unsent[0];
      if |useg.data| <= split {
        return ErrOk;
      }
      if !memOk {
        return ErrMem;
      }
      WrapAdd(iss + view.unsent[0].pos, split);
      var bufs := ShrinkChain(useg.bufs, split);
      ghost var w := Split(view, split);
      var seg := TxSeg(Add32(useg.seqno, split), useg.data[split..], false, useg.fin, [|useg.data| - split]);
      PutHead([useg.(data := useg.data[..split], bufs := bufs), seg], |bufs| + 1, w);
      return ErrOk;
    }

    /** The head of the unsent queue is replaced by two segments. */
    method PutHead(two: seq<TxSeg>, bufs: nat, ghost w: Snd)
      requires Coupled() && unsent != [] && |two| == 2
      requires |w.unsent| == 1 + |view.unsent| && Models(two, w.unsent[..2], iss) && w.unsent[2..] == view.unsent[1..]
      requires 0 <= w.queuelen == view.queuelen - |unsent[0].bufs| + bufs
      requires w == view.(unsent := w.unsent, queuelen := w.queuelen,
                          oversize := if |view.unsent| == 1 then 0 else view.oversize)
      modifies this
      ensures Coupled() && view == w
    {
      sndQueuelen := sndQueuelen + bufs - |unsent[0].bufs|;
      if |unsent| == 1 {
        unsentOversize := 0;
      }
      ModelsConcat(two, unsent[1..], w.unsent[..2], view.unsent[1..], iss);
      assert w.unsent == w.unsent[..2] + w.unsent[2..];
      unsent := two + unsent[1..];
      view := w;
    }

    /** Fast retransmit whose segment goes out. */
    method FastRetransmit(ghost lo: int) returns (err: Err)
      requires Coupled() && Inv(view) && Around(lo)
      modifies this
      ensures Coupled() && err == (if old(unacked) == [] then ErrVal else ErrOk)
      ensures view == old(view)
    {
      if unacked == [] {
        return ErrVal;
      }
      RexmitShape(view);
      RexmitThenSendIsIdentity(view);
      err := Rexmit(false, lo);
      SendHead(lo);
    }

    /** tcp_zero_window_probe; `memOk` tells whether the pbuf is there.  snd_nxt moves even
        if the probe does not go out. */
    method ZeroWindowProbe(memOk: bool, ghost lo: int) returns (err: Err)
      requires Coupled() && Around(lo) && (unsent != [] ==> lo <= view.unsent[0].pos < lo + SPAN)
      modifies `sndNxt, `view
      ensures Coupled() && err == (if unsent == [] || memOk then ErrOk else ErrMem)
      ensures view == if err == ErrOk then Probed(old(view)) else old(view)
    {
      if unsent == [] {
        return ErrOk;
      }
      if !memOk {
        return ErrMem;
      }
      ghost var p := view.unsent[0].pos;
      WrapAdd(iss + p, 1);
      PosOrder(view.nxt, p + 1, iss);
      var nxt := Add32(unsent[0].seqno, 1);
      if SeqLt(sndNxt, nxt) {
        sndNxt := nxt;
      }
      view := Probed(view);
      return ErrOk;
    }

    // ----- every event of a run

    /** Performs one event; the queues keep tiling sequence space and conserving
        bytes.  Sequence numbers in flight span less than half of SPAN. */
    method Perform(ev: Event)
      requires Valid() && Legal(view, ev) && view.End() < First(Flat(view)) + SPAN / 2
      requires ev.Ack? ==> -SPAN / 2 < ev.ack - view.lastack < SPAN / 2
      requires ev.Send? || ev.Window? ==> 0 <= ev.wnd
      modifies this
      ensures Valid() && view == Step(old(view), ev)
    {
      StepKeeps(view, ev);
      Locate();
      Carry(ev, First(Flat(view)));
    }

    /** Where everything lies. */
    ghost predicate Placed(lo: int)
      reads this
    {
      && Coupled() && Around(lo) && Reaching(view.unsent, view.lastack)
      && (unsent != [] ==>
            && lo <= view.unsent[0].pos < lo + SPAN
            && unsent[0].bufs != [] && Sum(unsent[0].bufs) == |unsent[0].data| && |unsent[0].bufs| <= sndQueuelen)
    }

    lemma Locate()
      requires Valid() && view.End() < First(Flat(view)) + SPAN / 2
      ensures Placed(First(Flat(view)))
    {
      Spans(view);
    }

    method Carry(ev: Event, ghost lo: int)
      requires Valid() && Legal(view, ev) && Placed(lo) && view.End() < First(Flat(view)) + SPAN / 2
      requires ev.Ack? ==> -SPAN / 2 < ev.ack - view.lastack < SPAN / 2
      requires ev.Send? || ev.Window? ==> 0 <= ev.wnd
      modifies this
      ensures Coupled() && view == Step(old(view), ev)
    {
      if ev.Ack? {
        PerformAck(ev);
      } else if ev.Send? || ev.FastRetransmit? || ev.Probe? {
        PerformWithin(ev, lo);
      } else {
        PerformLocally(ev);
      }
    }

    method PerformWithin(ev: Event, ghost lo: int)
      requires Coupled() && Placed(lo) && (ev.Send? ==> 0 <= ev.wnd)
      requires ev.Send? || ev.FastRetransmit? || ev.Probe?
      modifies this
      ensures Coupled() && view == Step(old(view), ev)
    {
      match ev
      case Send(wnd, go) => Output(wnd, go, lo);
      case FastRetransmit => var err := Rexmit(false, lo);
      case Probe => var err := ZeroWindowProbe(true, lo);
    }

    method PerformAck(ev: Event)
      requires Valid() && ev.Ack? && view.End() < First(Flat(view)) + SPAN / 2
      requires -SPAN / 2 < ev.ack - view.lastack < SPAN / 2
      modifies this
      ensures Coupled() && view == Step(old(view), ev)
    {
      FreedFit(view, ev.ack);
      TailsFollow(view);
      var acked := ReceiveAck(Wrap(iss + ev.ack), ev.ack);
    }

    method PerformLocally(ev: Event)
      requires Valid() && Legal(view, ev) && (ev.Window? ==> 0 <= ev.wnd)
      requires !ev.Send? && !ev.FastRetransmit? && !ev.Ack? && !ev.Probe?
      requires unsent != [] ==> unsent[0].bufs != [] && Sum(unsent[0].bufs) == |unsent[0].data|
      requires unsent != [] ==> |unsent[0].bufs| <= sndQueuelen
      modifies this
      ensures Coupled() && view == Step(old(view), ev)
    {
      match ev
      case Write(d, a, budget) => var err := Write(d, a, budget);
      case SendSyn => var err := EnqueueFlags(true, false, true);
      case SendFin => var err := SendFin(true);
      case Timeout => var err := RexmitRtoPrepare(seq(|unacked|, i => false));
      case SplitHead(n) => var err := SplitUnsentSeg(n, true);
      case Window(wnd) =>
        sndWndMax := Max(sndWndMax, wnd);
        view := Step(view, ev);
    }
  }

  lemma {:induction false} SumSuffix(bufs: seq<nat>, k: nat)
    requires k < |bufs|
    ensures Sum(bufs[k..]) == bufs[k] + Sum(bufs[k + 1..])
    ensures Sum(bufs[k + 1..]) > 0 ==> k + 1 < |bufs|
    ensures bufs[k..][1..] == bufs[k + 1..]
  {
  }

  /** What is queued and acknowledged lies between the first queued position and the
      last. */
  lemma Spans(st: Snd)
    requires Sound(st) && st.End() < First(Flat(st)) + SPAN
    ensures var lo := First(Flat(st));
      && InSpan(st.unacked, lo) && InSpan(st.unsent, lo)
      && lo <= st.lastack <= st.nxt <= st.End() < lo + SPAN
    ensures Reaching(st.unsent, st.lastack)
    ensures st.unsent != [] ==> First(Flat(st)) <= st.unsent[0].pos < First(Flat(st)) + SPAN
    ensures st.unsent != [] ==> |st.unsent[0].bufs| <= st.queuelen && Proper(st.unsent[0], st.MssLocal(), st.finFlag)
  {
    forall i | 0 <= i < |st.unacked| ensures OneInSpan(st.unacked[i], First(Flat(st))) {
      QueuedWhere(st, st.unacked[i]);
    }
    forall i | 0 <= i < |st.unsent|
      ensures OneInSpan(st.unsent[i], First(Flat(st))) && st.lastack <= st.unsent[i].pos + |st.unsent[i].data|
    {
      QueuedWhere(st, st.unsent[i]);
    }
    MergeSums(st.unacked, st.unsent);
    if st.unsent != [] {
      QueuedOne(st, st.unsent[0]);
      QueuedWhere(st, st.unsent[0]);
    }
    assert Inv(Flat(st));
  }

  /** Where one queued segment lies: no more of it is acknowledged than its last byte. */
  lemma QueuedWhere(st: Snd, x: Seg)
    requires Queued(st) && (x in st.unacked || x in st.unsent)
    ensures First(Flat(st)) <= x.pos < x.Tail() <= st.End() && st.lastack <= x.pos + |x.data|
  {
    var q := Flat(st).unsent;
    QueuedHas(st);
    FirstIsLeast(q, x);
    assert q[0] in q;
  }

  lemma TailsFollow(st: Snd)
    requires Queued(st) && st.End() < First(Flat(st)) + SPAN / 2
    ensures forall i :: 0 <= i < |st.unacked| ==>
      First(Flat(st)) < st.unacked[i].Tail() < First(Flat(st)) + SPAN / 2
    ensures forall i :: 0 <= i < |st.unsent| ==>
      First(Flat(st)) < st.unsent[i].Tail() < First(Flat(st)) + SPAN / 2
  {
    forall i | 0 <= i < |st.unacked| ensures First(Flat(st)) < st.unacked[i].Tail() <= st.End() {
      QueuedWhere(st, st.unacked[i]);
    }
    forall i | 0 <= i < |st.unsent| ensures First(Flat(st)) < st.unsent[i].Tail() <= st.End() {
      QueuedWhere(st, st.unsent[i]);
    }
  }

  lemma FreedFit(st: Snd, ack: int)
    requires Queued(st)
    ensures BufCount(Freed(st.unacked, ack)) + BufCount(Freed(st.unsent, ack)) <= st.queuelen
  {
    FreedSums(st.unacked, ack);
    FreedSums(st.unsent, ack);
    MergeSums(st.unacked, st.unsent);
  }

  lemma HeadOrder(st: Snd, lo: int, wnd: nat, iss: int)
    requires InSpan(st.unsent, lo) && Reaching(st.unsent, st.lastack) && lo <= st.lastack
    ensures st.unsent != [] ==>
      (Add32(Sub32(Wrapped(st.unsent[0], iss).seqno, Wrap(iss + st.lastack)), |st.unsent[0].data|) <= wnd
       <==> HeadFits(st, wnd))
  {
    if st.unsent != [] {
      assert OneInSpan(st.unsent[0], lo);
      FitOrder(st.unsent[0], st.lastack, wnd, iss);
    }
  }

  predicate OneInSpan(s: Seg, lo: int) {
    lo <= s.pos && s.Tail() <= lo + SPAN
  }

  /** All segments lie between `lo` and `lo + SPAN`. */
  predicate InSpan(q: seq<Seg>, lo: int) {
    forall i :: 0 <= i < |q| ==> OneInSpan(q[i], lo)
  }

  /** No segment ends before position `x`. */
  predicate Reaching(q: seq<Seg>, x: int) {
    forall i :: 0 <= i < |q| ==> x <= q[i].pos + |q[i].data|
  }

  lemma RequeuedSpan(q: seq<Seg>, s: Seg, lo: int)
    requires InSpan(q, lo) && OneInSpan(s, lo)
    ensures InSpan(Requeued(q, s), lo)
  {
    InsertSortedSpan(q, s, lo);
  }

  lemma {:induction false} InsertSortedSpan(q: seq<Seg>, s: Seg, lo: int)
    requires InSpan(q, lo) && OneInSpan(s, lo)
    ensures InSpan(InsertSorted(q, s), lo)
  {
    if q != [] && q[0].pos < s.pos { InsertSortedSpan(q[1..], s, lo); }
  }

  lemma PosOrder(x: int, y: int, iss: int)
    requires -SPAN <= x - y <= SPAN
    ensures SeqLt(Wrap(iss + x), Wrap(iss + y)) <==> x < y
  {
    WrappedOrder(iss + x, iss + y);
  }

  lemma FitOrder(s: Seg, lastack: int, wnd: nat, iss: int)
    requires 0 <= s.pos + |s.data| - lastack <= SPAN
    ensures Add32(Sub32(Wrapped(s, iss).seqno, Wrap(iss + lastack)), |s.data|) <= wnd
        <==> s.pos + |s.data| - lastack <= wnd
  {
    var x, y, n := iss + s.pos, iss + lastack, |s.data|;
    WrapSub(x, y);
    WrapAdd(x - y, n);
    WrapSmall(x - y + n);
  }

  lemma WrapSmall(x: int)
    requires 0 <= x < TWO_32
    ensures Wrap(x) == x
  {
  }

  lemma TailOrder(s: Seg, ack: int, iss: int)
    requires -SPAN < s.Tail() - ack < SPAN
    ensures SeqLeq(Add32(Wrapped(s, iss).seqno, Wrapped(s, iss).TcpLen()), Wrap(iss + ack)) <==> s.Tail() <= ack
  {
    WrapAdd(iss + s.pos, Wrapped(s, iss).TcpLen());
    WrappedOrder(iss + s.Tail(), iss + ack);
  }

  lemma AckOrder(ack: int, lastack: int, nxt: int, iss: int)
    requires -SPAN < ack - lastack < SPAN && -SPAN < ack - nxt < SPAN
    ensures SeqBetween(Wrap(iss + ack), Add32(Wrap(iss + lastack), 1), Wrap(iss + nxt)) <==> lastack < ack <= nxt
  {
    WrapAdd(iss + lastack, 1);
    WrappedOrder(iss + ack, iss + lastack + 1);
    WrappedOrder(iss + ack, iss + nxt);
  }

  lemma AckedFields(st: Snd, ack: int)
    requires st.lastack < ack <= st.nxt
    ensures var w := Acked(st, ack);
      && w.unacked == Kept(st.unacked, ack) && w.unsent == Kept(st.unsent, ack) && w.lastack == ack
      && w == st.(unacked := w.unacked, unsent := w.unsent, lastack := w.lastack, released := w.released,
                  sndBuf := st.sndBuf + (|Payload(Freed(st.unacked, ack))| + |Payload(Freed(st.unsent, ack))|),
                  queuelen := st.queuelen - (BufCount(Freed(st.unacked, ack)) + BufCount(Freed(st.unsent, ack))),
                  oversize := if w.unsent == [] then 0 else st.oversize)
  {
    MergeSums(Freed(st.unacked, ack), Freed(st.unsent, ack));
  }

  lemma FreedHead(q: seq<Seg>, ack: int)
    requires q != [] && q[0].Tail() <= ack
    ensures Kept(q, ack) == Kept(q[1..], ack)
    ensures |Payload(Freed(q, ack))| == |q[0].data| + |Payload(Freed(q[1..], ack))|
    ensures BufCount(Freed(q, ack)) == |q[0].bufs| + BufCount(Freed(q[1..], ack))
  {
    Cons(q[0], Freed(q[1..], ack), 0, 0, false);
  }

  lemma BufCountOf(done: seq<Seg>, s: Seg)
    ensures BufCount(done + [s]) == BufCount(done) + |s.bufs|
  {
    ConcatSums(done, [s]);
    assert [s][1..] == [];
  }

  /** The next segment moves from the ones to make to the ones made. */
  lemma Shift(done: seq<Seg>, togo: seq<Seg>)
    requires togo != []
    ensures done + [togo[0]] + togo[1..] == done + togo
    ensures BufCount(togo) == |togo[0].bufs| + BufCount(togo[1..])
    ensures BufCount(done + [togo[0]]) == BufCount(done) + |togo[0].bufs|
  {
    BufCountOf(done, togo[0]);
  }

  /** Writing nothing needs nothing. */
  lemma Affordable(st: Snd, d: seq<Byte>)
    requires Sound(st) && (d == [] || |d| <= st.sndBuf)
    ensures |d| <= st.sndBuf
  {
    assert Inv(Flat(st));
  }

  lemma EmptyWrite(st: Snd, a: WriteArgs)
    requires SpareFits(st)
    ensures NewSegs(st, [], a) == [] && Allocations(st, [], a) == 0
  {
  }

  lemma ModelsConcat(a: seq<TxSeg>, b: seq<TxSeg>, qa: seq<Seg>, qb: seq<Seg>, iss: int)
    requires Models(a, qa, iss) && Models(b, qb, iss)
    ensures Models(a + b, qa + qb, iss)
  {
  }
}
