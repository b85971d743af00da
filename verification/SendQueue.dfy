/** The send queues on unwrapped positions: what a write, a flag, an acknowledgement, a
    transmission, a time-out and a split make of the two lists, and that each of them keeps
    the lists in order and their bytes complete. */
module SendQueue {
  import opened SeqNum

  // Position 0 is the initial sequence number.  `unacked` holds what was sent,
  // `unsent` what was not (or is to be sent again); the functions say what every
  // operation does to them, and the lemmas what all of them keep.  Module TcpOut
  // ties the in-place code to them.

  /** A segment: payload, SYN or FIN, and the payload bytes in each pbuf of its
      chain (the first pbuf also holds the header). */
  datatype Seg = Seg(pos: int, data: seq<Byte>, syn: bool, fin: bool, bufs: seq<nat>) {
    function Tail(): int {
      pos + |data| + if syn || fin then 1 else 0
    }
  }

  /** TCP_SND_BUF, TCP_SND_QUEUELEN and the spare room of an oversized pbuf. */
  const SND_BUF: int := 32 * 1024
  const SND_QUEUELEN: int := 90
  const TCP_OVERSIZE: int := 1460

  /** `lbb`, `nxt` and `lastack` are snd_lbb, snd_nxt and lastack; `piggy` tells that
      the FIN was put on an existing segment; `written` and `released` are all the
      bytes that the application queued and that left the queue again. */
  datatype Snd = Snd(
    unacked: seq<Seg>, unsent: seq<Seg>, lbb: int, nxt: int, lastack: int,
    sndBuf: int, queuelen: int, oversize: int, mss: int, wndMax: int,
    finFlag: bool, piggy: bool,
    released: seq<Byte>, written: seq<Byte>)
  {
    /** Where the queued sequence space ends. */
    function End(): int {
      lbb + if piggy then 1 else 0
    }

    /** The largest segment tcp_write makes. */
    function MssLocal(): int {
      var m := Min(mss, Min(wndMax / 2, 0xffff));
      if m != 0 then m else mss
    }
  }

  // ----- lists of segments

  /** The segments lie end to end from position `x` and none is empty; each fits
      into `max` bytes and its pbufs hold it; a SYN carries no data, and there is no
      FIN before one was sent. */
  predicate Chain(q: seq<Seg>, x: int, max: int, finFlag: bool) {
    q == [] || (q[0].pos == x < q[0].Tail() && Proper(q[0], max, finFlag) && Chain(q[1..], q[0].Tail(), max, finFlag))
  }

  predicate Proper(s: Seg, max: int, finFlag: bool) {
    && |s.data| <= max && s.bufs != [] && Sum(s.bufs) == |s.data|
    && (s.syn ==> s.data == []) && (s.fin ==> finFlag)
  }

  /** Where they end. */
  function TailOf(q: seq<Seg>, x: int): int {
    if q == [] then x else TailOf(q[1..], q[0].Tail())
  }

  function Payload(q: seq<Seg>): seq<Byte> {
    if q == [] then [] else q[0].data + Payload(q[1..])
  }

  /** The pbufs of all the segments: pbuf_clen summed up. */
  function BufCount(q: seq<Seg>): nat {
    if q == [] then 0 else |q[0].bufs| + BufCount(q[1..])
  }

  function Sum(bufs: seq<nat>): nat {
    if bufs == [] then 0 else bufs[0] + Sum(bufs[1..])
  }

  // ----- tcp_write

  datatype WriteArgs = WriteArgs(copy: bool, contiguous: bool, more: bool, nodelay: bool)

  /** Spare room in a pbuf that tcp_pbuf_prealloc makes for `length` bytes. */
  function Spare(length: nat, max: int, roomy: bool): (r: nat)
    ensures length <= max ==> r <= max - length
  {
    if length < max && roomy then Min(max, length + TCP_OVERSIZE) - length else 0
  }

  /** Whether more data is expected before the pbuf goes out. */
  predicate Roomy(st: Snd, a: WriteArgs, first: bool) {
    a.more || (!a.nodelay && (!first || st.unsent != [] || st.unacked != []))
  }

  /** The last unsent segment has room for its spare bytes. */
  predicate SpareFits(st: Snd) {
    && 0 <= st.oversize && 0 < st.MssLocal()
    && (st.unsent == [] ==> st.oversize == 0)
    && (st.unsent != [] ==> |Last(st).data| + st.oversize <= st.MssLocal())
    && (st.oversize > 0 ==> Last(st).data != [])
  }

  function Last(st: Snd): Seg
    requires st.unsent != []
  {
    st.unsent[|st.unsent| - 1]
  }

  /** How many of `n` new bytes go to the last unsent segment: first into the spare
      room of its last pbuf, then into a pbuf chained to it. */
  function Room(st: Snd): (r: nat)
    requires SpareFits(st)
  {
    if st.unsent == [] then 0 else st.MssLocal() - |Last(st).data|
  }

  function Used(st: Snd, n: nat): (r: nat)
    requires SpareFits(st)
    ensures r <= n && r <= Room(st) && r <= st.oversize
  {
    Min(Room(st), Min(st.oversize, n))
  }

  function Chained(st: Snd, n: nat): (r: nat)
    requires SpareFits(st)
    ensures Used(st, n) + r <= n && Used(st, n) + r <= Room(st)
  {
    if st.unsent != [] && Last(st).data != [] then Min(Room(st), n) - Used(st, n) else 0
  }

  function Fill(st: Snd, n: nat): (r: nat)
    requires SpareFits(st)
    ensures r <= n && r <= Room(st)
  {
    Used(st, n) + Chained(st, n)
  }

  /** The chained bytes extend the last pbuf instead of needing a new one. */
  predicate Extends(st: Snd, n: nat, a: WriteArgs)
    requires SpareFits(st)
  {
    !a.copy && a.contiguous && Used(st, n) == 0
  }

  function GrowLast(bufs: seq<nat>, n: nat): seq<nat> {
    if bufs == [] then [n] else bufs[..|bufs| - 1] + [bufs[|bufs| - 1] + n]
  }

  function Grown(s: Seg, d: seq<Byte>, used: nat, chained: nat, extend: bool): Seg {
    var b := if used > 0 then GrowLast(s.bufs, used) else s.bufs;
    s.(data := s.data + d,
       bufs := if chained == 0 then b else if extend then GrowLast(b, chained) else b + [chained])
  }

  /** New segments of at most `max` bytes; without copying, header and data lie in
      pbufs of their own. */
  function Chunk(d: seq<Byte>, pos: int, max: nat, copy: bool): seq<Seg>
    requires 0 < max
    decreases |d|
  {
    if d == [] then []
    else
      var m := Min(|d|, max);
      [Seg(pos, d[..m], false, false, if copy then [m] else [0, m])] + Chunk(d[m..], pos + m, max, copy)
  }

  function NewSegs(st: Snd, d: seq<Byte>, a: WriteArgs): seq<Seg>
    requires SpareFits(st)
  {
    var f := Fill(st, |d|);
    Chunk(d[f..], st.lbb + f, st.MssLocal(), a.copy)
  }

  /** The unsent queue after a successful write. */
  function NewUnsent(st: Snd, d: seq<Byte>, a: WriteArgs): seq<Seg>
    requires SpareFits(st)
  {
    if st.unsent == [] then NewSegs(st, d, a)
    else
      var u, c := Used(st, |d|), Chained(st, |d|);
      st.unsent[..|st.unsent| - 1] + [Grown(Last(st), d[..u + c], u, c, Extends(st, |d|, a))] + NewSegs(st, d, a)
  }

  /** The pbufs a write adds. */
  function NewBufs(st: Snd, d: seq<Byte>, a: WriteArgs): nat
    requires SpareFits(st)
  {
    BufCount(NewSegs(st, d, a)) + if Chained(st, |d|) > 0 && !Extends(st, |d|, a) then 1 else 0
  }

  /** The spare room of the last pbuf after a write. */
  function NewOversize(st: Snd, d: seq<Byte>, a: WriteArgs): nat
    requires SpareFits(st)
  {
    var n, u, c := |d|, Used(st, |d|), Chained(st, |d|);
    var segs := NewSegs(st, d, a);
    if segs != [] && a.copy then
      Spare(|segs[|segs| - 1].data|, st.MssLocal(), Roomy(st, a, |segs| == 1))
    else if c > 0 && a.copy then Spare(c, Room(st) - u, Roomy(st, a, true))
    else st.oversize - u
  }

  function Written(st: Snd, d: seq<Byte>, a: WriteArgs): Snd
    requires SpareFits(st)
  {
    st.(unsent := NewUnsent(st, d, a), lbb := st.lbb + |d|, sndBuf := st.sndBuf - |d|,
        queuelen := st.queuelen + NewBufs(st, d, a), oversize := NewOversize(st, d, a),
        written := st.written + d)
  }

  /** The allocations a write needs: a pbuf to chain, and for each new segment its
      pbufs and the segment itself. */
  function Allocations(st: Snd, d: seq<Byte>, a: WriteArgs): nat
    requires SpareFits(st)
  {
    NewBufs(st, d, a) + |NewSegs(st, d, a)|
  }

  /** A write that memory for `budget` allocations lets through. */
  predicate WriteSucceeds(st: Snd, d: seq<Byte>, a: WriteArgs, budget: nat)
    requires SpareFits(st)
  {
    d == [] ||
    (&& |d| <= st.sndBuf && st.queuelen < SND_QUEUELEN
     && Allocations(st, d, a) <= budget
     && (NewSegs(st, d, a) != [] ==> st.queuelen + NewBufs(st, d, a) <= SND_QUEUELEN))
  }

  // ----- the invariant

  /** Where the queued sequence space starts. */
  function First(st: Snd): int {
    if st.unacked != [] then st.unacked[0].pos
    else if st.unsent != [] then st.unsent[0].pos
    else st.End()
  }

  /** Unacked and unsent segments lie end to end, without a gap or an overlap, from
      where the peer's acknowledgements stopped to the end of what is queued. */
  predicate Tiles(st: Snd) {
    var mid := TailOf(st.unacked, First(st));
    && Chain(st.unacked, First(st), st.MssLocal(), st.finFlag) && Chain(st.unsent, mid, st.MssLocal(), st.finFlag)
    && TailOf(st.unsent, mid) == st.End()
    && First(st) <= st.lastack <= st.nxt <= st.End()
    && mid <= st.nxt
    && HeadIsOutstanding(st)
  }

  /** No segment stays queued once all of it is acknowledged. */
  predicate HeadIsOutstanding(st: Snd) {
    var q := if st.unacked != [] then st.unacked else st.unsent;
    q == [] || st.lastack < q[0].Tail()
  }

  /** No byte is lost, repeated or reordered, and the counters are the sums they
      stand for. */
  predicate Conserves(st: Snd) {
    && st.released + Payload(st.unacked) + Payload(st.unsent) == st.written
    && st.sndBuf + |Payload(st.unacked)| + |Payload(st.unsent)| == SND_BUF
    && st.queuelen == BufCount(st.unacked) + BufCount(st.unsent)
    && 0 <= st.sndBuf
  }

  predicate Shaped(st: Snd) {
    && 0 < st.mss < 0x1_0000 && 0 <= st.wndMax
    && SpareFits(st)
    && (st.piggy ==> st.finFlag)
  }

  predicate Inv(st: Snd) {
    Tiles(st) && Conserves(st) && Shaped(st)
  }

  // ----- concatenation

  lemma {:induction false} ConcatChain(a: seq<Seg>, b: seq<Seg>, x: int, max: int, finFlag: bool)
    ensures Chain(a + b, x, max, finFlag) <==> Chain(a, x, max, finFlag) && Chain(b, TailOf(a, x), max, finFlag)
    ensures TailOf(a + b, x) == TailOf(b, TailOf(a, x))
    decreases |a|
  {
    if a == [] {
      assert a + b == b;
    } else {
      ConcatChain(a[1..], b, a[0].Tail(), max, finFlag);
      assert (a + b)[1..] == a[1..] + b && (a + b)[0] == a[0];
    }
  }

  lemma {:induction false} ConcatSums(a: seq<Seg>, b: seq<Seg>)
    ensures Payload(a + b) == Payload(a) + Payload(b)
    ensures BufCount(a + b) == BufCount(a) + BufCount(b)
    decreases |a|
  {
    if a == [] {
      assert a + b == b;
      assert [] + Payload(b) == Payload(b);
    } else {
      ConcatSums(a[1..], b);
      assert (a + b)[1..] == a[1..] + b && (a + b)[0] == a[0];
      assert a[0].data + (Payload(a[1..]) + Payload(b)) == a[0].data + Payload(a[1..]) + Payload(b);
    }
  }

  /** A segment in front of a queue. */
  lemma Cons(s: Seg, q: seq<Seg>, x: int, max: int, finFlag: bool)
    ensures var r := [s] + q;
      && (Chain(r, x, max, finFlag) <==>
            (s.pos == x < s.Tail() && Proper(s, max, finFlag) && Chain(q, s.Tail(), max, finFlag)))
      && TailOf(r, x) == TailOf(q, s.Tail())
      && Payload(r) == s.data + Payload(q) && BufCount(r) == |s.bufs| + BufCount(q)
  {
    assert ([s] + q)[1..] == q;
  }

  lemma {:induction false} SumConcat(a: seq<nat>, b: seq<nat>)
    ensures Sum(a + b) == Sum(a) + Sum(b)
  {
    if a == [] {
      assert a + b == b;
    } else {
      SumConcat(a[1..], b);
      assert (a + b)[1..] == a[1..] + b;
    }
  }

  // ----- tcp_write keeps the invariant

  /** The new segments hold exactly the given bytes. */
  lemma ChunkSum(m: nat)
    ensures Sum([m]) == m && Sum([0, m]) == m
  {
    assert [m][1..] == [] && [0, m][1..] == [m];
  }

  lemma ChunkCons(d: seq<Byte>, pos: int, m: nat, q: seq<Seg>, max: nat, copy: bool)
    requires 0 < m <= |d| && m <= max
    requires Chain(q, pos + m, max, false) && TailOf(q, pos + m) == pos + |d| && Payload(q) == d[m..]
    ensures var r := [Seg(pos, d[..m], false, false, if copy then [m] else [0, m])] + q;
      Chain(r, pos, max, false) && TailOf(r, pos) == pos + |d| && Payload(r) == d
  {
    ChunkSum(m);
    Cons(Seg(pos, d[..m], false, false, if copy then [m] else [0, m]), q, pos, max, false);
    assert d[..m] + d[m..] == d;
  }

  lemma {:induction false} ChunkHolds(d: seq<Byte>, pos: int, max: nat, copy: bool)
    requires 0 < max
    ensures var q := Chunk(d, pos, max, copy);
      Chain(q, pos, max, false) && TailOf(q, pos) == pos + |d| && Payload(q) == d
    decreases |d|
  {
    if d != [] {
      var m := Min(|d|, max);
      var q := ChunkFirst(d, pos, m, max, copy);
      ChunkHolds(d[m..], pos + m, max, copy);
      ChunkCons(d, pos, m, q, max, copy);
    }
  }

  lemma ChunkFirst(d: seq<Byte>, pos: int, m: nat, max: nat, copy: bool) returns (q: seq<Seg>)
    requires 0 < max && d != [] && m == Min(|d|, max)
    ensures q == Chunk(d[m..], pos + m, max, copy)
    ensures Chunk(d, pos, max, copy) == [Seg(pos, d[..m], false, false, if copy then [m] else [0, m])] + q
  {
    q := Chunk(d[m..], pos + m, max, copy);
  }

  lemma GrowLastSum(bufs: seq<nat>, n: nat)
    ensures Sum(GrowLast(bufs, n)) == Sum(bufs) + n
    ensures |GrowLast(bufs, n)| == if bufs == [] then 1 else |bufs|
  {
    if bufs != [] {
      var l := |bufs| - 1;
      SumConcat(bufs[..l], [bufs[l]]);
      SumConcat(bufs[..l], [bufs[l] + n]);
      assert bufs[..l] + [bufs[l]] == bufs;
    }
  }

  lemma GrownHolds(s: Seg, d: seq<Byte>, used: nat, chained: nat, extend: bool)
    requires used + chained == |d| && s.bufs != [] && Sum(s.bufs) == |s.data|
    ensures var g := Grown(s, d, used, chained, extend);
      && g.data == s.data + d && Sum(g.bufs) == |g.data| && g.bufs != []
      && |g.bufs| == |s.bufs| + if chained > 0 && !extend then 1 else 0
  {
    GrowLastSum(s.bufs, used);
    var b := if used > 0 then GrowLast(s.bufs, used) else s.bufs;
    GrowLastSum(b, chained);
    SumConcat(b, [chained]);
    assert Sum([chained]) == chained;
  }

  lemma LastIsProper(init: seq<Seg>, l: Seg, x: int, max: int, finFlag: bool)
    requires Chain(init + [l], x, max, finFlag)
    ensures Proper(l, max, finFlag) && l.pos < l.Tail() && TailOf(init + [l], x) == l.Tail()
  {
    ConcatChain(init, [l], x, max, finFlag);
    assert [l] + [] == [l];
    Cons(l, [], TailOf(init, x), max, finFlag);
  }

  /** The last unsent segment after a write. */
  lemma LastGrown(st: Snd, d: seq<Byte>, a: WriteArgs)
    requires SpareFits(st) && st.unsent != [] && Proper(Last(st), st.MssLocal(), false)
    ensures var f, l := Fill(st, |d|), Last(st);
      var g := Grown(l, d[..f], Used(st, |d|), Chained(st, |d|), Extends(st, |d|, a));
      && g.data == l.data + d[..f] && Proper(g, st.MssLocal(), false)
      && g.pos == l.pos && g.Tail() == l.Tail() + f
      && |g.bufs| == |l.bufs| + if Chained(st, |d|) > 0 && !Extends(st, |d|, a) then 1 else 0
  {
    GrownHolds(Last(st), d[..Fill(st, |d|)], Used(st, |d|), Chained(st, |d|), Extends(st, |d|, a));
  }

  /** The last segment `l` of a queue becomes `g`, and `segs` follow it. */
  lemma ReplaceLast(init: seq<Seg>, l: Seg, g: Seg, segs: seq<Seg>, x: int, max: int, finFlag: bool)
    requires Chain(init + [l], x, max, finFlag)
    requires g.pos == l.pos && g.pos < g.Tail() && Proper(g, max, finFlag) && Chain(segs, g.Tail(), max, finFlag)
    ensures Chain(init + ([g] + segs), x, max, finFlag)
    ensures TailOf(init + [l], x) == l.Tail() && TailOf(init + ([g] + segs), x) == TailOf(segs, g.Tail())
    ensures Proper(l, max, finFlag)
  {
    var y := TailOf(init, x);
    ConcatChain(init, [l], x, max, finFlag);
    assert [l] + [] == [l];
    Cons(l, [], y, max, finFlag);
    Cons(g, segs, y, max, finFlag);
    ConcatChain(init, [g] + segs, x, max, finFlag);
  }

  lemma ReplaceLastSums(init: seq<Seg>, l: Seg, g: Seg, segs: seq<Seg>, d: seq<Byte>)
    requires g.data + Payload(segs) == l.data + d
    ensures Payload(init + ([g] + segs)) == Payload(init + [l]) + d
    ensures BufCount(init + ([g] + segs)) == BufCount(init + [l]) - |l.bufs| + |g.bufs| + BufCount(segs)
  {
    ConcatSums(init, [l]);
    ConcatSums(init, [g] + segs);
    Cons(g, segs, 0, 0, false);
    assert [l] + [] == [l];
    Cons(l, [], 0, 0, false);
    assert l.data + [] == l.data;
    assert Payload(init) + (l.data + d) == Payload(init) + l.data + d;
  }

  /** What is appended, in terms of the last segment. */
  lemma NewUnsentShape(st: Snd, d: seq<Byte>, a: WriteArgs) returns (init: seq<Seg>, g: Seg)
    requires SpareFits(st) && st.unsent != []
    ensures st.unsent == init + [Last(st)]
    ensures NewUnsent(st, d, a) == init + ([g] + NewSegs(st, d, a))
    ensures g == Grown(Last(st), d[..Fill(st, |d|)], Used(st, |d|), Chained(st, |d|), Extends(st, |d|, a))
  {
    init := st.unsent[..|st.unsent| - 1];
    g := Grown(Last(st), d[..Fill(st, |d|)], Used(st, |d|), Chained(st, |d|), Extends(st, |d|, a));
    Associate(init, g, NewSegs(st, d, a));
    LastSplits(st.unsent);
  }

  lemma Associate(a: seq<Seg>, x: Seg, b: seq<Seg>)
    ensures a + [x] + b == a + ([x] + b)
  {
  }

  lemma LastSplits(q: seq<Seg>)
    requires q != []
    ensures q == q[..|q| - 1] + [q[|q| - 1]]
  {
  }

  /** The segments of the third phase follow what the first two fill. */
  lemma NewSegsHold(st: Snd, d: seq<Byte>, a: WriteArgs)
    requires SpareFits(st)
    ensures var f, q := Fill(st, |d|), NewSegs(st, d, a);
      && Chain(q, st.lbb + f, st.MssLocal(), false) && TailOf(q, st.lbb + f) == st.lbb + |d| && Payload(q) == d[f..]
  {
    var f := Fill(st, |d|);
    ChunkHolds(d[f..], st.lbb + f, st.MssLocal(), a.copy);
  }

  lemma AppendChains(st: Snd, d: seq<Byte>, a: WriteArgs, mid: int)
    requires SpareFits(st)
    requires Chain(st.unsent, mid, st.MssLocal(), false) && TailOf(st.unsent, mid) == st.lbb
    ensures Chain(NewUnsent(st, d, a), mid, st.MssLocal(), false)
    ensures TailOf(NewUnsent(st, d, a), mid) == st.lbb + |d|
  {
    NewSegsHold(st, d, a);
    if st.unsent != [] { AppendChainsBehind(st, d, a, mid); }
  }

  lemma AppendChainsBehind(st: Snd, d: seq<Byte>, a: WriteArgs, mid: int)
    requires SpareFits(st) && st.unsent != []
    requires Chain(st.unsent, mid, st.MssLocal(), false) && TailOf(st.unsent, mid) == st.lbb
    requires Chain(NewSegs(st, d, a), st.lbb + Fill(st, |d|), st.MssLocal(), false)
    ensures Chain(NewUnsent(st, d, a), mid, st.MssLocal(), false)
    ensures TailOf(NewUnsent(st, d, a), mid) == TailOf(NewSegs(st, d, a), st.lbb + Fill(st, |d|))
  {
    var init, g := NewUnsentShape(st, d, a);
    LastIsProper(init, Last(st), mid, st.MssLocal(), false);
    LastGrown(st, d, a);
    ReplaceLast(init, Last(st), g, NewSegs(st, d, a), mid, st.MssLocal(), false);
  }

  lemma TailJoined(x: seq<Byte>, d: seq<Byte>, f: nat)
    requires f <= |d|
    ensures x + d[..f] + d[f..] == x + d
  {
    assert d[..f] + d[f..] == d;
  }

  lemma AppendSums(st: Snd, d: seq<Byte>, a: WriteArgs)
    requires SpareFits(st) && (st.unsent != [] ==> Proper(Last(st), st.MssLocal(), false))
    ensures Payload(NewUnsent(st, d, a)) == Payload(st.unsent) + d
    ensures BufCount(NewUnsent(st, d, a)) == BufCount(st.unsent) + NewBufs(st, d, a)
  {
    NewSegsHold(st, d, a);
    if st.unsent == [] {
      AppendSumsAlone(st, d, a);
    } else {
      AppendSumsBehind(st, d, a);
    }
  }

  lemma AppendSumsAlone(st: Snd, d: seq<Byte>, a: WriteArgs)
    requires SpareFits(st) && st.unsent == [] && Payload(NewSegs(st, d, a)) == d[Fill(st, |d|)..]
    ensures Payload(NewUnsent(st, d, a)) == Payload(st.unsent) + d
    ensures BufCount(NewUnsent(st, d, a)) == BufCount(st.unsent) + NewBufs(st, d, a)
  {
    assert Fill(st, |d|) == 0 && Chained(st, |d|) == 0;
    assert d[0..] == d && Payload([]) == [] && BufCount([]) == 0 && [] + d == d;
  }

  lemma AppendSumsBehind(st: Snd, d: seq<Byte>, a: WriteArgs)
    requires SpareFits(st) && st.unsent != [] && Proper(Last(st), st.MssLocal(), false)
    requires Payload(NewSegs(st, d, a)) == d[Fill(st, |d|)..]
    ensures Payload(NewUnsent(st, d, a)) == Payload(st.unsent) + d
    ensures BufCount(NewUnsent(st, d, a)) == BufCount(st.unsent) + NewBufs(st, d, a)
  {
    var init, g := NewUnsentShape(st, d, a);
    LastGrown(st, d, a);
    TailJoined(Last(st).data, d, Fill(st, |d|));
    ReplaceLastSums(init, Last(st), g, NewSegs(st, d, a), d);
  }

  lemma {:induction false} ChunkLast(d: seq<Byte>, pos: int, max: nat, copy: bool)
    requires 0 < max && d != []
    ensures var q := Chunk(d, pos, max, copy); q != [] && 0 < |q[|q| - 1].data| <= max
    decreases |d|
  {
    var m := Min(|d|, max);
    if |d| > m { ChunkLast(d[m..], pos + m, max, copy); }
  }

  lemma LastOfNewUnsent(st: Snd, d: seq<Byte>, a: WriteArgs)
    requires SpareFits(st)
    ensures var q, segs := NewUnsent(st, d, a), NewSegs(st, d, a);
      && (q == [] <==> st.unsent == [] && d == [])
      && (segs == [] <==> Fill(st, |d|) == |d|)
      && (segs != [] ==> q[|q| - 1] == segs[|segs| - 1] && 0 < |segs[|segs| - 1].data| <= st.MssLocal())
      && (segs == [] && q != [] ==> |q[|q| - 1].data| == |Last(st).data| + |d|)
  {
    var f := Fill(st, |d|);
    if f < |d| {
      ChunkLast(d[f..], st.lbb + f, st.MssLocal(), a.copy);
    }
    if st.unsent != [] {
      var init, g := NewUnsentShape(st, d, a);
    }
  }

  lemma WriteSpareFits(st: Snd, d: seq<Byte>, a: WriteArgs)
    requires SpareFits(st)
    ensures SpareFits(Written(st, d, a))
  {
    LastOfNewUnsent(st, d, a);
    var l := if NewUnsent(st, d, a) == [] then 0 else |Last(Written(st, d, a)).data|;
    if NewSegs(st, d, a) == [] {
      SpareGrown(st, d, a);
    } else {
      SpareNew(st, d, a, l);
    }
    assert Written(st, d, a).MssLocal() == st.MssLocal();
  }

  /** The spare room behind new segments. */
  lemma SpareNew(st: Snd, d: seq<Byte>, a: WriteArgs, n: nat)
    requires SpareFits(st) && Fill(st, |d|) < |d|
    requires var segs := NewSegs(st, d, a); segs != [] && n == |segs[|segs| - 1].data| && 0 < n <= st.MssLocal()
    ensures 0 <= NewOversize(st, d, a) && n + NewOversize(st, d, a) <= st.MssLocal()
  {
  }

  /** The spare room behind the last segment when it took all the bytes. */
  lemma SpareGrown(st: Snd, d: seq<Byte>, a: WriteArgs)
    requires SpareFits(st) && NewSegs(st, d, a) == [] && Fill(st, |d|) == |d|
    ensures 0 <= NewOversize(st, d, a) && (st.unsent == [] ==> NewOversize(st, d, a) == 0)
    ensures st.unsent != [] ==> |Last(st).data| + |d| + NewOversize(st, d, a) <= st.MssLocal()
    ensures NewOversize(st, d, a) > 0 ==> st.unsent != [] && Last(st).data != []
  {
  }

  /** Where the queue starts does not depend on which list is empty. */
  lemma FirstIs(st: Snd, x: int)
    requires Chain(st.unacked, x, st.MssLocal(), st.finFlag)
    requires Chain(st.unsent, TailOf(st.unacked, x), st.MssLocal(), st.finFlag)
    requires TailOf(st.unsent, TailOf(st.unacked, x)) == st.End()
    ensures First(st) == x
  {
  }

  lemma WriteTiles(st: Snd, d: seq<Byte>, a: WriteArgs)
    requires Tiles(st) && SpareFits(st) && !st.finFlag && !st.piggy
    ensures Tiles(Written(st, d, a)) && First(Written(st, d, a)) == First(st)
  {
    AppendChains(st, d, a, TailOf(st.unacked, First(st)));
    FirstIs(Written(st, d, a), First(st));
  }

  lemma WriteConserves(st: Snd, d: seq<Byte>, a: WriteArgs)
    requires Inv(st) && !st.finFlag && |d| <= st.sndBuf
    ensures Conserves(Written(st, d, a))
  {
    if st.unsent != [] { LastUnsentIsProper(st); }
    AppendSums(st, d, a);
    PayloadAppends(st.released, Payload(st.unacked), Payload(st.unsent), d);
  }

  lemma LastUnsentIsProper(st: Snd)
    requires Tiles(st) && st.unsent != []
    ensures Proper(Last(st), st.MssLocal(), st.finFlag)
  {
    var init := st.unsent[..|st.unsent| - 1];
    LastSplits(st.unsent);
    LastIsProper(init, Last(st), TailOf(st.unacked, First(st)), st.MssLocal(), st.finFlag);
  }

  lemma PayloadAppends(released: seq<Byte>, p: seq<Byte>, q: seq<Byte>, d: seq<Byte>)
    ensures released + p + (q + d) == released + p + q + d
  {
  }

  lemma WriteKeeps(st: Snd, d: seq<Byte>, a: WriteArgs)
    requires Inv(st) && !st.finFlag && |d| <= st.sndBuf
    ensures Inv(Written(st, d, a))
    ensures First(Written(st, d, a)) == First(st)
  {
    WriteTiles(st, d, a);
    WriteConserves(st, d, a);
    WriteSpareFits(st, d, a);
  }

  // ----- SYN and FIN

  /** tcp_enqueue_flags */
  function Enqueued(st: Snd, syn: bool, fin: bool): Snd {
    st.(unsent := st.unsent + [Seg(st.lbb, [], syn, fin, [0])], lbb := st.lbb + 1,
        queuelen := st.queuelen + 1, oversize := 0, finFlag := st.finFlag || fin)
  }

  /** tcp_send_fin: the FIN goes to the last unsent segment if that has no flag. */
  function FinSent(st: Snd): Snd {
    if st.unsent != [] && !Last(st).syn && !Last(st).fin then
      var l := |st.unsent| - 1;
      st.(unsent := st.unsent[..l] + [Last(st).(fin := true)], piggy := true, finFlag := true)
    else Enqueued(st, false, true)
  }

  /** More FINs are allowed: nothing else changes. */
  lemma {:induction false} AllowFin(q: seq<Seg>, x: int, max: int)
    requires Chain(q, x, max, false)
    ensures Chain(q, x, max, true)
  {
    if q != [] { AllowFin(q[1..], q[0].Tail(), max); }
  }

  lemma EnqueueKeeps(st: Snd, syn: bool, fin: bool)
    requires Inv(st) && (syn || fin) && !st.finFlag
    ensures Inv(Enqueued(st, syn, fin)) && First(Enqueued(st, syn, fin)) == First(st)
  {
    var e, mid, max := Enqueued(st, syn, fin), TailOf(st.unacked, First(st)), st.MssLocal();
    var s := Seg(st.lbb, [], syn, fin, [0]);
    if fin {
      AllowFin(st.unacked, First(st), max);
      AllowFin(st.unsent, mid, max);
    }
    ConcatChain(st.unsent, [s], mid, max, e.finFlag);
    ConcatSums(st.unsent, [s]);
    assert [s] + [] == [s];
    assert Sum([0]) == 0;
    Cons(s, [], st.lbb, max, e.finFlag);
    FirstIs(e, First(st));
    assert Payload(st.unsent) + [] == Payload(st.unsent);
  }

  lemma FinKeeps(st: Snd)
    requires Inv(st) && !st.finFlag
    ensures Inv(FinSent(st)) && First(FinSent(st)) == First(st)
    ensures FinSent(st).End() == st.End() + 1
  {
    if st.unsent != [] && !Last(st).syn && !Last(st).fin {
      var e, mid, max := FinSent(st), TailOf(st.unacked, First(st)), st.MssLocal();
      var init, l := st.unsent[..|st.unsent| - 1], Last(st);
      var g := l.(fin := true);
      assert init + [l] == st.unsent && init + ([g] + []) == e.unsent;
      AllowFin(st.unacked, First(st), max);
      AllowFin(st.unsent, mid, max);
      LastIsProper(init, l, mid, max, true);
      ReplaceLast(init, l, g, [], mid, max, true);
      ReplaceLastSums(init, l, g, [], []);
      FirstIs(e, First(st));
    } else {
      EnqueueKeeps(st, false, true);
    }
  }

  // ----- acknowledgements

  /** tcp_free_acked_segments: what stays, and what goes. */
  function Kept(q: seq<Seg>, ack: int): seq<Seg> {
    if q != [] && q[0].Tail() <= ack then Kept(q[1..], ack) else q
  }

  function Freed(q: seq<Seg>, ack: int): seq<Seg> {
    if q != [] && q[0].Tail() <= ack then [q[0]] + Freed(q[1..], ack) else []
  }

  /** Two lists, each in order, as one. */
  function Merge(a: seq<Seg>, b: seq<Seg>): seq<Seg>
    decreases |a| + |b|
  {
    if a == [] then b
    else if b == [] then a
    else if a[0].pos < b[0].pos then [a[0]] + Merge(a[1..], b)
    else [b[0]] + Merge(a, b[1..])
  }

  lemma {:induction false} MergeSums(a: seq<Seg>, b: seq<Seg>)
    ensures |Payload(Merge(a, b))| == |Payload(a)| + |Payload(b)|
    ensures BufCount(Merge(a, b)) == BufCount(a) + BufCount(b)
    decreases |a| + |b|
  {
    if a != [] && b != [] {
      if a[0].pos < b[0].pos {
        MergeSums(a[1..], b);
        Cons(a[0], Merge(a[1..], b), 0, 0, false);
      } else {
        MergeSums(a, b[1..]);
        Cons(b[0], Merge(a, b[1..]), 0, 0, false);
      }
    }
  }

  /** Lists that follow each other are merged by putting one behind the other. */
  lemma {:induction false} MergeFollowing(a: seq<Seg>, b: seq<Seg>, x: int, max: int, finFlag: bool)
    requires Chain(a, x, max, finFlag) && (b != [] ==> TailOf(a, x) <= b[0].pos)
    ensures Merge(a, b) == a + b
    decreases |a|
  {
    if a != [] && b != [] {
      TailGrows(a[1..], a[0].Tail(), max, finFlag);
      MergeFollowing(a[1..], b, a[0].Tail(), max, finFlag);
      assert [a[0]] + (a[1..] + b) == a + b;
    } else {
      assert a + [] == a && [] + b == b;
    }
  }

  /** tcp_receive for an acknowledgement of position `ack`. */
  function Acked(st: Snd, ack: int): Snd {
    if st.lastack < ack <= st.nxt then
      var u, n := Kept(st.unacked, ack), Kept(st.unsent, ack);
      var gone := Payload(Merge(Freed(st.unacked, ack), Freed(st.unsent, ack)));
      st.(unacked := u, unsent := n, lastack := ack,
          sndBuf := st.sndBuf + |gone|,
          queuelen := st.queuelen - BufCount(Freed(st.unacked, ack)) - BufCount(Freed(st.unsent, ack)),
          oversize := if n == [] then 0 else st.oversize,
          released := st.released + gone)
    else st
  }

  /** An acknowledgement frees exactly the segments that end at or before it. */
  lemma {:induction false} KeptHolds(q: seq<Seg>, x: int, ack: int, max: int, finFlag: bool)
    requires Chain(q, x, max, finFlag)
    ensures var y := TailOf(Freed(q, ack), x);
      && Chain(Kept(q, ack), y, max, finFlag) && TailOf(Kept(q, ack), y) == TailOf(q, x)
      && x <= y <= Max(x, ack)
      && (Kept(q, ack) != [] ==> ack < Kept(q, ack)[0].Tail() <= TailOf(q, x))
      && (Kept(q, ack) == [] ==> y == TailOf(q, x))
    ensures x >= ack ==> Freed(q, ack) == [] && Kept(q, ack) == q
  {
    if q != [] {
      TailGrows(q[1..], q[0].Tail(), max, finFlag);
      if q[0].Tail() <= ack {
        KeptHolds(q[1..], q[0].Tail(), ack, max, finFlag);
        Cons(q[0], Freed(q[1..], ack), x, max, finFlag);
      }
    }
  }

  lemma {:induction false} TailGrows(q: seq<Seg>, x: int, max: int, finFlag: bool)
    requires Chain(q, x, max, finFlag)
    ensures x <= TailOf(q, x)
  {
    if q != [] { TailGrows(q[1..], q[0].Tail(), max, finFlag); }
  }

  lemma {:induction false} FreedSums(q: seq<Seg>, ack: int)
    ensures Payload(q) == Payload(Freed(q, ack)) + Payload(Kept(q, ack))
    ensures BufCount(q) == BufCount(Freed(q, ack)) + BufCount(Kept(q, ack))
  {
    if q != [] && q[0].Tail() <= ack {
      FreedSums(q[1..], ack);
      Cons(q[0], Freed(q[1..], ack), 0, 0, false);
      assert q[0].data + (Payload(Freed(q[1..], ack)) + Payload(Kept(q[1..], ack)))
          == q[0].data + Payload(Freed(q[1..], ack)) + Payload(Kept(q[1..], ack));
    }
  }

  lemma {:induction false} KeptLast(q: seq<Seg>, ack: int)
    ensures Kept(q, ack) != [] ==> q != [] && Kept(q, ack)[|Kept(q, ack)| - 1] == q[|q| - 1]
  {
    if q != [] && q[0].Tail() <= ack { KeptLast(q[1..], ack); }
  }

  lemma AckTiles(st: Snd, ack: int)
    requires Inv(st) && st.lastack < ack <= st.nxt
    ensures Tiles(Acked(st, ack))
    ensures Kept(st.unacked, ack) != [] ==> Freed(st.unsent, ack) == []
  {
    var x, max, e := First(st), st.MssLocal(), Acked(st, ack);
    var mid := TailOf(st.unacked, x);
    KeptHolds(st.unacked, x, ack, max, st.finFlag);
    KeptHolds(st.unsent, mid, ack, max, st.finFlag);
    var y := TailOf(Freed(st.unacked, ack), x);
    if Kept(st.unacked, ack) != [] {
      FirstIs(e, y);
    } else {
      FirstIs(e, TailOf(Freed(st.unsent, ack), mid));
    }
  }

  lemma {:induction false} FreedFirst(q: seq<Seg>, ack: int)
    ensures Freed(q, ack) + Kept(q, ack) == q
  {
    if q != [] && q[0].Tail() <= ack {
      FreedFirst(q[1..], ack);
      assert [q[0]] + Freed(q[1..], ack) + Kept(q[1..], ack) == [q[0]] + (Freed(q[1..], ack) + Kept(q[1..], ack));
    }
  }

  /** What an acknowledgement frees of both lists follows each other. */
  lemma FreedFollows(st: Snd, ack: int)
    requires Inv(st) && (Kept(st.unacked, ack) == [] || Freed(st.unsent, ack) == [])
    ensures var u, n := Freed(st.unacked, ack), Freed(st.unsent, ack);
      Merge(u, n) == u + n && Payload(Merge(u, n)) == Payload(u) + Payload(n)
  {
    var u, n := Freed(st.unacked, ack), Freed(st.unsent, ack);
    FreedFirst(st.unacked, ack);
    FreedFirst(st.unsent, ack);
    ConcatChain(u, Kept(st.unacked, ack), First(st), st.MssLocal(), st.finFlag);
    assert u + [] == u;
    assert n != [] ==> n[0] == st.unsent[0];
    MergeFollowing(u, n, First(st), st.MssLocal(), st.finFlag);
    ConcatSums(u, n);
  }

  lemma AckConserves(st: Snd, ack: int)
    requires Inv(st) && (Kept(st.unacked, ack) == [] || Freed(st.unsent, ack) == [])
    ensures Conserves(Acked(st, ack))
  {
    FreedFollows(st, ack);
    FreedSums(st.unacked, ack);
    FreedSums(st.unsent, ack);
    Regroup(st.released, Payload(Freed(st.unacked, ack)), Payload(Kept(st.unacked, ack)),
            Payload(Freed(st.unsent, ack)), Payload(Kept(st.unsent, ack)));
  }

  lemma Regroup(r: seq<Byte>, a: seq<Byte>, b: seq<Byte>, c: seq<Byte>, d: seq<Byte>)
    requires b == [] || c == []
    ensures r + (a + c) + b + d == r + (a + b) + (c + d)
  {
  }

  lemma AckShaped(st: Snd, ack: int)
    requires Shaped(st)
    ensures Shaped(Acked(st, ack))
  {
    KeptLast(st.unsent, ack);
    assert Acked(st, ack).MssLocal() == st.MssLocal();
  }

  lemma AckKeeps(st: Snd, ack: int)
    requires Inv(st)
    ensures Inv(Acked(st, ack))
  {
    if st.lastack < ack <= st.nxt {
      AckTiles(st, ack);
      AckConserves(st, ack);
      AckShaped(st, ack);
    }
  }

  // ----- tcp_output

  /** A segment goes in front of the first one that does not start before it. */
  function InsertSorted(q: seq<Seg>, s: Seg): seq<Seg> {
    if q != [] && q[0].pos < s.pos then [q[0]] + InsertSorted(q[1..], s) else [s] + q
  }

  lemma TailSlices(q: seq<Seg>, i: nat)
    requires 0 < i <= |q|
    ensures q[1..][i - 1..] == q[i..] && [q[0]] + q[1..][..i - 1] == q[..i]
  {
  }

  /** `i` is the index of the first segment that does not start before `x`. */
  predicate FirstFrom(q: seq<Seg>, x: int, i: nat) {
    && i <= |q| && (forall j :: 0 <= j < i ==> q[j].pos < x)
    && (i < |q| ==> x <= q[i].pos)
  }

  lemma {:induction false} InsertSortedAt(q: seq<Seg>, s: Seg, i: nat)
    requires FirstFrom(q, s.pos, i)
    ensures InsertSorted(q, s) == q[..i] + ([s] + q[i..])
    decreases i
  {
    if i == 0 {
      assert q[0..] == q;
    } else {
      InsertSortedAt(q[1..], s, i - 1);
      TailSlices(q, i);
      assert [q[0]] + (q[1..][..i - 1] + ([s] + q[i..])) == q[..i] + ([s] + q[i..]);
    }
  }

  /** A sent segment joins the unacked ones; a retransmitted one may belong in front
      of the last of them. */
  function Requeued(q: seq<Seg>, s: Seg): seq<Seg> {
    if q != [] && s.pos < q[|q| - 1].pos then InsertSorted(q, s) else q + [s]
  }

  /** The head of the unsent queue was sent. */
  function HeadSent(st: Snd): Snd
    requires st.unsent != []
  {
    var s := st.unsent[0];
    st.(unsent := st.unsent[1..],
        unacked := if s.Tail() > s.pos then Requeued(st.unacked, s) else st.unacked,
        nxt := Max(st.nxt, s.Tail()))
  }

  predicate HeadFits(st: Snd, wnd: int) {
    st.unsent != [] && st.unsent[0].pos + |st.unsent[0].data| - st.lastack <= wnd
  }

  /** The sending loop: `go` tells for one segment after the other whether it passes
      the Nagle test and is sent without an error. */
  function Sending(st: Snd, wnd: int, go: seq<bool>): Snd
    decreases |go|
  {
    if HeadFits(st, wnd) && go != [] && go[0] then Sending(HeadSent(st), wnd, go[1..]) else st
  }

  /** tcp_output */
  function Output(st: Snd, wnd: int, go: seq<bool>): Snd {
    var s := Sending(st, wnd, go);
    if st.unsent != [] && s.unsent == [] then s.(oversize := 0) else s
  }

  lemma {:induction false} ChainStarts(q: seq<Seg>, x: int, max: int, finFlag: bool)
    requires Chain(q, x, max, finFlag) && q != []
    ensures x <= q[|q| - 1].pos < q[|q| - 1].Tail() == TailOf(q, x)
  {
    if |q| > 1 {
      ChainStarts(q[1..], q[0].Tail(), max, finFlag);
      assert q[1..][|q| - 2] == q[|q| - 1];
    } else {
      assert q[1..] == [];
    }
  }

  /** Sending moves the head of `unsent` to the end of `unacked`: both lists together
      stay what they were. */
  lemma HeadSentKeeps(st: Snd)
    requires Inv(st) && st.unsent != []
    ensures var e := HeadSent(st);
      && e.unacked + e.unsent == st.unacked + st.unsent
      && Tiles(e) && Conserves(e) && First(e) == First(st)
      && (e.unsent != [] ==> Inv(e) && Last(e) == Last(st))
  {
    HeadSentTiles(st);
    HeadSentConserves(st);
  }

  lemma HeadSentShape(st: Snd)
    requires Inv(st) && st.unsent != []
    ensures var s := st.unsent[0];
      && HeadSent(st) == st.(unacked := st.unacked + [s], unsent := st.unsent[1..], nxt := Max(st.nxt, s.Tail()))
      && [s] + st.unsent[1..] == st.unsent && st.unacked + [s] + st.unsent[1..] == st.unacked + st.unsent
  {
    HeadFirst(st.unacked, st.unsent);
    if st.unacked != [] { ChainStarts(st.unacked, First(st), st.MssLocal(), st.finFlag); }
  }

  lemma HeadFirst(a: seq<Seg>, q: seq<Seg>)
    requires q != []
    ensures [q[0]] + q[1..] == q && a + [q[0]] + q[1..] == a + q
  {
  }

  lemma HeadSentTiles(st: Snd)
    requires Inv(st) && st.unsent != []
    ensures var e := HeadSent(st);
      && e.unacked + e.unsent == st.unacked + st.unsent && Tiles(e) && First(e) == First(st)
  {
    HeadSentShape(st);
    MoveChains(st.unacked, st.unsent[0], st.unsent[1..], First(st), st.MssLocal(), st.finFlag);
    FirstIs(HeadSent(st), First(st));
  }

  lemma HeadSentConserves(st: Snd)
    requires Inv(st) && st.unsent != []
    ensures Conserves(HeadSent(st))
  {
    HeadSentShape(st);
    MoveSums(st.unacked, st.unsent[0], st.unsent[1..], st.released);
  }

  /** A segment moves from the front of one list to the end of the one before it. */
  lemma MoveChains(a: seq<Seg>, s: Seg, b: seq<Seg>, x: int, max: int, finFlag: bool)
    requires Chain(a, x, max, finFlag) && Chain([s] + b, TailOf(a, x), max, finFlag)
    ensures Chain(a + [s], x, max, finFlag) && TailOf(a + [s], x) == s.Tail() && Chain(b, s.Tail(), max, finFlag)
    ensures TailOf(b, s.Tail()) == TailOf([s] + b, TailOf(a, x)) && s.Tail() <= TailOf(b, s.Tail())
  {
    ConcatChain(a, [s], x, max, finFlag);
    assert [s] + [] == [s];
    Cons(s, [], TailOf(a, x), max, finFlag);
    Cons(s, b, TailOf(a, x), max, finFlag);
    TailGrows(b, s.Tail(), max, finFlag);
  }

  lemma MoveSums(a: seq<Seg>, s: Seg, b: seq<Seg>, r: seq<Byte>)
    ensures r + Payload(a + [s]) + Payload(b) == r + Payload(a) + Payload([s] + b)
    ensures |Payload(a + [s])| + |Payload(b)| == |Payload(a)| + |Payload([s] + b)|
    ensures BufCount(a + [s]) + BufCount(b) == BufCount(a) + BufCount([s] + b)
  {
    ConcatSums(a, [s]);
    assert [s] + [] == [s] && s.data + [] == s.data;
    Cons(s, [], 0, 0, false);
    Cons(s, b, 0, 0, false);
    SentStays(r, Payload(a), s.data, Payload(b));
  }

  lemma SentStays(a: seq<Byte>, b: seq<Byte>, c: seq<Byte>, d: seq<Byte>)
    ensures a + (b + c) + d == a + b + (c + d)
  {
  }

  lemma {:induction false} OutputKeeps(st: Snd, wnd: int, go: seq<bool>)
    requires Inv(st)
    ensures var e := Output(st, wnd, go);
      Inv(e) && First(e) == First(st) && e.unacked + e.unsent == st.unacked + st.unsent
    decreases |go|
  {
    if HeadFits(st, wnd) && go != [] && go[0] {
      HeadSentKeeps(st);
      OutputStep(st, wnd, go);
      if HeadSent(st).unsent == [] {
        NothingSpare(HeadSent(st));
      } else {
        OutputKeeps(HeadSent(st), wnd, go[1..]);
      }
    }
  }

  lemma NothingToSend(st: Snd, wnd: int, go: seq<bool>)
    requires st.unsent == []
    ensures Output(st, wnd, go) == st
  {
  }

  lemma OutputStep(st: Snd, wnd: int, go: seq<bool>)
    requires HeadFits(st, wnd) && go != [] && go[0]
    ensures var e := HeadSent(st);
      Output(st, wnd, go) == if e.unsent == [] then e.(oversize := 0) else Output(e, wnd, go[1..])
  {
    var e := HeadSent(st);
    if e.unsent == [] { assert Sending(e, wnd, go[1..]) == e; }
  }

  /** With nothing unsent there is no spare room. */
  lemma NothingSpare(e: Snd)
    requires Tiles(e) && Conserves(e) && e.unsent == []
    requires 0 < e.mss < 0x1_0000 && 0 <= e.wndMax && (e.piggy ==> e.finFlag)
    ensures Inv(e.(oversize := 0)) && First(e.(oversize := 0)) == First(e)
  {
  }

  // ----- retransmission

  /** tcp_rexmit_rto_prepare: everything unacked is to be sent again. */
  function Requeue(st: Snd): Snd {
    if st.unacked == [] then st else st.(unacked := [], unsent := st.unacked + st.unsent)
  }

  lemma RequeueKeeps(st: Snd)
    requires Inv(st)
    ensures Inv(Requeue(st)) && First(Requeue(st)) == First(st)
    ensures Requeue(st).unacked + Requeue(st).unsent == st.unacked + st.unsent
  {
    if st.unacked != [] {
      var e, x, max := Requeue(st), First(st), st.MssLocal();
      ConcatChain(st.unacked, st.unsent, x, max, st.finFlag);
      ConcatSums(st.unacked, st.unsent);
      FirstIs(e, x);
      RequeueSpare(st);
      assert st.released + [] + (Payload(st.unacked) + Payload(st.unsent))
          == st.released + Payload(st.unacked) + Payload(st.unsent);
      assert [] + (st.unacked + st.unsent) == st.unacked + st.unsent;
      TailGrows(st.unacked, x, max, st.finFlag);
    }
  }

  lemma RequeueSpare(st: Snd)
    requires Inv(st) && st.unacked != []
    ensures SpareFits(Requeue(st))
  {
    if st.unsent == [] {
      var k := |st.unacked| - 1;
      assert st.unacked[..k] + [st.unacked[k]] == st.unacked + st.unsent;
      ConcatChain(st.unacked, st.unsent, First(st), st.MssLocal(), st.finFlag);
      LastIsProper(st.unacked[..k], st.unacked[k], First(st), st.MssLocal(), st.finFlag);
    }
  }

  /** All segments of the list start before `s`: it is linked at the end. */
  predicate LinksLast(q: seq<Seg>, s: Seg) {
    forall i :: 0 <= i < |q| ==> q[i].pos < s.pos
  }

  /** tcp_rexmit: the first unacked segment goes back to the unsent ones. */
  function Rexmitted(st: Snd): Snd {
    if st.unacked == [] then st
    else
      st.(unacked := st.unacked[1..], unsent := InsertSorted(st.unsent, st.unacked[0]),
          oversize := if LinksLast(st.unsent, st.unacked[0]) then 0 else st.oversize)
  }

  /** In a tiled queue the retransmitted segment becomes the head of the unsent ones. */
  lemma RexmitShape(st: Snd)
    requires Inv(st) && st.unacked != []
    ensures Rexmitted(st) == st.(unacked := st.unacked[1..], unsent := [st.unacked[0]] + st.unsent)
    ensures st.unacked[0].pos < st.unacked[0].Tail() <= st.nxt
  {
    var r, x, max := st.unacked[0], First(st), st.MssLocal();
    TailGrows(st.unacked[1..], r.Tail(), max, st.finFlag);
    assert st.unsent != [] ==> r.pos < st.unsent[0].pos;
    assert LinksLast(st.unsent, r) <==> st.unsent == [];
  }

  /** The head of a list goes back to its front. */
  lemma RequeueHead(q: seq<Seg>, x: int, max: int, finFlag: bool)
    requires Chain(q, x, max, finFlag) && q != []
    ensures Requeued(q[1..], q[0]) == q
  {
    assert [q[0]] + q[1..] == q;
    if |q| > 1 {
      ChainStarts(q[1..], q[0].Tail(), max, finFlag);
    }
  }

  /** Fast retransmit followed by a successful transmission undoes itself: the queues,
      and with them all counters, are what they were. */
  lemma RexmitThenSendIsIdentity(st: Snd)
    requires Inv(st) && st.unacked != []
    ensures Rexmitted(st).unsent != [] && HeadSent(Rexmitted(st)) == st
  {
    RexmitShape(st);
    RequeueHead(st.unacked, First(st), st.MssLocal(), st.finFlag);
    assert ([st.unacked[0]] + st.unsent)[1..] == st.unsent;
  }

  /** A head that grew by `f` leaves the queue in one piece exactly if it did not
      grow, or nothing but new segments follows. */
  lemma GrownHeadChains(r: Seg, g: Seg, rest: seq<Seg>, segs: seq<Seg>, f: nat, x: int, max: int)
    requires Chain([r] + rest, x, max, false)
    requires g.pos == r.pos && g.Tail() == r.Tail() + f && Proper(g, max, false)
    requires Chain(segs, TailOf(rest, r.Tail()) + f, max, false)
    ensures Chain([g] + (rest + segs), x, max, false) <==> f == 0 || rest == []
  {
    Cons(r, rest, x, max, false);
    Cons(g, rest + segs, x, max, false);
    ConcatChain(rest, segs, g.Tail(), max, false);
  }

  lemma RexmittedAlone(st: Snd)
    requires Inv(st) && st.unacked != [] && st.unsent == []
    ensures var p := Rexmitted(st);
      && p.unsent == [st.unacked[0]] && p.unacked == st.unacked[1..] && p.oversize == 0
      && SpareFits(p) && p.MssLocal() == st.MssLocal()
      && Proper(st.unacked[0], st.MssLocal(), st.finFlag)
  {
    RexmitShape(st);
    assert [st.unacked[0]] + [] == [st.unacked[0]];
  }

  /** What is queued after a write between a retransmission and its transmission, in the
      order in which it will be unacked. */
  function AfterRexmit(w: Snd): seq<Seg>
    requires w.unsent != []
  {
    [w.unsent[0]] + (w.unacked + w.unsent[1..])
  }

  /** Between the retransmission and the transmission, new bytes may be appended to
      the retransmitted segment although others follow it: the queue stays in one
      piece exactly when something unsent takes them, when that segment takes no more
      bytes, or when none follow. */
  lemma WriteAfterRexmitIff(st: Snd, d: seq<Byte>, a: WriteArgs)
    requires Inv(st) && st.unacked != [] && !st.finFlag && d != []
    ensures SpareFits(Rexmitted(st))
    ensures var r, w := st.unacked[0], Written(Rexmitted(st), d, a);
      w.unsent != [] &&
      (Chain(AfterRexmit(w), First(st), st.MssLocal(), false)
       <==> (st.unsent != [] || |st.unacked| == 1 || r.data == [] || |r.data| == st.MssLocal()))
  {
    if st.unsent == [] {
      WriteAfterRexmitAlone(st, d, a);
    } else {
      WriteAfterRexmitBehind(st, d, a);
    }
  }

  lemma WriteAfterRexmitBehind(st: Snd, d: seq<Byte>, a: WriteArgs)
    requires Inv(st) && st.unacked != [] && st.unsent != [] && !st.finFlag
    ensures SpareFits(Rexmitted(st))
    ensures var w := Written(Rexmitted(st), d, a);
      w.unsent != [] && Chain(AfterRexmit(w), First(st), st.MssLocal(), false)
  {
    var r, p, mid := st.unacked[0], Rexmitted(st), TailOf(st.unacked, First(st));
    RexmitShape(st);
    SameLast(r, st.unsent);
    NewUnsentBehind(st, p, r, d, a);
    AppendChains(st, d, a, mid);
    HeadBack(st.unacked, NewUnsent(st, d, a), First(st), st.MssLocal());
  }

  lemma HeadBack(q: seq<Seg>, u: seq<Seg>, x: int, max: int)
    requires q != [] && Chain(q, x, max, false) && Chain(u, TailOf(q, x), max, false)
    ensures ([q[0]] + u)[0] == q[0] && ([q[0]] + u)[1..] == u && Chain([q[0]] + (q[1..] + u), x, max, false)
  {
    ConcatChain(q, u, x, max, false);
    assert [q[0]] + (q[1..] + u) == q + u;
  }

  lemma SameLast(r: Seg, q: seq<Seg>)
    requires q != []
    ensures ([r] + q)[|q|] == q[|q| - 1] && ([r] + q)[..|q|] == [r] + q[..|q| - 1]
  {
  }

  /** A segment in front does not change what a write appends. */
  lemma NewUnsentBehind(st: Snd, p: Snd, r: Seg, d: seq<Byte>, a: WriteArgs)
    requires SpareFits(st) && st.unsent != [] && p == st.(unacked := p.unacked, unsent := [r] + st.unsent)
    requires Last(p) == Last(st) && p.unsent[..|p.unsent| - 1] == [r] + st.unsent[..|st.unsent| - 1]
    ensures SpareFits(p) && NewUnsent(p, d, a) == [r] + NewUnsent(st, d, a)
  {
    assert p.MssLocal() == st.MssLocal();
    assert Used(p, |d|) == Used(st, |d|) && Chained(p, |d|) == Chained(st, |d|);
    assert NewSegs(p, d, a) == NewSegs(st, d, a);
  }

  lemma WriteAfterRexmitAlone(st: Snd, d: seq<Byte>, a: WriteArgs)
    requires Inv(st) && st.unacked != [] && st.unsent == [] && !st.finFlag && d != []
    ensures SpareFits(Rexmitted(st))
    ensures var r, w := st.unacked[0], Written(Rexmitted(st), d, a);
      w.unsent != [] &&
      (Chain(AfterRexmit(w), First(st), st.MssLocal(), false)
       <==> (|st.unacked| == 1 || r.data == [] || |r.data| == st.MssLocal()))
  {
    RexmittedAlone(st);
    var r, p, x, max := st.unacked[0], Rexmitted(st), First(st), st.MssLocal();
    var f, segs := Fill(p, |d|), NewSegs(p, d, a);
    var init, g := NewUnsentShape(p, d, a);
    assert init == [] && NewUnsent(p, d, a) == [g] + segs;
    LastGrown(p, d, a);
    NewSegsHold(p, d, a);
    assert [r] + st.unacked[1..] == st.unacked;
    Cons(r, st.unacked[1..], x, max, false);
    GrownHeadChains(r, g, st.unacked[1..], segs, f, x, max);
    assert ([g] + segs)[1..] == segs;
  }

  lemma RequeueAlone(st: Snd)
    requires Inv(st) && |st.unacked| == 1
    ensures Inv(Requeue(Rexmitted(st)))
  {
    var r, e := st.unacked[0], Requeue(Rexmitted(st));
    RexmitShape(st);
    RequeueKeeps(st);
    assert st.unacked == [r];
    RexmitSpare(st);
    assert e == Requeue(st).(oversize := e.oversize);
  }

  lemma NotBehind(rest: seq<Seg>, r: Seg, behind: seq<Seg>, x: int, max: int, finFlag: bool)
    requires rest != [] && r.pos < rest[0].pos
    ensures !Chain(rest + ([r] + behind), x, max, finFlag)
  {
    ConcatChain(rest, [r] + behind, x, max, finFlag);
    if Chain(rest, x, max, finFlag) { ChainStarts(rest, x, max, finFlag); }
  }

  /** A time-out between the retransmission and the transmission queues the retransmitted
      segment behind those that follow it: the queue stays in order exactly when none do. */
  lemma RequeueAfterRexmitIff(st: Snd)
    requires Inv(st) && st.unacked != []
    ensures Inv(Requeue(Rexmitted(st))) <==> |st.unacked| == 1
  {
    if |st.unacked| == 1 {
      RequeueAlone(st);
    } else {
      var e, rest := Requeue(Rexmitted(st)), st.unacked[1..];
      RexmitShape(st);
      SecondFollows(st.unacked, First(st), st.MssLocal(), st.finFlag);
      assert e.unsent == rest + ([st.unacked[0]] + st.unsent) && e.unacked == [];
      NotBehind(rest, st.unacked[0], st.unsent, First(e), e.MssLocal(), e.finFlag);
    }
  }

  lemma RexmitSpare(st: Snd)
    requires Inv(st) && st.unacked != []
    ensures SpareFits(Rexmitted(st))
  {
    RexmitShape(st);
    if st.unsent == [] { RexmittedAlone(st); } else { SameLast(st.unacked[0], st.unsent); }
  }

  // ----- splitting

  /** pbuf_realloc on the payload lengths of a chain. */
  function Shrunk(bufs: seq<nat>, n: nat): seq<nat> {
    if bufs == [] || n <= bufs[0] then [n] else [bufs[0]] + Shrunk(bufs[1..], n - bufs[0])
  }

  /** tcp_split_unsent_seg: the head keeps `n` bytes, the rest follows it. */
  function Split(st: Snd, n: nat): Snd
    requires st.unsent != [] && 0 < n < |st.unsent[0].data|
  {
    var s := st.unsent[0];
    var h := s.(data := s.data[..n], bufs := Shrunk(s.bufs, n));
    var t := Seg(s.pos + n, s.data[n..], false, s.fin, [|s.data| - n]);
    st.(unsent := [h, t] + st.unsent[1..],
        queuelen := st.queuelen - |s.bufs| + |h.bufs| + 1,
        oversize := if |st.unsent| == 1 then 0 else st.oversize)
  }

  lemma {:induction false} ShrunkHolds(bufs: seq<nat>, n: nat)
    requires bufs != [] && n <= Sum(bufs)
    ensures Shrunk(bufs, n) != [] && Sum(Shrunk(bufs, n)) == n && |Shrunk(bufs, n)| <= |bufs|
  {
    if n > bufs[0] {
      ShrunkHolds(bufs[1..], n - bufs[0]);
      assert ([bufs[0]] + Shrunk(bufs[1..], n - bufs[0]))[1..] == Shrunk(bufs[1..], n - bufs[0]);
    } else {
      assert [n][1..] == [];
    }
  }

  /** The head that a split leaves is outstanding exactly if the peer has not already
      acknowledged that much of it. */
  lemma SplitOutstandingIff(st: Snd, n: nat)
    requires Inv(st) && st.unsent != [] && 0 < n < |st.unsent[0].data| && !st.unsent[0].fin
    ensures HeadIsOutstanding(Split(st, n)) <==> (st.unacked != [] || st.lastack < st.unsent[0].pos + n)
  {
    assert st.unsent == [st.unsent[0]] + st.unsent[1..];
    Cons(st.unsent[0], st.unsent[1..], TailOf(st.unacked, First(st)), st.MssLocal(), st.finFlag);
  }

  /** A split changes neither the bytes nor the sequence space that is queued. */
  lemma SplitKeeps(st: Snd, n: nat)
    requires Inv(st) && st.unsent != [] && 0 < n < |st.unsent[0].data| && !st.unsent[0].fin
    requires st.unacked != [] || st.lastack < st.unsent[0].pos + n
    ensures Inv(Split(st, n)) && First(Split(st, n)) == First(st)
    ensures Payload(Split(st, n).unsent) == Payload(st.unsent)
  {
    SplitParts(st, n);
    SplitShaped(st, n);
    FirstIs(Split(st, n), First(st));
  }

  lemma SplitParts(st: Snd, n: nat)
    requires Inv(st) && st.unsent != [] && 0 < n < |st.unsent[0].data| && !st.unsent[0].fin
    ensures var u, mid, max := Split(st, n).unsent, TailOf(st.unacked, First(st)), st.MssLocal();
      && Chain(u, mid, max, st.finFlag) && TailOf(u, mid) == TailOf(st.unsent, mid)
      && Payload(u) == Payload(st.unsent)
      && BufCount(u) == BufCount(st.unsent) - |st.unsent[0].bufs| + |u[0].bufs| + 1
  {
    var u, mid, max := Split(st, n).unsent, TailOf(st.unacked, First(st)), st.MssLocal();
    var s, rest := st.unsent[0], st.unsent[1..];
    assert st.unsent == [s] + rest;
    Cons(s, rest, mid, max, st.finFlag);
    ShrunkHolds(s.bufs, n);
    SplitChain(s, u[0], u[1], rest, mid, max, st.finFlag, n);
    assert u == [u[0]] + ([u[1]] + rest);
  }

  lemma SplitShaped(st: Snd, n: nat)
    requires Shaped(st) && st.unsent != [] && 0 < n < |st.unsent[0].data|
    requires |st.unsent| == 1 ==> |st.unsent[0].data| <= st.MssLocal()
    ensures Shaped(Split(st, n))
  {
    var e := Split(st, n);
    assert e.MssLocal() == st.MssLocal();
    if |st.unsent| > 1 { assert Last(e) == Last(st); }
  }

  /** The two parts in place of the head. */
  lemma SplitChain(s: Seg, h: Seg, t: Seg, rest: seq<Seg>, mid: int, max: int, finFlag: bool, n: nat)
    requires Chain([s] + rest, mid, max, finFlag) && 0 < n < |s.data| && !s.fin
    requires h == s.(data := s.data[..n], bufs := h.bufs) && h.bufs != [] && Sum(h.bufs) == n
    requires t == Seg(s.pos + n, s.data[n..], false, false, [|s.data| - n])
    ensures Chain([h] + ([t] + rest), mid, max, finFlag) && TailOf([h] + ([t] + rest), mid) == TailOf([s] + rest, mid)
    ensures Payload([h] + ([t] + rest)) == Payload([s] + rest)
    ensures BufCount([h] + ([t] + rest)) == BufCount([s] + rest) - |s.bufs| + |h.bufs| + 1
  {
    ChunkSum(|s.data| - n);
    Cons(s, rest, mid, max, finFlag);
    Cons(t, rest, h.Tail(), max, finFlag);
    Cons(h, [t] + rest, mid, max, finFlag);
    assert s.data[..n] + s.data[n..] == s.data;
    assert h.data + (t.data + Payload(rest)) == s.data + Payload(rest);
  }

  lemma SecondFollows(q: seq<Seg>, x: int, max: int, finFlag: bool)
    requires Chain(q, x, max, finFlag) && |q| > 1
    ensures q[1].pos == q[0].Tail()
  {
    assert q[1..][0] == q[1];
  }

  /** A split keeps the queue in order exactly if the head carries no FIN, which would
      stay on it as well as go with the rest, and is not acknowledged that far. */
  lemma SplitKeepsIff(st: Snd, n: nat)
    requires Inv(st) && st.unsent != [] && 0 < n < |st.unsent[0].data|
    ensures Inv(Split(st, n)) <==> (!st.unsent[0].fin && (st.unacked != [] || st.lastack < st.unsent[0].pos + n))
  {
    var e := Split(st, n);
    if st.unsent[0].fin {
      if Inv(e) { SecondFollows(e.unsent, TailOf(e.unacked, First(e)), e.MssLocal(), e.finFlag); }
      assert e.unsent[0].Tail() == st.unsent[0].pos + n + 1 && e.unsent[1].pos == st.unsent[0].pos + n;
    } else if st.unacked != [] || st.lastack < st.unsent[0].pos + n {
      SplitKeeps(st, n);
    } else {
      SplitOutstandingIff(st, n);
    }
  }

  // ----- the largest window

  /** A window update: snd_wnd_max only grows. */
  function Widened(st: Snd, wnd: int): Snd {
    st.(wndMax := Max(st.wndMax, wnd))
  }

  /** All segments hold at most `max` bytes. */
  predicate AllFit(q: seq<Seg>, max: int) {
    q == [] || (|q[0].data| <= max && AllFit(q[1..], max))
  }

  /** What is queued, the spare room at its end included, fits into segments of `max` bytes. */
  predicate QueuesFit(st: Snd, max: int) {
    && AllFit(st.unacked, max) && AllFit(st.unsent, max)
    && (st.unsent != [] ==> |Last(st).data| + st.oversize <= max)
  }

  lemma {:induction false} ChainFits(q: seq<Seg>, x: int, max: int, max': int, finFlag: bool)
    requires Chain(q, x, max, finFlag)
    ensures Chain(q, x, max', finFlag) <==> AllFit(q, max')
    ensures max <= max' ==> AllFit(q, max')
  {
    if q != [] { ChainFits(q[1..], q[0].Tail(), max, max', finFlag); }
  }

  /** The largest segment gets smaller only if no window of 2 was seen yet. */
  lemma MssGrows(st: Snd, wnd: int)
    requires 0 < st.mss < 0x1_0000 && 2 <= st.wndMax
    ensures st.MssLocal() <= Widened(st, wnd).MssLocal()
  {
  }

  lemma WidenedFits(st: Snd, wnd: int)
    requires Inv(st) && 2 <= st.wndMax
    ensures QueuesFit(st, Widened(st, wnd).MssLocal())
  {
    MssGrows(st, wnd);
    var m := Widened(st, wnd).MssLocal();
    ChainFits(st.unacked, First(st), st.MssLocal(), m, st.finFlag);
    ChainFits(st.unsent, TailOf(st.unacked, First(st)), st.MssLocal(), m, st.finFlag);
  }

  /** A window update keeps the queues in shape exactly if what is queued fits into the
      segments tcp_write makes from then on; that is always so unless the largest window
      seen before was 0 or 1, with which segments of a whole mss are made. */
  lemma WidenKeepsIff(st: Snd, wnd: int)
    requires Inv(st)
    ensures Inv(Widened(st, wnd)) <==> QueuesFit(st, Widened(st, wnd).MssLocal())
    ensures 2 <= st.wndMax ==> QueuesFit(st, Widened(st, wnd).MssLocal())
  {
    var m := Widened(st, wnd).MssLocal();
    ChainFits(st.unacked, First(st), st.MssLocal(), m, st.finFlag);
    ChainFits(st.unsent, TailOf(st.unacked, First(st)), st.MssLocal(), m, st.finFlag);
    if 2 <= st.wndMax { WidenedFits(st, wnd); }
  }
}
