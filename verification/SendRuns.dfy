/** The send queues over every run of a connection. */
module SendRuns {
  import opened SeqNum
  import opened SendQueue

  // A segment that is to be sent again leaves the unacked list for the unsent one and comes
  // back when it is sent.  In between the two lists interleave, in any way: what counts is the
  // list they make when they are merged.

  // ----- lists in order

  /** Strictly ascending positions. */
  ghost predicate Ascends(q: seq<Seg>) {
    q == [] || (Ascends(q[1..]) && forall y :: y in q[1..] ==> q[0].pos < y.pos)
  }

  ghost predicate Apart(a: seq<Seg>, b: seq<Seg>) {
    forall x, y :: x in a && y in b ==> x.pos != y.pos
  }

  /** Each segment ends before the next one starts. */
  ghost predicate Disjoint(q: seq<Seg>) {
    && (forall x :: x in q ==> x.pos < x.Tail())
    && (forall x, y :: x in q && y in q && x.pos < y.pos ==> x.Tail() <= y.pos)
  }

  lemma {:induction false} MergeHas(a: seq<Seg>, b: seq<Seg>)
    requires Ascends(a) && Ascends(b) && Apart(a, b)
    ensures Ascends(Merge(a, b))
    ensures forall x :: x in Merge(a, b) <==> x in a || x in b
    decreases |a| + |b|
  {
    if a != [] && b != [] {
      if a[0].pos < b[0].pos {
        MergeHas(a[1..], b);
        assert ([a[0]] + Merge(a[1..], b))[1..] == Merge(a[1..], b);
      } else {
        assert a[0] in a && b[0] in b;
        MergeHas(a, b[1..]);
        assert ([b[0]] + Merge(a, b[1..]))[1..] == Merge(a, b[1..]);
      }
    }
  }

  /** A list in order is determined by what is in it. */
  lemma {:induction false} Unique(p: seq<Seg>, q: seq<Seg>)
    requires Ascends(p) && Ascends(q) && forall x :: x in p <==> x in q
    ensures p == q
    decreases |p|
  {
    assert q != [] ==> q[0] in p;
    if p != [] {
      assert p[0] in q;
      assert p[0] == q[0];
      forall x ensures x in p[1..] <==> x in q[1..] {
        assert x in p[1..] ==> x in q && x != q[0];
        assert x in q[1..] ==> x in p && x != p[0];
      }
      Unique(p[1..], q[1..]);
      assert p == [p[0]] + p[1..] && q == [q[0]] + q[1..];
    }
  }

  lemma {:induction false} ChainAscends(q: seq<Seg>, x: int, max: int, finFlag: bool)
    requires Chain(q, x, max, finFlag)
    ensures Ascends(q) && Disjoint(q)
    ensures forall y :: y in q ==> x <= y.pos < y.Tail() <= TailOf(q, x) && Proper(y, max, finFlag)
    ensures x <= TailOf(q, x)
  {
    if q != [] { ChainAscends(q[1..], q[0].Tail(), max, finFlag); }
  }

  lemma {:induction false} InsertHas(q: seq<Seg>, s: Seg)
    requires Ascends(q) && forall y :: y in q ==> y.pos != s.pos
    ensures Ascends(InsertSorted(q, s))
    ensures forall x :: x in InsertSorted(q, s) <==> x == s || x in q
  {
    if q != [] && q[0].pos < s.pos {
      InsertHas(q[1..], s);
      assert ([q[0]] + InsertSorted(q[1..], s))[1..] == InsertSorted(q[1..], s);
    } else {
      assert q != [] ==> q[0] in q;
      assert ([s] + q)[1..] == q;
    }
  }

  lemma {:induction false} AppendHas(q: seq<Seg>, s: Seg)
    requires Ascends(q) && forall y :: y in q ==> y.pos < s.pos
    ensures Ascends(q + [s]) && forall x :: x in q + [s] <==> x == s || x in q
  {
    if q == [] {
      assert q + [s] == [s] && [s][1..] == [];
    } else {
      AppendHas(q[1..], s);
      assert (q + [s])[1..] == q[1..] + [s];
    }
  }

  lemma {:induction false} LastIsMost(q: seq<Seg>)
    requires Ascends(q) && q != []
    ensures forall y :: y in q ==> y.pos <= q[|q| - 1].pos
    ensures forall y :: y in q && y != q[|q| - 1] ==> y.pos < q[|q| - 1].pos
  {
    if |q| > 1 {
      LastIsMost(q[1..]);
      assert q[1..][|q| - 2] == q[|q| - 1] && q[|q| - 1] in q[1..];
    }
  }

  lemma RequeuedHas(q: seq<Seg>, s: Seg)
    requires Ascends(q) && forall y :: y in q ==> y.pos != s.pos
    ensures Ascends(Requeued(q, s)) && forall x :: x in Requeued(q, s) <==> x == s || x in q
  {
    InsertHas(q, s);
    if q == [] || q[|q| - 1].pos < s.pos {
      if q != [] { LastIsMost(q); }
      AppendHas(q, s);
    } else {
      assert q[|q| - 1] in q;
    }
  }

  // ----- the invariant

  /** Everything that is queued, in order, as if nothing had been sent. */
  function Flat(st: Snd): Snd {
    st.(unacked := [], unsent := Merge(st.unacked, st.unsent), oversize := 0)
  }

  /** Both lists in order, together what one queue in order would hold; nothing unacked lies
      beyond what was sent. */
  ghost predicate Queued(st: Snd) {
    && Ascends(st.unacked) && Ascends(st.unsent) && Apart(st.unacked, st.unsent)
    && Inv(Flat(st))
    && (forall x :: x in st.unacked ==> x.Tail() <= st.nxt)
  }

  ghost predicate Sound(st: Snd) {
    Queued(st) && SpareFits(st)
  }

  /** What is known of the segments. */
  lemma QueuedHas(st: Snd)
    requires Queued(st)
    ensures var q := Flat(st).unsent;
      && Ascends(q) && Disjoint(q) && (forall x :: x in q <==> x in st.unacked || x in st.unsent)
      && (forall x :: x in q ==>
           First(Flat(st)) <= x.pos < x.Tail() <= st.End() && Proper(x, st.MssLocal(), st.finFlag))
  {
    MergeHas(st.unacked, st.unsent);
    ChainAscends(Flat(st).unsent, First(Flat(st)), st.MssLocal(), st.finFlag);
    assert Flat(st).MssLocal() == st.MssLocal() && Flat(st).End() == st.End();
  }

  /** The same segments in both lists together: the same queue. */
  lemma SameFlat(st: Snd, e: Snd)
    requires Ascends(st.unacked) && Ascends(st.unsent) && Apart(st.unacked, st.unsent)
    requires Ascends(e.unacked) && Ascends(e.unsent) && Apart(e.unacked, e.unsent)
    requires forall x :: x in st.unacked || x in st.unsent <==> x in e.unacked || x in e.unsent
    ensures Flat(e).unsent == Flat(st).unsent
  {
    MergeHas(st.unacked, st.unsent);
    MergeHas(e.unacked, e.unsent);
    Unique(Flat(e).unsent, Flat(st).unsent);
  }

  lemma SoundMeans(st: Snd)
    requires Sound(st)
    ensures SpareFits(st) && 0 <= st.sndBuf && |Payload(st.unacked)| + |Payload(st.unsent)| + st.sndBuf == SND_BUF
    ensures st.queuelen == BufCount(st.unacked) + BufCount(st.unsent)
  {
    assert Inv(Flat(st));
    MergeSums(st.unacked, st.unsent);
  }

  /** In order means that everything unacked lies in front of everything unsent. */
  predicate InOrder(st: Snd) {
    st.unacked == [] || st.unsent == [] || st.unacked[|st.unacked| - 1].pos < st.unsent[0].pos
  }

  // ----- sending and retransmitting

  lemma NxtMoves(st: Snd, nxt: int)
    requires Inv(st) && st.nxt <= nxt <= st.End()
    ensures Inv(st.(nxt := nxt))
  {
    assert First(st.(nxt := nxt)) == First(st) && st.(nxt := nxt).MssLocal() == st.MssLocal();
  }

  /** The head of the unsent list goes to its place among the unacked ones. */
  lemma SendKeeps(st: Snd)
    requires Queued(st) && st.unsent != []
    ensures var e := HeadSent(st);
      && Queued(e) && Flat(e) == Flat(st).(nxt := e.nxt) && st.nxt <= e.nxt
  {
    var e, s := HeadSent(st), st.unsent[0];
    QueuedHas(st);
    assert s in st.unsent;
    forall y | y in st.unacked ensures y.pos != s.pos {}
    RequeuedHas(st.unacked, s);
    forall x ensures x in st.unsent <==> x == s || x in st.unsent[1..] {}
    forall x, y | x in e.unacked && y in e.unsent ensures x.pos != y.pos {
      assert y in st.unsent;
    }
    SameFlat(st, e);
    NxtMoves(Flat(st), e.nxt);
  }

  /** tcp_rexmit: the first unacked segment goes to its place among the unsent ones. */
  lemma RexmitKeeps(st: Snd)
    requires Sound(st) && st.unacked != []
    ensures var e := Rexmitted(st); Sound(e) && Flat(e) == Flat(st)
  {
    var e, r := Rexmitted(st), st.unacked[0];
    QueuedHas(st);
    assert r in st.unacked;
    forall y | y in st.unsent ensures y.pos != r.pos {}
    InsertHas(st.unsent, r);
    forall x ensures x in st.unacked <==> x == r || x in st.unacked[1..] {}
    forall x, y | x in e.unacked && y in e.unsent ensures x.pos != y.pos {
      assert x in st.unacked && r.pos < x.pos;
    }
    SameFlat(st, e);
    RexmitFits(st);
  }

  lemma {:induction false} InsertLast(q: seq<Seg>, s: Seg)
    ensures var r := InsertSorted(q, s);
      r != [] && r[|r| - 1] == if LinksLast(q, s) then s else if q != [] then q[|q| - 1] else s
  {
    if q != [] && q[0].pos < s.pos {
      InsertLast(q[1..], s);
      LinksRest(q, s);
    }
  }

  lemma LinksRest(q: seq<Seg>, s: Seg)
    requires q != [] && q[0].pos < s.pos
    ensures LinksLast(q, s) <==> LinksLast(q[1..], s)
  {
    assert forall i :: 0 <= i < |q| - 1 ==> q[1..][i] == q[i + 1];
    assert forall i :: 1 <= i < |q| ==> q[i] == q[1..][i - 1];
  }

  lemma RexmitFits(st: Snd)
    requires Sound(st) && st.unacked != []
    ensures SpareFits(Rexmitted(st))
  {
    var r := st.unacked[0];
    QueuedOne(st, r);
    InsertLast(st.unsent, r);
    LastFits(st, Rexmitted(st), r);
  }

  /** Spare room behind the same last segment, or none. */
  lemma LastFits(st: Snd, e: Snd, r: Seg)
    requires SpareFits(st) && e.unsent != [] && e.MssLocal() == st.MssLocal() && |r.data| <= st.MssLocal()
    requires (Last(e) == r && e.oversize == 0) || (st.unsent != [] && Last(e) == Last(st) && e.oversize == st.oversize)
    ensures SpareFits(e)
  {
  }

  /** tcp_output, whatever of it is sent. */
  lemma {:induction false} OutputKeepsSound(st: Snd, wnd: int, go: seq<bool>)
    requires Sound(st)
    ensures var e := Output(st, wnd, go); Sound(e) && Flat(e) == Flat(st).(nxt := e.nxt)
    decreases |go|
  {
    if HeadFits(st, wnd) && go != [] && go[0] {
      var e := HeadSent(st);
      SendKeeps(st);
      OutputStep(st, wnd, go);
      if e.unsent == [] {
        NoSpare(e);
      } else {
        assert Last(e) == Last(st) && e.MssLocal() == st.MssLocal();
        OutputKeepsSound(e, wnd, go[1..]);
      }
    }
  }

  lemma NoSpare(e: Snd)
    requires Queued(e) && e.unsent == []
    ensures Sound(e.(oversize := 0)) && Flat(e.(oversize := 0)) == Flat(e)
  {
    assert e.(oversize := 0).MssLocal() == e.MssLocal();
  }

  // ----- acknowledgements

  lemma {:induction false} KeptHas(q: seq<Seg>, ack: int)
    requires Ascends(q) && Disjoint(q)
    ensures Ascends(Kept(q, ack)) && Ascends(Freed(q, ack))
    ensures forall x :: x in Kept(q, ack) <==> x in q && ack < x.Tail()
    ensures forall x :: x in Freed(q, ack) <==> x in q && x.Tail() <= ack
  {
    if q != [] {
      assert Disjoint(q[1..]);
      assert q[0] in q;
      if q[0].Tail() <= ack {
        KeptHas(q[1..], ack);
        assert ([q[0]] + Freed(q[1..], ack))[1..] == Freed(q[1..], ack);
        forall x ensures x in q <==> x == q[0] || x in q[1..] {}
      } else {
        forall x | x in q ensures ack < x.Tail() {
          if x != q[0] { assert x in q[1..]; }
        }
      }
    }
  }

  /** What an acknowledgement leaves in both lists makes what it leaves in the queue. */
  lemma KeptMerges(a: seq<Seg>, b: seq<Seg>, ack: int)
    requires Ascends(a) && Ascends(b) && Apart(a, b) && Disjoint(Merge(a, b))
    ensures Merge(Kept(a, ack), Kept(b, ack)) == Kept(Merge(a, b), ack)
    ensures Ascends(Kept(a, ack)) && Ascends(Kept(b, ack)) && Apart(Kept(a, ack), Kept(b, ack))
    ensures forall x :: x in Kept(a, ack) ==> x in a
  {
    MergeHas(a, b);
    DisjointPart(a, Merge(a, b));
    DisjointPart(b, Merge(a, b));
    KeptHas(a, ack);
    KeptHas(b, ack);
    KeptHas(Merge(a, b), ack);
    MergeIs(Kept(Merge(a, b), ack), Kept(a, ack), Kept(b, ack));
  }

  /** ... and so with what it frees. */
  lemma FreedMerges(a: seq<Seg>, b: seq<Seg>, ack: int)
    requires Ascends(a) && Ascends(b) && Apart(a, b) && Disjoint(Merge(a, b))
    ensures Merge(Freed(a, ack), Freed(b, ack)) == Freed(Merge(a, b), ack)
  {
    MergeHas(a, b);
    DisjointPart(a, Merge(a, b));
    DisjointPart(b, Merge(a, b));
    KeptHas(a, ack);
    KeptHas(b, ack);
    KeptHas(Merge(a, b), ack);
    MergeIs(Freed(Merge(a, b), ack), Freed(a, ack), Freed(b, ack));
  }

  lemma DisjointPart(a: seq<Seg>, q: seq<Seg>)
    requires Disjoint(q) && forall x :: x in a ==> x in q
    ensures Disjoint(a)
  {
  }

  lemma MergeIs(m: seq<Seg>, a: seq<Seg>, b: seq<Seg>)
    requires Ascends(m) && Ascends(a) && Ascends(b) && Apart(a, b)
    requires forall x :: x in m <==> x in a || x in b
    ensures Merge(a, b) == m
  {
    MergeHas(a, b);
    Unique(Merge(a, b), m);
  }

  /** An acknowledgement while nothing is unacked. */
  lemma AckedUnsent(f: Snd, ack: int)
    requires f.unacked == [] && f.lastack < ack <= f.nxt
    ensures var g := Freed(f.unsent, ack);
      Acked(f, ack) == f.(unsent := Kept(f.unsent, ack), lastack := ack, sndBuf := f.sndBuf + |Payload(g)|,
                          queuelen := f.queuelen - BufCount(g),
                          oversize := if Kept(f.unsent, ack) == [] then 0 else f.oversize,
                          released := f.released + Payload(g))
  {
    assert BufCount([]) == 0;
  }

  lemma FlatAcked(st: Snd, ack: int)
    requires Queued(st)
    ensures Flat(Acked(st, ack)) == Acked(Flat(st), ack)
  {
    if st.lastack < ack <= st.nxt {
      QueuedHas(st);
      KeptMerges(st.unacked, st.unsent, ack);
      FreedMerges(st.unacked, st.unsent, ack);
      MergeSums(Freed(st.unacked, ack), Freed(st.unsent, ack));
      AckedFlat(st, ack, Flat(st).unsent, Freed(Flat(st).unsent, ack));
    }
  }

  lemma AckedFlat(st: Snd, ack: int, q: seq<Seg>, gone: seq<Seg>)
    requires st.lastack < ack <= st.nxt && q == Flat(st).unsent && gone == Freed(q, ack)
    requires Merge(Kept(st.unacked, ack), Kept(st.unsent, ack)) == Kept(q, ack)
    requires Merge(Freed(st.unacked, ack), Freed(st.unsent, ack)) == gone
    requires BufCount(Freed(st.unacked, ack)) + BufCount(Freed(st.unsent, ack)) == BufCount(gone)
    ensures Flat(Acked(st, ack)) == Acked(Flat(st), ack)
  {
    AckedUnsent(Flat(st), ack);
  }

  lemma AckKeepsSound(st: Snd, ack: int)
    requires Sound(st)
    ensures Sound(Acked(st, ack))
  {
    FlatAcked(st, ack);
    AckKeeps(Flat(st), ack);
    if st.lastack < ack <= st.nxt {
      QueuedHas(st);
      KeptMerges(st.unacked, st.unsent, ack);
      AckSpare(st, ack);
    }
  }

  lemma AckSpare(st: Snd, ack: int)
    requires SpareFits(st)
    ensures SpareFits(Acked(st, ack))
  {
    KeptLast(st.unsent, ack);
    assert Acked(st, ack).MssLocal() == st.MssLocal();
  }

  // ----- in order

  lemma {:induction false} ChainSplits(a: seq<Seg>, b: seq<Seg>, x: int, max: int, finFlag: bool)
    requires Chain(a + b, x, max, finFlag)
    ensures Chain(a, x, max, finFlag) && Chain(b, TailOf(a, x), max, finFlag)
    ensures TailOf(b, TailOf(a, x)) == TailOf(a + b, x)
    ensures a != [] && b != [] ==> a[|a| - 1].pos < b[0].pos
  {
    ConcatChain(a, b, x, max, finFlag);
    if a != [] { ChainStarts(a, x, max, finFlag); }
  }

  lemma {:induction false} MergeInOrder(a: seq<Seg>, b: seq<Seg>)
    requires Ascends(a) && (a != [] && b != [] ==> a[|a| - 1].pos < b[0].pos)
    ensures Merge(a, b) == a + b
    decreases |a|
  {
    if a != [] && b != [] {
      LastIsMost(a);
      assert a[0] in a;
      assert a[1..] != [] ==> a[1..][|a| - 2] == a[|a| - 1];
      MergeInOrder(a[1..], b);
      assert [a[0]] + (a[1..] + b) == a + b;
    } else {
      assert a + [] == a && [] + b == b;
    }
  }

  /** The queues of a connection that retransmits nothing: what is unacked, then what is
      unsent. */
  lemma InvIsInOrder(st: Snd)
    ensures Inv(st) <==> Sound(st) && InOrder(st)
  {
    if Inv(st) { InvIsSound(st); }
    if Sound(st) && InOrder(st) { SoundIsInv(st); }
  }

  lemma InvIsSound(st: Snd)
    requires Inv(st)
    ensures Sound(st) && InOrder(st) && Flat(st).unsent == st.unacked + st.unsent
  {
    ListsInOrder(st);
    MergeInOrder(st.unacked, st.unsent);
    RequeueKeeps(st);
    NoneLeft(Requeue(st));
    assert [] + st.unsent == st.unsent;
    assert Flat(st) == Requeue(st).(oversize := 0);
  }

  lemma ListsInOrder(st: Snd)
    requires Inv(st)
    ensures Ascends(st.unacked) && Ascends(st.unsent) && Apart(st.unacked, st.unsent) && InOrder(st)
    ensures forall x :: x in st.unacked ==> x.Tail() <= st.nxt
  {
    var x, max := First(st), st.MssLocal();
    ChainAscends(st.unacked, x, max, st.finFlag);
    ChainAscends(st.unsent, TailOf(st.unacked, x), max, st.finFlag);
    if st.unacked != [] { ChainStarts(st.unacked, x, max, st.finFlag); }
  }

  /** Spare room may be given up. */
  lemma NoneLeft(st: Snd)
    requires Inv(st) && st.unacked == []
    ensures Inv(st.(oversize := 0))
  {
    assert st.(oversize := 0).MssLocal() == st.MssLocal() && First(st.(oversize := 0)) == First(st);
  }

  lemma SoundIsInv(st: Snd)
    requires Sound(st) && InOrder(st)
    ensures Inv(st)
  {
    var f, x, max := Flat(st), First(Flat(st)), st.MssLocal();
    MergeInOrder(st.unacked, st.unsent);
    assert f.MssLocal() == max && f.End() == st.End();
    ChainSplits(st.unacked, st.unsent, x, max, st.finFlag);
    FirstIs(st, x);
    if st.unacked != [] {
      ChainStarts(st.unacked, x, max, st.finFlag);
      assert st.unacked[|st.unacked| - 1] in st.unacked;
    }
    ConcatSums(st.unacked, st.unsent);
    assert st.released + [] + (Payload(st.unacked) + Payload(st.unsent))
        == st.released + Payload(st.unacked) + Payload(st.unsent);
  }

  lemma {:induction false} AscendsConcat(a: seq<Seg>, b: seq<Seg>)
    ensures Ascends(a + b) <==>
      (Ascends(a) && Ascends(b) && forall x, y :: x in a && y in b ==> x.pos < y.pos)
  {
    if a == [] {
      assert a + b == b;
    } else {
      AscendsConcat(a[1..], b);
      assert (a + b)[1..] == a[1..] + b;
      forall x ensures x in a <==> x == a[0] || x in a[1..] {}
    }
  }

  /** A time-out keeps the queues in order exactly if everything unacked lies in front of
      everything unsent: it puts the one list in front of the other. */
  lemma RequeueKeepsIff(st: Snd)
    requires Sound(st)
    ensures Sound(Requeue(st)) <==> InOrder(st)
  {
    if InOrder(st) {
      InvIsInOrder(st);
      RequeueKeeps(st);
      InvIsInOrder(Requeue(st));
    } else {
      AscendsConcat(st.unacked, st.unsent);
      assert st.unacked[|st.unacked| - 1] in st.unacked && st.unsent[0] in st.unsent;
    }
  }

  // ----- adding at the end

  /** Segments that go behind both lists go behind the queue. */
  lemma MergeTail(u: seq<Seg>, t: seq<Seg>, q: seq<Seg>, tail: seq<Seg>)
    requires Ascends(u) && Ascends(t) && Apart(u, t) && Merge(u, t) == q && Ascends(q + tail)
    ensures Ascends(t + tail) && Apart(u, t + tail) && Merge(u, t + tail) == q + tail
  {
    MergeHas(u, t);
    AscendsConcat(q, tail);
    AscendsConcat(t, tail);
    MergeIs(q + tail, u, t + tail);
  }

  /** The last of both lists is the last of the queue. */
  lemma MergeInit(u: seq<Seg>, t: seq<Seg>, l: Seg, q: seq<Seg>)
    requires Ascends(u) && Ascends(t + [l]) && Apart(u, t + [l]) && Merge(u, t + [l]) == q + [l]
    ensures Ascends(t) && Apart(u, t) && Merge(u, t) == q
  {
    MergeHas(u, t + [l]);
    AscendsConcat(t, [l]);
    AscendsConcat(q, [l]);
    forall x ensures x in q <==> x in u || x in t {
      assert x in q + [l] <==> x in q || x == l;
      assert x in t + [l] <==> x in t || x == l;
      assert l in t + [l] && l in [l];
    }
    MergeIs(q, u, t);
  }

  /** What is written last is unsent: nothing unacked lies behind it. */
  predicate AtEnd(st: Snd) {
    st.unsent == [] || Last(st).Tail() == st.End()
  }

  /** The queue without its last segment, if that is unsent. */
  lemma Ends(st: Snd) returns (init: seq<Seg>)
    requires Queued(st) && st.unsent != [] && AtEnd(st)
    ensures Flat(st).unsent == init + [Last(st)]
    ensures var t := st.unsent[..|st.unsent| - 1];
      st.unsent == t + [Last(st)] && Ascends(t) && Apart(st.unacked, t) && Merge(st.unacked, t) == init
  {
    var q, l := Flat(st).unsent, Last(st);
    QueuedHas(st);
    LastSplits(st.unsent);
    assert l in st.unsent && q != [];
    LastSplits(q);
    LastIsMost(q);
    assert q[|q| - 1] in q;
    init := q[..|q| - 1];
    MergeInit(st.unacked, st.unsent[..|st.unsent| - 1], l, init);
  }

  /** If something unacked lies behind the last unsent segment, one starts where it ends. */
  lemma {:induction false} Successor(q: seq<Seg>, x: int, max: int, finFlag: bool, l: Seg) returns (y: Seg)
    requires Chain(q, x, max, finFlag) && l in q && l.Tail() != TailOf(q, x)
    ensures y in q && y.pos == l.Tail()
  {
    if l == q[0] {
      y := q[1];
    } else {
      y := Successor(q[1..], q[0].Tail(), max, finFlag, l);
    }
  }

  lemma Behind(st: Snd) returns (y: Seg)
    requires Queued(st) && !AtEnd(st)
    ensures y in st.unacked && Last(st).pos < y.pos == Last(st).Tail()
  {
    assert Last(st) in st.unsent;
    QueuedOne(st, Last(st));
    y := Following(Flat(st), Last(st));
    NotBehindLast(st.unsent, y);
    QueuedOne(st, y);
  }

  lemma NotBehindLast(q: seq<Seg>, y: Seg)
    requires Ascends(q) && q != [] && q[|q| - 1].pos < y.pos
    ensures y !in q
  {
    if y in q { LastIsMost(q); }
  }

  /** One segment of the queue. */
  lemma QueuedOne(st: Snd, x: Seg)
    requires Queued(st)
    ensures x in Flat(st).unsent <==> x in st.unacked || x in st.unsent
    ensures x in Flat(st).unsent ==> x.pos < x.Tail() <= st.End() && Proper(x, st.MssLocal(), st.finFlag)
  {
    QueuedHas(st);
  }

  lemma Following(f: Snd, l: Seg) returns (y: Seg)
    requires Tiles(f) && f.unacked == [] && l in f.unsent && l.Tail() != f.End()
    ensures y in f.unsent && y.pos == l.Tail()
  {
    y := Successor(f.unsent, First(f), f.MssLocal(), f.finFlag, l);
  }

  /** SYN, or a FIN of its own. */
  lemma EnqueueKeepsSound(st: Snd, syn: bool, fin: bool)
    requires Sound(st) && (syn || fin) && !st.finFlag
    ensures Sound(Enqueued(st, syn, fin))
  {
    var e, n := Enqueued(st, syn, fin), Seg(st.lbb, [], syn, fin, [0]);
    EnqueueKeeps(Flat(st), syn, fin);
    InvAscends(Enqueued(Flat(st), syn, fin));
    MergeTail(st.unacked, st.unsent, Flat(st).unsent, [n]);
    assert Flat(e) == Enqueued(Flat(st), syn, fin);
    assert e.MssLocal() == st.MssLocal() && Last(e) == n;
  }

  lemma InvAscends(f: Snd)
    requires Inv(f)
    ensures Ascends(f.unsent)
  {
    ChainAscends(f.unsent, TailOf(f.unacked, First(f)), f.MssLocal(), f.finFlag);
  }

  /** A FIN that the last unsent segment takes. */
  predicate Piggybacks(st: Snd) {
    st.unsent != [] && !Last(st).syn && !Last(st).fin
  }

  lemma PiggybackKeeps(st: Snd)
    requires Sound(st) && !st.finFlag && Piggybacks(st) && AtEnd(st)
    ensures Sound(FinSent(st))
  {
    var init := Ends(st);
    var t, l := st.unsent[..|st.unsent| - 1], Last(st).(fin := true);
    FinKeeps(Flat(st));
    var f := FinSent(Flat(st));
    assert f.unsent == init + [l];
    InvAscends(f);
    MergeTail(st.unacked, t, init, [l]);
    assert Flat(FinSent(st)) == f;
    assert FinSent(st).MssLocal() == st.MssLocal() && Last(FinSent(st)) == l;
  }

  /** tcp_send_fin keeps the queues in order exactly unless it puts the FIN on a segment that
      an unacked one follows. */
  lemma FinKeepsIff(st: Snd)
    requires Sound(st) && !st.finFlag
    ensures Sound(FinSent(st)) <==> (!Piggybacks(st) || AtEnd(st))
  {
    if !Piggybacks(st) {
      EnqueueKeepsSound(st, false, true);
    } else if AtEnd(st) {
      PiggybackKeeps(st);
    } else {
      var y := Behind(st);
      var e := FinSent(st);
      assert Last(e) in e.unsent && Last(e).Tail() == y.pos + 1 && e.unacked == st.unacked;
      Overlap(e, Last(e), y);
    }
  }

  /** Segments that overlap make no queue. */
  lemma Overlap(e: Snd, x: Seg, y: Seg)
    requires x in e.unsent && (y in e.unacked || y in e.unsent) && x.pos < y.pos < x.Tail()
    ensures !Queued(e)
  {
    if Queued(e) { QueuedHas(e); }
  }

  // ----- writing

  /** A write with an unsent segment at the end, as if everything else were unsent as well. */
  lemma WriteAtEnd(st: Snd, d: seq<Byte>, a: WriteArgs)
    requires Sound(st) && !st.finFlag && |d| <= st.sndBuf && st.unsent != [] && AtEnd(st)
    ensures Sound(Written(st, d, a))
  {
    var init := Ends(st);
    var p := st.(unacked := [], unsent := Flat(st).unsent);
    WithSpare(st, p, init);
    WriteKeeps(p, d, a);
    var tail := SameTail(st, p, init, d, a);
    var w := Written(p, d, a);
    InvAscends(w);
    MergeTail(st.unacked, st.unsent[..|st.unsent| - 1], init, tail);
    NoneLeft(w);
    FlatWritten(st, p, w, d, a);
    WriteSpareFits(st, d, a);
  }

  lemma FlatWritten(st: Snd, p: Snd, w: Snd, d: seq<Byte>, a: WriteArgs)
    requires SpareFits(st) && SpareFits(p) && p == st.(unacked := [], unsent := p.unsent) && w == Written(p, d, a)
    requires NewBufs(p, d, a) == NewBufs(st, d, a) && Merge(st.unacked, NewUnsent(st, d, a)) == w.unsent
    ensures Flat(Written(st, d, a)) == w.(oversize := 0)
    ensures Written(st, d, a).MssLocal() == w.MssLocal()
  {
  }

  lemma WithSpare(st: Snd, p: Snd, init: seq<Seg>)
    requires Sound(st) && st.unsent != [] && p == st.(unacked := [], unsent := init + [Last(st)])
    requires Flat(st).unsent == p.unsent
    ensures Inv(p) && Last(p) == Last(st)
  {
    assert p.MssLocal() == st.MssLocal() && First(p) == First(Flat(st));
    assert Flat(st) == p.(oversize := 0);
  }

  /** What a write puts in place of the last segment does not depend on those before it. */
  lemma SameTail(st: Snd, p: Snd, init: seq<Seg>, d: seq<Byte>, a: WriteArgs) returns (tail: seq<Seg>)
    requires SpareFits(st) && SpareFits(p) && st.unsent != [] && st.unsent == st.unsent[..|st.unsent| - 1] + [Last(st)]
    requires p == st.(unacked := [], unsent := init + [Last(st)])
    ensures NewUnsent(st, d, a) == st.unsent[..|st.unsent| - 1] + tail && NewUnsent(p, d, a) == init + tail
    ensures NewBufs(p, d, a) == NewBufs(st, d, a)
  {
    SameNew(st, p, d, a);
    tail := TailAfter(st, st.unsent[..|st.unsent| - 1], d, a);
    var other := TailAfter(p, init, d, a);
    assert other == tail;
  }

  lemma TailAfter(st: Snd, init: seq<Seg>, d: seq<Byte>, a: WriteArgs) returns (tail: seq<Seg>)
    requires SpareFits(st) && st.unsent != [] && st.unsent == init + [Last(st)]
    ensures NewUnsent(st, d, a) == init + tail
    ensures tail ==
      [Grown(Last(st), d[..Fill(st, |d|)], Used(st, |d|), Chained(st, |d|), Extends(st, |d|, a))] + NewSegs(st, d, a)
  {
    var i, g := NewUnsentShape(st, d, a);
    assert i == st.unsent[..|st.unsent| - 1] == init;
    tail := [g] + NewSegs(st, d, a);
  }

  lemma SameNew(st: Snd, p: Snd, d: seq<Byte>, a: WriteArgs)
    requires SpareFits(st) && SpareFits(p) && st.unsent != [] && p.unsent != []
    requires p == st.(unacked := [], unsent := p.unsent) && Last(p) == Last(st)
    ensures Used(p, |d|) == Used(st, |d|) && Chained(p, |d|) == Chained(st, |d|)
    ensures Extends(p, |d|, a) == Extends(st, |d|, a)
    ensures NewSegs(p, d, a) == NewSegs(st, d, a) && NewBufs(p, d, a) == NewBufs(st, d, a)
  {
    assert p.MssLocal() == st.MssLocal();
  }

  /** Segments with the bytes d behind everything that is queued. */
  function Longer(f: Snd, segs: seq<Seg>, d: seq<Byte>): Snd {
    f.(unsent := f.unsent + segs, lbb := f.lbb + |d|, sndBuf := f.sndBuf - |d|,
       queuelen := f.queuelen + BufCount(segs), written := f.written + d)
  }

  lemma SegsBehind(f: Snd, segs: seq<Seg>, d: seq<Byte>)
    requires Inv(f) && f.unacked == [] && f.oversize == 0 && !f.finFlag && |d| <= f.sndBuf
    requires Chain(segs, f.lbb, f.MssLocal(), false) && TailOf(segs, f.lbb) == f.lbb + |d| && Payload(segs) == d
    ensures Inv(Longer(f, segs, d))
  {
    var e := Longer(f, segs, d);
    var x, max := First(f), f.MssLocal();
    assert e.MssLocal() == max;
    ConcatChain(f.unsent, segs, x, max, false);
    ConcatSums(f.unsent, segs);
    FirstIs(e, x);
    PayloadAppends(f.released, Payload([]), Payload(f.unsent), d);
    if e.unsent != [] {
      LastSplits(e.unsent);
      LastIsProper(e.unsent[..|e.unsent| - 1], Last(e), x, max, false);
    }
  }

  lemma GrownNothing(st: Snd, d: seq<Byte>, a: WriteArgs)
    requires SpareFits(st) && st.unsent != [] && Fill(st, |d|) == 0
    ensures NewUnsent(st, d, a) == st.unsent + NewSegs(st, d, a)
    ensures NewBufs(st, d, a) == BufCount(NewSegs(st, d, a))
  {
    var tail := TailAfter(st, st.unsent[..|st.unsent| - 1], d, a);
    assert d[..0] == [] && Last(st).data + [] == Last(st).data;
    assert tail[0] == Last(st);
    assert st.unsent[..|st.unsent| - 1] + ([Last(st)] + NewSegs(st, d, a))
        == st.unsent[..|st.unsent| - 1] + [Last(st)] + NewSegs(st, d, a);
  }

  /** A write that leaves the last unsent segment alone. */
  lemma WriteBehind(st: Snd, d: seq<Byte>, a: WriteArgs)
    requires Sound(st) && !st.finFlag && |d| <= st.sndBuf && st.unsent != [] && Fill(st, |d|) == 0
    requires st.unsent == st.unsent[..|st.unsent| - 1] + [Last(st)]
    ensures Sound(Written(st, d, a))
  {
    var segs := NewSegs(st, d, a);
    GrownNothing(st, d, a);
    NewSegsHold(st, d, a);
    assert d[0..] == d;
    SegsBehind(Flat(st), segs, d);
    InvAscends(Longer(Flat(st), segs, d));
    MergeTail(st.unacked, st.unsent, Flat(st).unsent, segs);
    FlatLonger(st, segs, d, a);
    WriteSpareFits(st, d, a);
  }

  lemma FlatLonger(st: Snd, segs: seq<Seg>, d: seq<Byte>, a: WriteArgs)
    requires SpareFits(st) && NewUnsent(st, d, a) == st.unsent + segs && NewBufs(st, d, a) == BufCount(segs)
    requires Merge(st.unacked, st.unsent + segs) == Flat(st).unsent + segs
    ensures Flat(Written(st, d, a)) == Longer(Flat(st), segs, d) && Written(st, d, a).nxt == st.nxt
  {
  }

  /** A write that lets a segment grow although an unacked one follows it. */
  lemma WriteOverlaps(st: Snd, d: seq<Byte>, a: WriteArgs)
    requires Sound(st) && !AtEnd(st) && Fill(st, |d|) > 0
    ensures !Sound(Written(st, d, a))
  {
    var y := Behind(st);
    LastSplits(st.unsent);
    var init := st.unsent[..|st.unsent| - 1];
    var tail := TailAfter(st, init, d, a);
    var g := tail[0];
    assert (init + tail)[|init|] == g;
    GrownTail(Last(st), d[..Fill(st, |d|)], Used(st, |d|), Chained(st, |d|), Extends(st, |d|, a));
    Overlap(Written(st, d, a), g, y);
  }

  lemma GrownTail(l: Seg, d: seq<Byte>, used: nat, chained: nat, extend: bool)
    ensures var g := Grown(l, d, used, chained, extend); g.pos == l.pos && g.Tail() == l.Tail() + |d|
  {
  }

  /** tcp_write keeps the queues in order exactly unless it lets the last unsent segment grow
      although an unacked one follows it. */
  lemma WriteKeepsIff(st: Snd, d: seq<Byte>, a: WriteArgs)
    requires Sound(st) && !st.finFlag && |d| <= st.sndBuf
    ensures Sound(Written(st, d, a)) <==> (AtEnd(st) || Fill(st, |d|) == 0)
  {
    if st.unsent == [] {
      InvIsInOrder(st);
      WriteKeeps(st, d, a);
      InvIsInOrder(Written(st, d, a));
    } else if AtEnd(st) {
      WriteAtEnd(st, d, a);
    } else if Fill(st, |d|) == 0 {
      LastSplits(st.unsent);
      WriteBehind(st, d, a);
    } else {
      WriteOverlaps(st, d, a);
    }
  }

  // ----- splitting

  /** A split moves nothing beyond what is already acknowledged to the front of the queue. */
  predicate SplitOutstanding(st: Snd, n: nat)
    requires st.unsent != []
  {
    st.lastack < st.unsent[0].pos + n || (st.unacked != [] && st.unacked[0].pos < st.unsent[0].pos)
  }

  /** The parts of a split. */
  function Head(s: Seg, n: nat): Seg
    requires n <= |s.data|
  {
    s.(data := s.data[..n], bufs := Shrunk(s.bufs, n))
  }

  function Remainder(s: Seg, n: nat): Seg
    requires n <= |s.data|
  {
    Seg(s.pos + n, s.data[n..], false, s.fin, [|s.data| - n])
  }

  lemma SplitInQueue(a: seq<Seg>, s: Seg, b: seq<Seg>, x: int, max: int, finFlag: bool, n: nat)
    requires Chain(a + ([s] + b), x, max, finFlag) && 0 < n < |s.data| && !s.fin
    ensures var h, t := Head(s, n), Remainder(s, n);
      && Chain(a + ([h] + ([t] + b)), x, max, finFlag)
      && TailOf(a + ([h] + ([t] + b)), x) == TailOf(a + ([s] + b), x)
      && Payload(a + ([h] + ([t] + b))) == Payload(a + ([s] + b))
      && BufCount(a + ([h] + ([t] + b))) == BufCount(a + ([s] + b)) - |s.bufs| + |h.bufs| + 1
  {
    var h, t, y := Head(s, n), Remainder(s, n), TailOf(a, x);
    ConcatChain(a, [s] + b, x, max, finFlag);
    Cons(s, b, y, max, finFlag);
    ShrunkHolds(s.bufs, n);
    SplitChain(s, h, t, b, y, max, finFlag, n);
    ConcatChain(a, [h] + ([t] + b), x, max, finFlag);
    ConcatSums(a, [s] + b);
    ConcatSums(a, [h] + ([t] + b));
  }

  /** Where a segment lies in the queue. */
  lemma {:induction false} Around(q: seq<Seg>, s: Seg) returns (a: seq<Seg>, b: seq<Seg>)
    requires Ascends(q) && s in q
    ensures q == a + ([s] + b) && (forall x :: x in q && x != s <==> x in a || x in b)
    ensures a != [] ==> q[0] == a[0] && a[0].pos < s.pos
  {
    if q[0] == s {
      a, b := [], q[1..];
      assert q == [s] + b;
      forall x ensures x in q && x != s <==> x in a || x in b { assert x in q <==> x == s || x in b; }
    } else {
      a, b := Around(q[1..], s);
      assert q == [q[0]] + q[1..];
      assert [q[0]] + (a + ([s] + b)) == [q[0]] + a + ([s] + b);
      forall x ensures x in q && x != s <==> x == q[0] || x in a || x in b {
        assert x in q <==> x == q[0] || x in q[1..];
      }
      a := [q[0]] + a;
    }
  }

  /** The queue with a segment of it split. */
  function SplitAt(f: Snd, a: seq<Seg>, s: Seg, b: seq<Seg>, n: nat): Snd
    requires n <= |s.data|
  {
    f.(unsent := a + ([Head(s, n)] + ([Remainder(s, n)] + b)),
       queuelen := f.queuelen - |s.bufs| + |Head(s, n).bufs| + 1)
  }

  lemma SplitAtKeeps(f: Snd, a: seq<Seg>, s: Seg, b: seq<Seg>, n: nat)
    requires Inv(f) && f.unacked == [] && f.oversize == 0 && f.unsent == a + ([s] + b)
    requires 0 < n < |s.data| && !s.fin && (a == [] ==> f.lastack < s.pos + n)
    ensures Inv(SplitAt(f, a, s, b, n))
  {
    var e, x, max := SplitAt(f, a, s, b, n), First(f), f.MssLocal();
    SplitInQueue(a, s, b, x, max, f.finFlag, n);
    assert e.MssLocal() == max;
    FirstIs(e, x);
    assert e.unsent[0] == if a == [] then Head(s, n) else f.unsent[0];
    LastSplits(e.unsent);
    LastIsProper(e.unsent[..|e.unsent| - 1], Last(e), x, max, f.finFlag);
  }

  lemma SplitLists(st: Snd, n: nat)
    requires Queued(st) && st.unsent != [] && 0 < n < |st.unsent[0].data| && !st.unsent[0].fin
    ensures var s, t := st.unsent[0], Split(st, n).unsent;
      && t == [Head(s, n)] + ([Remainder(s, n)] + st.unsent[1..]) && Ascends(t) && Apart(st.unacked, t)
      && (forall x :: x in t <==> x == Head(s, n) || x == Remainder(s, n) || x in st.unsent[1..])
  {
    var s, rest := st.unsent[0], st.unsent[1..];
    var h, r, t := Head(s, n), Remainder(s, n), Split(st, n).unsent;
    assert t == [h] + ([r] + rest);
    forall y | y in rest ensures s.Tail() <= y.pos { SplitBetween(st, y, n); }
    assert ([r] + rest)[1..] == rest && ([h] + ([r] + rest))[1..] == [r] + rest;
    forall x, y | x in st.unacked && y in t ensures x.pos != y.pos {
      SplitBetween(st, x, n);
      assert y == h || y == r || y in st.unsent;
    }
  }

  /** No other segment starts within the one that is split. */
  lemma SplitBetween(st: Snd, y: Seg, n: nat)
    requires Queued(st) && st.unsent != [] && 0 < n < |st.unsent[0].data|
    requires y in st.unacked || y in st.unsent[1..]
    ensures y.pos < st.unsent[0].pos || st.unsent[0].Tail() <= y.pos
    ensures y in st.unsent[1..] ==> st.unsent[0].Tail() <= y.pos
  {
    QueuedHas(st);
    assert st.unsent[0] in st.unsent;
    assert y in st.unsent[1..] ==> y in st.unsent;
  }

  lemma FlatSplit(st: Snd, n: nat, a: seq<Seg>, b: seq<Seg>)
    requires Queued(st) && st.unsent != [] && 0 < n < |st.unsent[0].data| && !st.unsent[0].fin
    requires Flat(st).unsent == a + ([st.unsent[0]] + b)
    requires forall x :: x in Flat(st).unsent && x != st.unsent[0] <==> x in a || x in b
    requires Ascends(SplitAt(Flat(st), a, st.unsent[0], b, n).unsent)
    ensures Flat(Split(st, n)) == SplitAt(Flat(st), a, st.unsent[0], b, n)
  {
    SplitLists(st, n);
    SplitMerges(st, Head(st.unsent[0], n), Remainder(st.unsent[0], n), Split(st, n).unsent, a, b);
  }

  lemma SplitMerges(st: Snd, h: Seg, r: Seg, t: seq<Seg>, a: seq<Seg>, b: seq<Seg>)
    requires Queued(st) && st.unsent != [] && Ascends(t) && Apart(st.unacked, t) && Ascends(a + ([h] + ([r] + b)))
    requires forall x :: x in Flat(st).unsent && x != st.unsent[0] <==> x in a || x in b
    requires forall x :: x in t <==> x == h || x == r || x in st.unsent[1..]
    ensures Merge(st.unacked, t) == a + ([h] + ([r] + b))
  {
    forall x ensures x in a + ([h] + ([r] + b)) <==> x in st.unacked || x in t {
      InParts(a, h, r, b, x);
      InRest(st, x);
    }
    MergeIs(a + ([h] + ([r] + b)), st.unacked, t);
  }

  lemma InParts(a: seq<Seg>, h: Seg, r: Seg, b: seq<Seg>, x: Seg)
    ensures x in a + ([h] + ([r] + b)) <==> x == h || x == r || x in a || x in b
  {
  }

  /** What is queued beside the head of the unsent list. */
  lemma InRest(st: Snd, x: Seg)
    requires Queued(st) && st.unsent != []
    ensures x in Flat(st).unsent && x != st.unsent[0] <==> x in st.unacked || x in st.unsent[1..]
  {
    QueuedHas(st);
    assert st.unsent[0] in st.unsent;
    assert x in st.unsent <==> x == st.unsent[0] || x in st.unsent[1..];
  }

  lemma SplitKeepsSound(st: Snd, n: nat)
    requires Sound(st) && st.unsent != [] && 0 < n < |st.unsent[0].data| && !st.unsent[0].fin && SplitOutstanding(st, n)
    ensures Sound(Split(st, n))
  {
    var s := st.unsent[0];
    QueuedOne(st, s);
    QueuedHas(st);
    var a, b := Around(Flat(st).unsent, s);
    if a == [] && st.unacked != [] { QueuedOne(st, st.unacked[0]); FirstIsLeast(Flat(st).unsent, st.unacked[0]); }
    SplitAtKeeps(Flat(st), a, s, b, n);
    InvAscends(SplitAt(Flat(st), a, s, b, n));
    FlatSplit(st, n, a, b);
    SplitLists(st, n);
    SplitSpare(st, n);
  }

  lemma FirstIsLeast(q: seq<Seg>, x: Seg)
    requires Ascends(q) && x in q
    ensures q[0].pos <= x.pos && (x != q[0] ==> q[0].pos < x.pos)
  {
  }

  lemma SplitSpare(st: Snd, n: nat)
    requires SpareFits(st) && st.unsent != [] && 0 < n < |st.unsent[0].data|
    ensures SpareFits(Split(st, n))
  {
    var e := Split(st, n);
    assert e.MssLocal() == st.MssLocal();
    if |st.unsent| > 1 { assert Last(e) == Last(st); }
  }

  /** A split of a segment with a FIN leaves the FIN on both parts. */
  lemma SplitFinOverlaps(st: Snd, n: nat)
    requires st.unsent != [] && 0 < n < |st.unsent[0].data| && st.unsent[0].fin
    ensures !Sound(Split(st, n))
  {
    var t := Split(st, n).unsent;
    assert t[0] in t && t[1] in t && t[0].Tail() == t[1].pos + 1;
    Overlap(Split(st, n), t[0], t[1]);
  }

  /** A split that leaves a head which is acknowledged. */
  lemma SplitAcknowledged(st: Snd, n: nat)
    requires Sound(st) && st.unsent != [] && 0 < n < |st.unsent[0].data| && !st.unsent[0].fin
    requires !SplitOutstanding(st, n)
    ensures !Sound(Split(st, n))
  {
    if Sound(Split(st, n)) { HeadOutstands(Split(st, n)); }
  }

  lemma HeadOutstands(e: Snd)
    requires Queued(e) && e.unsent != [] && (e.unacked != [] ==> e.unsent[0].pos <= e.unacked[0].pos)
    ensures e.lastack < e.unsent[0].Tail()
  {
    var f := Flat(e).unsent;
    QueuedOne(e, e.unsent[0]);
    QueuedHas(e);
    QueuedOne(e, f[0]);
    FirstIsLeast(f, e.unsent[0]);
    if f[0] in e.unacked {
      FirstIsLeast(e.unacked, f[0]);
    } else {
      FirstIsLeast(e.unsent, f[0]);
    }
  }

  /** tcp_split_unsent_seg keeps the queues in order exactly if the segment has no FIN and
      what stays of it at the front of the queue is not acknowledged already. */
  lemma SplitKeepsIff(st: Snd, n: nat)
    requires Sound(st) && st.unsent != [] && 0 < n < |st.unsent[0].data|
    ensures Sound(Split(st, n)) <==> (!st.unsent[0].fin && SplitOutstanding(st, n))
  {
    if st.unsent[0].fin {
      SplitFinOverlaps(st, n);
    } else if SplitOutstanding(st, n) {
      SplitKeepsSound(st, n);
    } else {
      SplitAcknowledged(st, n);
    }
  }

  // ----- windows and probes

  lemma {:induction false} FitMerges(a: seq<Seg>, b: seq<Seg>, max: int)
    ensures AllFit(Merge(a, b), max) <==> AllFit(a, max) && AllFit(b, max)
    decreases |a| + |b|
  {
    if a != [] && b != [] {
      if a[0].pos < b[0].pos {
        FitMerges(a[1..], b, max);
        assert ([a[0]] + Merge(a[1..], b))[1..] == Merge(a[1..], b);
      } else {
        FitMerges(a, b[1..], max);
        assert ([b[0]] + Merge(a, b[1..]))[1..] == Merge(a, b[1..]);
      }
    }
  }

  lemma {:induction false} FitLast(q: seq<Seg>, max: int)
    requires AllFit(q, max) && q != []
    ensures |q[|q| - 1].data| <= max
  {
    if |q| > 1 {
      FitLast(q[1..], max);
      assert q[1..][|q| - 2] == q[|q| - 1];
    }
  }

  /** A window update keeps the queues in order exactly if all that is queued still fits. */
  lemma WidenSoundIff(st: Snd, wnd: int)
    requires Sound(st)
    ensures Sound(Widened(st, wnd)) <==> QueuesFit(st, Widened(st, wnd).MssLocal())
    ensures 2 <= st.wndMax ==> QueuesFit(st, Widened(st, wnd).MssLocal())
  {
    var f, m := Flat(st), Widened(st, wnd).MssLocal();
    assert Flat(Widened(st, wnd)) == Widened(f, wnd) && Widened(f, wnd).MssLocal() == m;
    WidenKeepsIff(f, wnd);
    FitMerges(st.unacked, st.unsent, m);
    if AllFit(f.unsent, m) && f.unsent != [] { FitLast(f.unsent, m); }
    if 2 <= st.wndMax { MssGrows(st, wnd); }
  }

  /** tcp_zero_window_probe: one byte of the head is sent, or its FIN; the head stays. */
  function Probed(st: Snd): Snd {
    if st.unsent == [] then st else st.(nxt := Max(st.nxt, st.unsent[0].pos + 1))
  }

  lemma ProbeKeeps(st: Snd)
    requires Sound(st)
    ensures Sound(Probed(st))
  {
    if st.unsent != [] {
      QueuedOne(st, st.unsent[0]);
      NxtMoves(Flat(st), Probed(st).nxt);
      assert Flat(Probed(st)) == Flat(st).(nxt := Probed(st).nxt) && Probed(st).MssLocal() == st.MssLocal();
    }
  }

  // ----- runs

  datatype Event =
    | Write(d: seq<Byte>, a: WriteArgs, budget: nat)
    | SendSyn
    | SendFin
    | Send(wnd: int, go: seq<bool>)
    | FastRetransmit
    | Timeout
    | SplitHead(n: nat)
    | Ack(ack: int)
    | Window(wnd: int)
    | Probe

  function Step(st: Snd, ev: Event): Snd
    requires Legal(st, ev)
  {
    match ev
    case Write(d, a, budget) => if WriteSucceeds(st, d, a, budget) then Written(st, d, a) else st
    case SendSyn => Enqueued(st, true, false)
    case SendFin => FinSent(st)
    case Send(wnd, go) => Output(st, wnd, go)
    case FastRetransmit => Rexmitted(st)
    case Timeout => Requeue(st)
    case SplitHead(n) => Split(st, n)
    case Ack(ack) => Acked(st, ack)
    case Window(wnd) => Widened(st, wnd)
    case Probe => Probed(st)
  }

  /** Data and flags are queued until the FIN is.  Beyond that, each event is legal exactly
      where it keeps the queues in order.  (The spare room is right in every state of a run.) */
  predicate Legal(st: Snd, ev: Event) {
    match ev
    case Write(d, a, budget) =>
      && !st.finFlag && SpareFits(st)
      && (WriteSucceeds(st, d, a, budget) ==> AtEnd(st) || Fill(st, |d|) == 0)
    case SendSyn => !st.finFlag
    case SendFin => !st.finFlag && (!Piggybacks(st) || AtEnd(st))
    case Timeout => InOrder(st)
    case SplitHead(n) =>
      st.unsent != [] && 0 < n < |st.unsent[0].data| && !st.unsent[0].fin && SplitOutstanding(st, n)
    case Window(wnd) => QueuesFit(st, Widened(st, wnd).MssLocal())
    case _ => true
  }

  function Fresh(mss: int, wndMax: int): Snd {
    Snd([], [], 0, 0, 0, SND_BUF, 0, 0, mss, wndMax, false, false, [], [])
  }

  lemma FreshSound(mss: int, wndMax: int)
    requires 0 < mss < 0x1_0000 && 0 <= wndMax
    ensures Sound(Fresh(mss, wndMax))
  {
    InvIsInOrder(Fresh(mss, wndMax));
  }

  lemma StepKeeps(st: Snd, ev: Event)
    requires Sound(st) && Legal(st, ev)
    ensures Sound(Step(st, ev))
  {
    match ev
    case Write(d, a, budget) =>
      if WriteSucceeds(st, d, a, budget) {
        assert Inv(Flat(st));
        WriteKeepsIff(st, d, a);
      }
    case SendSyn => EnqueueKeepsSound(st, true, false);
    case SendFin => FinKeepsIff(st);
    case Send(wnd, go) => OutputKeepsSound(st, wnd, go);
    case FastRetransmit => if st.unacked != [] { RexmitKeeps(st); }
    case Timeout => RequeueKeepsIff(st);
    case SplitHead(n) => SplitKeepsIff(st, n);
    case Ack(ack) => AckKeepsSound(st, ack);
    case Window(wnd) => WidenSoundIff(st, wnd);
    case Probe => ProbeKeeps(st);
  }

  predicate Next(st: Snd, ev: Event, e: Snd) {
    Legal(st, ev) && e == Step(st, ev)
  }

  predicate Run(sts: seq<Snd>, evs: seq<Event>) {
    && |sts| == |evs| + 1
    && sts[0] == Fresh(sts[0].mss, sts[0].wndMax) && 0 < sts[0].mss < 0x1_0000 && 0 <= sts[0].wndMax
    && forall i {:trigger evs[i]} :: 0 <= i < |evs| ==> Next(sts[i], evs[i], sts[i + 1])
  }

  lemma {:induction false} RunKeeps(sts: seq<Snd>, evs: seq<Event>, i: nat)
    requires Run(sts, evs) && i < |sts|
    ensures Sound(sts[i])
  {
    if i == 0 {
      FreshSound(sts[0].mss, sts[0].wndMax);
    } else {
      RunKeeps(sts, evs, i - 1);
      assert Next(sts[i - 1], evs[i - 1], sts[i - 1 + 1]);
      StepKeeps(sts[i - 1], evs[i - 1]);
    }
  }

  /** For every run of writes, transmissions, retransmissions, probes, splits, windows and
      acknowledgements, with retransmitted segments waiting for as long as they like: both
      lists together tile sequence space from what is acknowledged on, and what was released
      followed by what is queued, in order, is exactly what was written; snd_buf and
      snd_queuelen are what they stand for. */
  lemma RunConserves(sts: seq<Snd>, evs: seq<Event>, i: nat)
    requires Run(sts, evs) && i < |sts|
    ensures var st := sts[i]; var q := Merge(st.unacked, st.unsent);
      && Ascends(st.unacked) && Ascends(st.unsent)
      && Chain(q, First(Flat(st)), st.MssLocal(), st.finFlag) && TailOf(q, First(Flat(st))) == st.End()
      && First(Flat(st)) <= st.lastack <= st.nxt <= st.End() && (q != [] ==> st.lastack < q[0].Tail())
      && st.released + Payload(q) == st.written
      && st.sndBuf + |Payload(st.unacked)| + |Payload(st.unsent)| == SND_BUF
      && st.queuelen == BufCount(st.unacked) + BufCount(st.unsent)
  {
    RunKeeps(sts, evs, i);
    var st := sts[i];
    MergeSums(st.unacked, st.unsent);
    assert Flat(st).MssLocal() == st.MssLocal() && st.released + [] == st.released;
  }
}
