/** When selective acknowledgements report all that is queued. */
module SackComplete {
  import opened SeqNum
  import opened Reassembly
  import opened SackQueue
  import Sack

  // ----- a run of bytes is as long as it can be

  lemma {:induction false} OrderOf(q: seq<Seg>, j: nat, k: nat)
    requires Sorted(q) && j < k < |q|
    ensures q[j].pos < q[j].Tail() <= q[k].pos < q[k].Tail()
  {
    if j == 0 { Ascending(q, k); } else { OrderOf(q[1..], j - 1, k - 1); }
  }

  lemma {:induction false} NotBefore(q: seq<Seg>, k: nat)
    requires Sorted(q) && k < |q| && (k == 0 || q[k - 1].Tail() < q[k].pos)
    ensures !Covers(q, q[k].pos - 1)
  {
    var p := q[k].pos - 1;
    if k == 0 {
      if Covers(q, p) { CoversFrom(q, p); }
    } else {
      NotBefore(q[1..], k - 1);
      if k > 1 { OrderOf(q, 0, k - 1); }
    }
  }

  lemma {:induction false} RunStartsAt(q: seq<Seg>, j: nat, peer: seq<Byte>) returns (k: nat)
    requires Good(q, peer) && j < |q|
    ensures k <= j && RunStart(q, j) == q[k].pos && (k == 0 || q[k - 1].Tail() < q[k].pos)
  {
    if j == 0 || q[j - 1].End() != q[j].pos {
      k := j;
      if j > 0 {
        OrderOf(q, j - 1, j);
        SuffixFrom(q, peer, j - 1);
        SuffixFrom(q, peer, j);
      }
    } else {
      k := RunStartsAt(q, j - 1, peer);
    }
  }

  lemma {:induction false} RunEndsAt(e: int, q: seq<Seg>, peer: seq<Byte>)
    requires Good(q, peer) && (q != [] ==> e <= q[0].pos) && RunEnd(e, q) < |peer|
    ensures !Covers(q, RunEnd(e, q))
    decreases |q|
  {
    if q != [] && q[0].pos == e {
      RunEndHeld(q[0].End(), q[1..], peer, 0);
      RunEndsAt(q[0].End(), q[1..], peer);
    } else if Covers(q, e) {
      CoversFrom(q, e);
    }
  }

  lemma {:induction false} SuffixGood(q: seq<Seg>, peer: seq<Byte>, i: nat)
    requires Good(q, peer) && i <= |q|
    ensures Good(q[i..], peer)
  {
    if i > 0 {
      assert q[i..] == q[1..][i - 1..];
      SuffixGood(q[1..], peer, i - 1);
    }
  }

  /** Neither the position in front of a run is held, nor the one behind it. */
  lemma RunIsMaximal(r: seq<Seg>, i: nat, peer: seq<Byte>)
    requires Good(r, peer) && i < |r|
    ensures !Covers(r, RunStart(r, i) - 1)
    ensures var b := RunEnd(r[i].pos, r[i..]); b < |peer| ==> !Covers(r, b)
  {
    var k := RunStartsAt(r, i, peer);
    NotBefore(r, k);
    var b := RunEnd(r[i].pos, r[i..]);
    if b < |peer| { NotBehind(r, i, peer, b); }
  }

  lemma NotBehind(r: seq<Seg>, i: nat, peer: seq<Byte>, b: int)
    requires Good(r, peer) && i < |r| && b == RunEnd(r[i].pos, r[i..]) < |peer|
    ensures !Covers(r, b)
  {
    SuffixGood(r, peer, i);
    RunEndHeld(r[i].pos, r[i..], peer, 0);
    RunEndsAt(r[i].pos, r[i..], peer);
    CoversMeans(r, b);
    forall j | 0 <= j < |r| ensures !In(r[j], b) {
      if j < i {
        OrderOf(r, j, i);
      } else if In(r[j], b) {
        assert r[i..][j - i] == r[j];
        CoversAt(r[i..], j - i, b);
      }
    }
  }

  // ----- what the ranges report, by position

  /** The range x reports the byte at position p. */
  predicate Has(nxt: int, x: Sack.Range, isn: int, p: int) {
    nxt <= p && Sack.Covers(Wrap(isn + nxt), x, p - nxt)
  }

  lemma ToldBy(nxt: int, sacks: seq<Sack.Range>, isn: int, p: int) returns (x: Sack.Range)
    requires Tells(nxt, sacks, isn, p)
    ensures x in Sack.Prefix(sacks) && Has(nxt, x, isn, p)
  {
    x := Sack.Holder(Wrap(isn + nxt), Sack.Prefix(sacks), p - nxt);
  }

  lemma HasTells(nxt: int, sacks: seq<Sack.Range>, isn: int, x: Sack.Range, p: int)
    requires x in Sack.Prefix(sacks) && Has(nxt, x, isn, p)
    ensures Tells(nxt, sacks, isn, p)
  {
    Sack.MemberTells(Wrap(isn + nxt), Sack.Prefix(sacks), x, p - nxt);
  }

  /** The range x has nothing in common with the run a..b. */
  predicate Apart(nxt: int, isn: int, a: int, b: int, x: Sack.Range) {
    Sack.Clear(Wrap(isn + nxt), At(isn, a, b), x)
  }

  /** A range that meets the run and goes on behind it, or starts in front of it. */
  lemma Meets(nxt: int, isn: int, a: int, b: int, x: Sack.Range, p: int)
    requires nxt < a < b < nxt + TWO_31 && Has(nxt, x, isn, p) && !Apart(nxt, isn, a, b, x)
    ensures p < a ==> Has(nxt, x, isn, a - 1)
    ensures b <= p ==> Has(nxt, x, isn, b)
  {
    OffAt(nxt, isn, a);
    OffAt(nxt, isn, b);
  }

  /** How many ranges stay beside the run a..b. */
  function Others(sacks: seq<Sack.Range>, isn: int, a: int, b: int): nat {
    |Sack.Apart(Sack.Prefix(sacks), Wrap(isn + a), Wrap(isn + b))|
  }

  lemma NewTold(nxt: int, sacks: seq<Sack.Range>, isn: int, a: int, b: int, p: int)
    requires Orderly(nxt, sacks, isn) && nxt <= a <= p < b < nxt + TWO_31
    ensures Tells(nxt, Adding(sacks, isn, a, b), isn, p)
  {
    Normal(Wrap(isn + nxt), sacks);
    RunRange(nxt, isn, a, b);
    RunCovers(nxt, isn, a, b, p);
    Sack.AddKeeps(Wrap(isn + nxt), Sack.Fill(Sack.Prefix(sacks)), At(isn, a, b), p - nxt);
  }

  /** StaysTold, on distances from rcv_nxt. */
  lemma StaysReported(base: U32, sacks: seq<Sack.Range>, n: Sack.Range, x: Sack.Range, o: nat)
    requires |sacks| == Sack.MAX && Sack.Tidy(base, Sack.Prefix(sacks)) && Sack.Good(base, n)
    requires x in Sack.Prefix(sacks) && Sack.Covers(base, x, o) && Sack.Clear(base, n, x)
    requires |Sack.Apart(Sack.Prefix(sacks), n.left, n.right)| < Sack.MAX
    ensures Sack.Reported(base, Sack.Prefix(Sack.Added(sacks, n.left, n.right)), o)
  {
    Normal(base, sacks);
    Sack.AddedStays(base, Sack.Fill(Sack.Prefix(sacks)), n, x, o);
  }

  lemma StaysTold(nxt: int, sacks: seq<Sack.Range>, isn: int, a: int, b: int, x: Sack.Range, p: int)
    requires Orderly(nxt, sacks, isn) && nxt <= a < b < nxt + TWO_31
    requires x in Sack.Prefix(sacks) && Has(nxt, x, isn, p) && Apart(nxt, isn, a, b, x)
    requires Others(sacks, isn, a, b) < Sack.MAX
    ensures Tells(nxt, Adding(sacks, isn, a, b), isn, p)
  {
    RunRange(nxt, isn, a, b);
    StaysReported(Wrap(isn + nxt), sacks, At(isn, a, b), x, p - nxt);
  }

  /** A range that meets the run goes, and what it reported outside of the run with it. */
  lemma MetGoes(nxt: int, sacks: seq<Sack.Range>, isn: int, a: int, b: int, x: Sack.Range, p: int)
    requires Orderly(nxt, sacks, isn) && nxt <= a < b < nxt + TWO_31
    requires x in Sack.Prefix(sacks) && Has(nxt, x, isn, p) && !Apart(nxt, isn, a, b, x) && !(a <= p < b)
    ensures !Tells(nxt, Adding(sacks, isn, a, b), isn, p)
  {
    Normal(Wrap(isn + nxt), sacks);
    RunRange(nxt, isn, a, b);
    RunCovers(nxt, isn, a, b, p);
    Sack.MetGoes(Wrap(isn + nxt), Sack.Fill(Sack.Prefix(sacks)), At(isn, a, b), x, p - nxt);
  }

  /** The oldest of four ranges beside the run goes: a byte of it is no longer reported. */
  lemma OldestGoes(nxt: int, sacks: seq<Sack.Range>, isn: int, a: int, b: int) returns (x: Sack.Range, p: int)
    requires Orderly(nxt, sacks, isn) && nxt <= a < b < nxt + TWO_31 && Others(sacks, isn, a, b) >= Sack.MAX
    ensures x in Sack.Prefix(sacks) && Has(nxt, x, isn, p) && Apart(nxt, isn, a, b, x) && !(a <= p < b)
    ensures x == Sack.Apart(Sack.Prefix(sacks), Wrap(isn + a), Wrap(isn + b))[Sack.MAX - 1] && p == Start(nxt, x, isn)
    ensures !Tells(nxt, Adding(sacks, isn, a, b), isn, p)
  {
    Normal(Wrap(isn + nxt), sacks);
    RunRange(nxt, isn, a, b);
    var o;
    x, o := Sack.OldestGoes(Wrap(isn + nxt), Sack.Fill(Sack.Prefix(sacks)), At(isn, a, b));
    p := nxt + o;
    RunCovers(nxt, isn, a, b, p);
  }

  // ----- storing

  /** Every byte of the queue is reported. */
  ghost predicate Complete(nxt: int, q: seq<Seg>, sacks: seq<Sack.Range>, isn: int, peer: seq<Byte>) {
    forall p {:trigger Covers(q, p)} :: Covers(q, p) && p < |peer| ==> Tells(nxt, sacks, isn, p)
  }

  /** A range is entered. */
  predicate Enters(e: Edges) {
    e.Edges? && e.left < e.right
  }

  /** There is room for it: fewer than MAX others stay. */
  predicate RoomFor(q: seq<Seg>, s: Seg, r: seq<Seg>, sacks: seq<Sack.Range>, isn: int)
    requires q != []
  {
    var e := SackEdges(q, s, r);
    Enters(e) ==> Others(sacks, isn, e.left, e.right) < Sack.MAX
  }

  /** The segment cuts off the end of its predecessor, and the range that reports the
      predecessor goes on behind it. */
  predicate CutsRange(nxt: int, q: seq<Seg>, s: Seg, copyOk: bool, sacks: seq<Sack.Range>, isn: int) {
    && copyOk && EndsInsidePredecessor(q, s)
    && var e := q[Before(q, s.pos) - 1].End();
       exists x {:trigger Has(nxt, x, isn, e)} ::
         x in Sack.Prefix(sacks) && Has(nxt, x, isn, e - 1) && Has(nxt, x, isn, e)
  }

  /** What is known when the segment is stored. */
  ghost predicate Storing(st: Rcv, s: Seg, copyOk: bool, r: seq<Seg>, e: Edges, sacks: seq<Sack.Range>, isn: int,
                          peer: seq<Byte>) {
    && Storable(st, s, copyOk, peer) && st.queue != [] && !NoCopyInFront(st.queue, s, copyOk)
    && Truthful(st.nxt, st.queue, sacks, isn, peer) && Complete(st.nxt, st.queue, sacks, isn, peer)
    && r == Stored(st.queue, s, st.Edge(), copyOk) && e == SackEdges(st.queue, s, r)
  }

  /** What is held behind is what was and is not lost, or is new. */
  lemma StoreHolds(st: Rcv, s: Seg, copyOk: bool, peer: seq<Byte>, p: int)
    requires Storable(st, s, copyOk, peer)
    ensures var r := Stored(st.queue, s, st.Edge(), copyOk);
      && Good(r, peer)
      && (Covers(r, p) <==>
          (&& (copyOk ==> (Covers(st.queue, p) && !Lost(st.queue, s, p)) || Gained(st.queue, s, st.Edge(), p))
           && (!copyOk ==> Covers(st.queue, p))))
  {
    InsertHolds(st.queue, s, st.Edge(), peer, p);
  }

  /** What is stored and not in the run was queued before. */
  lemma OutsideWasHeld(st: Rcv, s: Seg, copyOk: bool, r: seq<Seg>, e: Edges, sacks: seq<Sack.Range>, isn: int,
                       peer: seq<Byte>, p: int)
    requires Storing(st, s, copyOk, r, e, sacks, isn, peer) && Covers(r, p) && p < |peer|
    requires Enters(e) ==> !(e.left <= p < e.right)
    ensures Covers(st.queue, p)
  {
    var i := Before(st.queue, s.pos);
    StoreHolds(st, s, copyOk, peer, p);
    if !Covers(st.queue, p) {
      StoreRuns(st, s, copyOk, peer);
      RunIsMaximal(r, i, peer);
      StoreHolds(st, s, copyOk, peer, e.right);
      assert false;
    }
  }

  /** The byte next to the run, if it was queued, has been cut off the predecessor. */
  lemma NextToRun(st: Rcv, s: Seg, copyOk: bool, r: seq<Seg>, e: Edges, sacks: seq<Sack.Range>, isn: int,
                  peer: seq<Byte>, m: int)
    requires Storing(st, s, copyOk, r, e, sacks, isn, peer) && Enters(e) && (m == e.left - 1 || m == e.right)
    requires Covers(st.queue, m) && m < |peer|
    ensures copyOk && Lost(st.queue, s, m) && m == e.right
  {
    StoreHolds(st, s, copyOk, peer, m);
    StoreRuns(st, s, copyOk, peer);
    RunIsMaximal(r, Before(st.queue, s.pos), peer);
  }

  /** A range that meets the run and reports a held byte outside of it is cut. */
  lemma MeetsOutside(st: Rcv, s: Seg, copyOk: bool, r: seq<Seg>, e: Edges, sacks: seq<Sack.Range>, isn: int,
                     peer: seq<Byte>, x: Sack.Range, p: int)
    requires Storing(st, s, copyOk, r, e, sacks, isn, peer) && Enters(e)
    requires x in Sack.Prefix(sacks) && Has(st.nxt, x, isn, p) && !Apart(st.nxt, isn, e.left, e.right, x)
    requires Covers(r, p) && p < |peer| && !(e.left <= p < e.right)
    ensures CutsRange(st.nxt, st.queue, s, copyOk, sacks, isn)
  {
    var m := if p < e.left then e.left - 1 else e.right;
    EdgesApart(st, s, copyOk, r, e, sacks, isn, peer);
    Meets(st.nxt, isn, e.left, e.right, x, p);
    HasTells(st.nxt, sacks, isn, x, m);
    NextToRun(st, s, copyOk, r, e, sacks, isn, peer, m);
    BehindCut(st, s, copyOk, r, e, sacks, isn, peer, p);
    var k := st.queue[Before(st.queue, s.pos) - 1].End();
    assert Has(st.nxt, x, isn, k - 1) && Has(st.nxt, x, isn, k);
  }

  lemma EdgesApart(st: Rcv, s: Seg, copyOk: bool, r: seq<Seg>, e: Edges, sacks: seq<Sack.Range>, isn: int,
                   peer: seq<Byte>)
    requires Storing(st, s, copyOk, r, e, sacks, isn, peer) && Enters(e)
    ensures st.nxt < e.left < e.right < st.nxt + TWO_31
  {
    StoreRuns(st, s, copyOk, peer);
    StoreRecords(st, s, copyOk, sacks, isn, peer);
  }

  /** What is held behind a cut lies behind the predecessor. */
  lemma BehindCut(st: Rcv, s: Seg, copyOk: bool, r: seq<Seg>, e: Edges, sacks: seq<Sack.Range>, isn: int,
                  peer: seq<Byte>, p: int)
    requires Storing(st, s, copyOk, r, e, sacks, isn, peer) && Enters(e) && copyOk
    requires Lost(st.queue, s, e.right) && e.right <= p && Covers(r, p)
    ensures EndsInsidePredecessor(st.queue, s) && e.right < st.queue[Before(st.queue, s.pos) - 1].End() <= p
  {
    StoreHolds(st, s, copyOk, peer, p);
    StoreRuns(st, s, copyOk, peer);
  }

  lemma HeldIsTold(st: Rcv, s: Seg, copyOk: bool, r: seq<Seg>, e: Edges, sacks: seq<Sack.Range>, isn: int,
                   peer: seq<Byte>, p: int)
    requires Storing(st, s, copyOk, r, e, sacks, isn, peer) && Covers(r, p) && p < |peer|
    requires RoomFor(st.queue, s, r, sacks, isn) && !CutsRange(st.nxt, st.queue, s, copyOk, sacks, isn)
    ensures Tells(st.nxt, Recorded(st.queue, s, r, sacks, isn), isn, p)
  {
    StoreRecords(st, s, copyOk, sacks, isn, peer);
    if Enters(e) && e.left <= p < e.right {
      NewTold(st.nxt, sacks, isn, e.left, e.right, p);
    } else {
      OutsideWasHeld(st, s, copyOk, r, e, sacks, isn, peer, p);
      if Enters(e) {
        var x := ToldBy(st.nxt, sacks, isn, p);
        if !Apart(st.nxt, isn, e.left, e.right, x) { MeetsOutside(st, s, copyOk, r, e, sacks, isn, peer, x, p); }
        StaysTold(st.nxt, sacks, isn, e.left, e.right, x, p);
      }
    }
  }

  /** A range apart from the run has no position of it. */
  lemma Beside(nxt: int, isn: int, a: int, b: int, x: Sack.Range, z: int, p: int)
    requires nxt <= a < b < nxt + TWO_31 && nxt <= z && Has(nxt, x, isn, p) && Apart(nxt, isn, a, b, x)
    ensures Start(nxt, x, isn) <= z <= p ==> !(a <= z < b)
  {
    if Start(nxt, x, isn) <= z <= p { ClearOf(nxt, isn, a, b, x, z); }
  }

  /** The oldest range falls out; the queue holds what it reported. */
  lemma NoRoomLoses(st: Rcv, s: Seg, copyOk: bool, r: seq<Seg>, e: Edges, sacks: seq<Sack.Range>, isn: int,
                    peer: seq<Byte>) returns (p: int)
    requires Storing(st, s, copyOk, r, e, sacks, isn, peer) && !RoomFor(st.queue, s, r, sacks, isn)
    ensures Covers(r, p) && p < |peer| && !Tells(st.nxt, Recorded(st.queue, s, r, sacks, isn), isn, p)
  {
    StoreRuns(st, s, copyOk, peer);
    StoreRecords(st, s, copyOk, sacks, isn, peer);
    var x;
    x, p := OldestGoes(st.nxt, sacks, isn, e.left, e.right);
    HasTells(st.nxt, sacks, isn, x, p);
    var y := Start(st.nxt, x, isn);
    if r != st.queue {
      Beside(st.nxt, isn, e.left, e.right, x, s.pos, p);
      OldStaysHeld(st.queue, s, st.Edge(), copyOk, peer, y, p);
    }
  }

  /** What follows the predecessor stays in the queue. */
  lemma BehindStays(st: Rcv, s: Seg, peer: seq<Byte>, p: int)
    requires Storable(st, s, true, peer) && EndsInsidePredecessor(st.queue, s)
    requires p == st.queue[Before(st.queue, s.pos) - 1].End() && Covers(st.queue, p)
    ensures Covers(Stored(st.queue, s, st.Edge(), true), p)
  {
    StoreHolds(st, s, true, peer, p);
  }

  /** The range goes; the queue holds what follows the predecessor. */
  lemma CutLoses(st: Rcv, s: Seg, copyOk: bool, r: seq<Seg>, e: Edges, sacks: seq<Sack.Range>, isn: int,
                 peer: seq<Byte>) returns (p: int)
    requires Storing(st, s, copyOk, r, e, sacks, isn, peer) && CutsRange(st.nxt, st.queue, s, copyOk, sacks, isn)
    ensures Covers(r, p) && p < |peer| && !Tells(st.nxt, Recorded(st.queue, s, r, sacks, isn), isn, p)
  {
    var x: Sack.Range;
    x, p := RangeCut(st.nxt, st.queue, s, copyOk, sacks, isn);
    HasTells(st.nxt, sacks, isn, x, p);
    BehindStays(st, s, peer, p);
    CutEntered(st, s, copyOk, r, e, sacks, isn, peer);
    CutMet(st, s, copyOk, e, sacks, isn, peer, x);
    MetGoes(st.nxt, sacks, isn, e.left, e.right, x, p);
  }

  lemma RangeCut(nxt: int, q: seq<Seg>, s: Seg, copyOk: bool, sacks: seq<Sack.Range>, isn: int)
    returns (x: Sack.Range, p: int)
    requires CutsRange(nxt, q, s, copyOk, sacks, isn)
    ensures copyOk && EndsInsidePredecessor(q, s) && p == q[Before(q, s.pos) - 1].End()
    ensures x in Sack.Prefix(sacks) && Has(nxt, x, isn, p - 1) && Has(nxt, x, isn, p)
    ensures s.Tail() < p
  {
    p := q[Before(q, s.pos) - 1].End();
    x :| x in Sack.Prefix(sacks) && Has(nxt, x, isn, p - 1) && Has(nxt, x, isn, p);
  }

  /** The run entered ends with the segment. */
  lemma CutEntered(st: Rcv, s: Seg, copyOk: bool, r: seq<Seg>, e: Edges, sacks: seq<Sack.Range>, isn: int,
                   peer: seq<Byte>)
    requires Storing(st, s, copyOk, r, e, sacks, isn, peer) && copyOk && EndsInsidePredecessor(st.queue, s)
    ensures Enters(e) && e.left <= s.pos < e.right <= s.Tail()
    ensures st.nxt < e.left && e.right < st.nxt + TWO_31
    ensures Recorded(st.queue, s, r, sacks, isn) == Adding(sacks, isn, e.left, e.right)
  {
    var q, k, i := st.queue, Before(st.queue, s.pos) - 1, Before(st.queue, s.pos);
    BeforeIsLess(q, s.pos);
    StoreRuns(st, s, copyOk, peer);
    StoreRecords(st, s, copyOk, sacks, isn, peer);
    SuffixFrom(q, peer, k);
    assert In(q[k], s.Tail()) && Lost(q, s, s.Tail());
    CoversAt(q, k, s.Tail());
    StoreHolds(st, s, copyOk, peer, s.Tail());
    RunHeld(r, i, peer, s.Tail());
  }

  /** The range that reports the end of the predecessor reports all of it. */
  lemma CutMet(st: Rcv, s: Seg, copyOk: bool, e: Edges, sacks: seq<Sack.Range>, isn: int, peer: seq<Byte>,
               x: Sack.Range)
    requires Storing(st, s, copyOk, Stored(st.queue, s, st.Edge(), copyOk), e, sacks, isn, peer)
    requires copyOk && EndsInsidePredecessor(st.queue, s) && x in Sack.Prefix(sacks)
    requires Has(st.nxt, x, isn, st.queue[Before(st.queue, s.pos) - 1].End() - 1)
    requires e.Edges? && st.nxt < e.left <= s.pos < e.right < st.nxt + TWO_31
    ensures !Apart(st.nxt, isn, e.left, e.right, x)
  {
    var q, k, y := st.queue, Before(st.queue, s.pos) - 1, Start(st.nxt, x, isn);
    BeforeIsLess(q, s.pos);
    if q[k].pos < y { SplitsAt(q, k, y); }
    assert Has(st.nxt, x, isn, s.pos);
    if Apart(st.nxt, isn, e.left, e.right, x) { ClearOf(st.nxt, isn, e.left, e.right, x, s.pos); }
  }

  /** With every byte of the queue reported, storing a segment keeps it so exactly if there
      is room for its range, and it does not cut a range that goes on behind it. */
  lemma StoreCompleteIff(st: Rcv, s: Seg, copyOk: bool, sacks: seq<Sack.Range>, isn: int, peer: seq<Byte>)
    requires Storable(st, s, copyOk, peer) && st.queue != [] && !NoCopyInFront(st.queue, s, copyOk)
    requires Truthful(st.nxt, st.queue, sacks, isn, peer) && Complete(st.nxt, st.queue, sacks, isn, peer)
    ensures var r := Stored(st.queue, s, st.Edge(), copyOk);
      (Complete(st.nxt, r, Recorded(st.queue, s, r, sacks, isn), isn, peer) <==>
       (RoomFor(st.queue, s, r, sacks, isn) && !CutsRange(st.nxt, st.queue, s, copyOk, sacks, isn)))
  {
    var r := Stored(st.queue, s, st.Edge(), copyOk);
    var e := SackEdges(st.queue, s, r);
    if !RoomFor(st.queue, s, r, sacks, isn) {
      var p := NoRoomLoses(st, s, copyOk, r, e, sacks, isn, peer);
    } else if CutsRange(st.nxt, st.queue, s, copyOk, sacks, isn) {
      var p := CutLoses(st, s, copyOk, r, e, sacks, isn, peer);
    } else {
      forall p | Covers(r, p) && p < |peer| ensures Tells(st.nxt, Recorded(st.queue, s, r, sacks, isn), isn, p) {
        HeldIsTold(st, s, copyOk, r, e, sacks, isn, peer, p);
      }
    }
  }

  lemma OnlyOne(s: Seg, p: int)
    ensures Covers([s], p) <==> In(s, p)
  {
    assert [s][1..] == [];
  }

  /** The first segment queued is reported. */
  lemma FirstComplete(st: Rcv, s: Seg, copyOk: bool, sacks: seq<Sack.Range>, isn: int, peer: seq<Byte>)
    requires Storable(st, s, copyOk, peer) && st.queue == [] && |s.data| < 0x1_0000
    requires Truthful(st.nxt, st.queue, sacks, isn, peer)
    ensures var r := Stored(st.queue, s, st.Edge(), copyOk);
      Complete(st.nxt, r, Recorded(st.queue, s, r, sacks, isn), isn, peer)
  {
    var n, a, b := st.nxt, s.pos, s.End();
    var r := Stored(st.queue, s, st.Edge(), copyOk);
    NothingTold(n, sacks, isn, peer);
    OneEntry(n, sacks, isn, a, b);
    forall p | Covers(r, p) && p < |peer| ensures Tells(n, Recorded(st.queue, s, r, sacks, isn), isn, p) {
      OnlyOne(s, p);
      RunCovers(n, isn, a, b, p);
    }
  }

  // ----- delivering

  lemma RemovedStays(nxt: int, n: int, x: int, sacks: seq<Sack.Range>, isn: int, p: int)
    requires Orderly(nxt, sacks, isn) && nxt <= n <= x <= p && x < nxt + TWO_31 && Tells(nxt, sacks, isn, p)
    ensures Tells(n, Sack.RemovedLt(sacks, Wrap(isn + x)), isn, p)
  {
    var base := Wrap(isn + nxt);
    Normal(base, sacks);
    OffAt(nxt, isn, n);
    OffAt(nxt, isn, x);
    Sack.RemoveKeeps(base, Sack.Fill(Sack.Prefix(sacks)), Wrap(isn + x), Wrap(isn + n), p - n);
  }

  /** What delivering leaves in the queue stays reported. */
  lemma DeliverComplete(st: Rcv, t: Seg, sacks: seq<Sack.Range>, isn: int, peer: seq<Byte>)
    requires Inv(st, peer) && From(t, peer) && t.pos == st.nxt < t.Tail() && 0 < st.wnd <= 0x1_0000
    requires Truthful(st.nxt, st.queue, sacks, isn, peer) && Complete(st.nxt, st.queue, sacks, isn, peer)
    ensures var r := InOrder(st, t); Complete(r.nxt, r.queue, Delivered(r.queue, sacks, isn), isn, peer)
  {
    var r := InOrder(st, t);
    forall p | Covers(r.queue, p) && p < |peer| ensures Tells(r.nxt, Delivered(r.queue, sacks, isn), isn, p) {
      InOrderLeaves(st, t, peer, p);
      CoversFrom(r.queue, p);
      RemovedStays(st.nxt, r.nxt, r.queue[0].pos, sacks, isn, p);
    }
  }

  // ----- runs

  /** A segment that is queued leaves room and cuts no range. */
  predicate FitsArriving(st: Rcv, s: Seg, copyOk: bool, sacks: seq<Sack.Range>, isn: int) {
    var t := TrimFront(s, st.nxt);
    st.nxt < t.pos < st.Edge() && st.queue != [] ==>
      && RoomFor(st.queue, t, Stored(st.queue, t, st.Edge(), copyOk), sacks, isn)
      && !CutsRange(st.nxt, st.queue, t, copyOk, sacks, isn)
  }

  predicate Fits(c: Delivery.Conn, ev: Delivery.Event, sacks: seq<Sack.Range>, isn: int) {
    match ev
    case Segment(s, copyOk, retryOk, _) =>
      var d := Delivery.Retry(c, retryOk);
      d.refused.Held? || s.pos == s.Tail() || !d.rxOpen || FitsArriving(c.rcv, s, copyOk, sacks, isn)
    case _ => true
  }

  ghost predicate ConnComplete(c: Delivery.Conn, sacks: seq<Sack.Range>, isn: int, peer: seq<Byte>) {
    Complete(c.rcv.nxt, c.rcv.queue, sacks, isn, peer)
  }

  lemma ArrivedCompleteIff(st: Rcv, s: Seg, copyOk: bool, sacks: seq<Sack.Range>, isn: int, peer: seq<Byte>)
    requires Inv(st, peer) && st.wnd <= 0x1_0000 && From(s, peer) && s.pos < s.Tail() && |s.data| < 0x1_0000
    requires !StoredUntrimmed(st, s) && !NoCopyInFront(st.queue, TrimFront(s, st.nxt), copyOk)
    requires Truthful(st.nxt, st.queue, sacks, isn, peer) && Complete(st.nxt, st.queue, sacks, isn, peer)
    ensures var r := Arrive(st, s, copyOk);
      (Complete(r.nxt, r.queue, Arrived(st, s, copyOk, sacks, isn), isn, peer) <==>
       FitsArriving(st, s, copyOk, sacks, isn))
  {
    var t := TrimFront(s, st.nxt);
    if st.nxt <= t.pos < st.Edge() {
      ArriveKeepsInv(st, s, copyOk, peer);
      if t.pos == st.nxt {
        DeliverComplete(st, t, sacks, isn, peer);
      } else if st.queue == [] {
        FirstComplete(st, t, copyOk, sacks, isn, peer);
      } else {
        StoreCompleteIff(st, t, copyOk, sacks, isn, peer);
      }
    }
  }

  /** A step keeps every byte of the queue reported exactly if what it stores fits. */
  lemma StepCompleteIff(c: Delivery.Conn, ev: Delivery.Event, sacks: seq<Sack.Range>, isn: int, peer: seq<Byte>)
    requires Delivery.ConnInv(c, peer) && Delivery.Legal(c, ev, peer) && Legal(c, ev)
    requires ConnTruthful(c, sacks, isn, peer) && ConnComplete(c, sacks, isn, peer)
    ensures ConnComplete(Delivery.Step(c, ev, peer), Step(c, ev, sacks, isn), isn, peer) <==> Fits(c, ev, sacks, isn)
  {
    match ev
    case Segment(s, copyOk, retryOk, acceptOk) =>
      InputMoves(c, s, copyOk, retryOk, acceptOk, peer);
      Delivery.AcceptedIsReceived(c, peer);
      var d := Delivery.Retry(c, retryOk);
      if !d.refused.Held? && s.pos < s.Tail() && d.rxOpen {
        ArrivedCompleteIff(c.rcv, s, copyOk, sacks, isn, peer);
      }
    case Poll(acceptOk) => Delivery.RetryKeeps(c, acceptOk, peer);
    case _ =>
  }

  lemma NextCompleteIff(cs: seq<Delivery.Conn>, sacks: seq<seq<Sack.Range>>, evs: seq<Delivery.Event>, isn: int,
                        peer: seq<Byte>, i: nat)
    requires Run(cs, sacks, evs, isn, peer) && i < |evs| && ConnComplete(cs[i], sacks[i], isn, peer)
    ensures ConnComplete(cs[i + 1], sacks[i + 1], isn, peer) <==> Fits(cs[i], evs[i], sacks[i], isn)
  {
    RunTruthful(cs, sacks, evs, isn, peer, i);
    Delivery.RunInv(cs, evs, peer, i);
    assert Delivery.Next(cs[i], evs[i], cs[i + 1], peer);
    StepCompleteIff(cs[i], evs[i], sacks[i], isn, peer);
  }

  /** Every byte that is queued is reported, in all of the first states. */
  ghost predicate AllComplete(cs: seq<Delivery.Conn>, sacks: seq<seq<Sack.Range>>, isn: int, peer: seq<Byte>, i: nat)
    requires i < |cs| == |sacks|
  {
    forall j :: 0 <= j <= i ==> ConnComplete(cs[j], sacks[j], isn, peer)
  }

  /** All that the first events stored fitted. */
  ghost predicate AllFitted(cs: seq<Delivery.Conn>, sacks: seq<seq<Sack.Range>>, evs: seq<Delivery.Event>, isn: int,
                            i: nat)
    requires i <= |evs| && i < |cs| == |sacks|
  {
    forall j {:trigger evs[j]} :: 0 <= j < i ==> Fits(cs[j], evs[j], sacks[j], isn)
  }

  lemma OneMore(cs: seq<Delivery.Conn>, sacks: seq<seq<Sack.Range>>, evs: seq<Delivery.Event>, isn: int,
                peer: seq<Byte>, i: nat)
    requires 0 < i < |cs| == |sacks| && i <= |evs|
    ensures AllComplete(cs, sacks, isn, peer, i) <==>
      AllComplete(cs, sacks, isn, peer, i - 1) && ConnComplete(cs[i], sacks[i], isn, peer)
    ensures AllFitted(cs, sacks, evs, isn, i) <==>
      AllFitted(cs, sacks, evs, isn, i - 1) && Fits(cs[i - 1], evs[i - 1], sacks[i - 1], isn)
  {
  }

  /** Along every run, selective acknowledgements report exactly what is queued, up to the
      first segment that leaves no room or cuts a range; with RunTruthful. */
  lemma {:induction false} RunCompleteIff(cs: seq<Delivery.Conn>, sacks: seq<seq<Sack.Range>>,
                                          evs: seq<Delivery.Event>, isn: int, peer: seq<Byte>, i: nat)
    requires Run(cs, sacks, evs, isn, peer) && i < |cs|
    ensures AllComplete(cs, sacks, isn, peer, i) <==> AllFitted(cs, sacks, evs, isn, i)
  {
    if i > 0 {
      RunCompleteIff(cs, sacks, evs, isn, peer, i - 1);
      if ConnComplete(cs[i - 1], sacks[i - 1], isn, peer) { NextCompleteIff(cs, sacks, evs, isn, peer, i - 1); }
      OneMore(cs, sacks, evs, isn, peer, i);
    }
  }
}
