/** Selective acknowledgements report what is queued. */
module SackQueue {
  import opened SeqNum
  import opened Reassembly
  import Delivery
  import Sack

  // tcp_receive derives a range from the queue whenever it stores a segment, and tcp_add_sack
  // enters it.  The range is the whole contiguous run of queued bytes around the new ones.

  /** Where the contiguous run of bytes that segment `j` belongs to starts. */
  function RunStart(q: seq<Seg>, j: nat): int
    requires j < |q|
  {
    if j == 0 || q[j - 1].End() != q[j].pos then q[j].pos else RunStart(q, j - 1)
  }

  /** How far the bytes go on from `e` without a gap. */
  function RunEnd(e: int, q: seq<Seg>): int
    decreases |q|
  {
    if q == [] || q[0].pos != e then e else RunEnd(q[0].End(), q[1..])
  }

  datatype Edges = NoEdges | Edges(left: int, right: int)

  /** sackbeg after walking past the segments in front of `s`. */
  function SackBeg(q: seq<Seg>, s: Seg): int
    requires q != []
  {
    var i := Before(q, s.pos);
    if i == 0 then Min(s.pos, q[0].pos) else RunStart(q, i - 1)
  }

  /** sackbeg and sackend once the queue `q` has become `r`. */
  function SackEdges(q: seq<Seg>, s: Seg, r: seq<Seg>): Edges
    requires q != []
  {
    var i := Before(q, s.pos);
    if i >= |r| then NoEdges
    else
      Edges(if i > 0 && r[i - 1].End() != r[i].pos then r[i].pos else SackBeg(q, s), RunEnd(r[i].pos, r[i..]))
  }

  // ----- runs of bytes

  /** Position `y` lies strictly inside a queued segment. */
  predicate Splits(q: seq<Seg>, y: int) {
    q != [] && (q[0].pos < y < q[0].Tail() || Splits(q[1..], y))
  }

  lemma {:induction false} SplitsConcat(a: seq<Seg>, b: seq<Seg>, y: int)
    ensures Splits(a + b, y) <==> Splits(a, y) || Splits(b, y)
  {
    if a == [] {
      assert a + b == b;
    } else {
      SplitsConcat(a[1..], b, y);
      assert (a + b)[1..] == a[1..] + b;
    }
  }

  lemma {:induction false} Ascending(q: seq<Seg>, k: nat)
    requires Sorted(q) && k < |q|
    ensures q[0].pos <= q[k].pos && (k > 0 ==> q[0].Tail() <= q[k].pos) && q[k].pos < q[k].Tail()
    ensures k > 0 ==> q[k - 1].Tail() <= q[k].pos
  {
    if k > 0 { Ascending(q[1..], k - 1); }
  }

  lemma {:induction false} StartSplitsNothing(q: seq<Seg>, k: nat)
    requires Sorted(q) && k < |q|
    ensures !Splits(q, q[k].pos)
  {
    Ascending(q, k);
    if k > 0 {
      StartSplitsNothing(q[1..], k - 1);
    } else if Splits(q[1..], q[0].pos) {
      SplitsBehind(q[1..], q[0].pos);
    }
  }

  lemma {:induction false} SplitsBehind(q: seq<Seg>, y: int)
    requires Sorted(q) && Splits(q, y)
    ensures q[0].pos < y
  {
    if !(q[0].pos < y < q[0].Tail()) { SplitsBehind(q[1..], y); }
  }

  lemma {:induction false} CoversAt(q: seq<Seg>, k: nat, p: int)
    requires k < |q| && In(q[k], p)
    ensures Covers(q, p)
  {
    if k > 0 { CoversAt(q[1..], k - 1, p); }
  }

  lemma {:induction false} RunStartHeld(q: seq<Seg>, j: nat, p: int)
    requires Sorted(q) && j < |q|
    ensures RunStart(q, j) <= q[j].pos && !Splits(q, RunStart(q, j))
    ensures RunStart(q, j) <= p < q[j].pos ==> Covers(q, p)
  {
    if j == 0 || q[j - 1].End() != q[j].pos {
      StartSplitsNothing(q, j);
    } else {
      RunStartHeld(q, j - 1, p);
      Ascending(q, j - 1);
      if q[j - 1].pos <= p < q[j].pos { CoversAt(q, j - 1, p); }
    }
  }

  lemma {:induction false} RunEndHeld(e: int, q: seq<Seg>, peer: seq<Byte>, p: int)
    requires AllFrom(q, peer)
    ensures e <= RunEnd(e, q) && (e <= p < RunEnd(e, q) ==> Covers(q, p))
    ensures e <= |peer| ==> RunEnd(e, q) <= |peer|
    ensures q != [] && q[0].pos == e ==> q[0].End() <= RunEnd(e, q)
    decreases |q|
  {
    if q != [] && q[0].pos == e { RunEndHeld(q[0].End(), q[1..], peer, p); }
  }

  lemma {:induction false} CoversSuffix(q: seq<Seg>, i: nat, p: int)
    requires i <= |q| && Covers(q[i..], p)
    ensures Covers(q, p)
  {
    if i > 0 {
      assert q[i..] == q[1..][i - 1..];
      CoversSuffix(q[1..], i - 1, p);
    }
  }

  lemma {:induction false} SuffixFrom(q: seq<Seg>, peer: seq<Byte>, i: nat)
    requires AllFrom(q, peer) && i <= |q|
    ensures AllFrom(q[i..], peer) && (i < |q| ==> From(q[i], peer))
  {
    if i > 0 {
      assert q[i..] == q[1..][i - 1..];
      SuffixFrom(q[1..], peer, i - 1);
    }
  }

  /** The run around segment `i` is held, byte for byte, and starts at a segment. */
  lemma RunHeld(r: seq<Seg>, i: nat, peer: seq<Byte>, p: int)
    requires Good(r, peer) && i < |r|
    ensures var a, b := RunStart(r, i), RunEnd(r[i].pos, r[i..]);
      && a <= r[i].pos && r[i].End() <= b <= |peer| && !Splits(r, a)
      && (a <= p < b ==> Covers(r, p))
  {
    RunStartHeld(r, i, p);
    SuffixFrom(r, peer, i);
    RunEndHeld(r[i].pos, r[i..], peer, p);
    if r[i].pos <= p < RunEnd(r[i].pos, r[i..]) { CoversSuffix(r, i, p); }
  }

  // ----- what tcp_receive reports

  /** No memory for a segment in front of everything queued. */
  predicate NoCopyInFront(q: seq<Seg>, s: Seg, copyOk: bool) {
    !copyOk && (if q == [] then s.data != [] else s.pos < q[0].pos)
  }

  lemma {:induction false} SameRunStart(q: seq<Seg>, r: seq<Seg>, j: nat)
    requires j < |q| && j < |r| && r[j].pos == q[j].pos && forall k :: 0 <= k < j ==> r[k] == q[k]
    ensures RunStart(r, j) == RunStart(q, j)
  {
    if j > 0 { SameRunStart(q, r, j - 1); }
  }

  lemma OverlayHead(s: Seg, rest: seq<Seg>)
    ensures var r := Overlay(s, rest); r != [] && r[0].pos == s.pos
  {
    SwallowHead(s, rest);
  }

  lemma {:induction false} SwallowHead(s: Seg, rest: seq<Seg>)
    ensures var r := Swallow(s, rest); r != [] && r[0].pos == s.pos
    decreases |rest|
  {
    if rest != [] && s.End() >= rest[0].End() { SwallowHead(s.(fin := s.fin || rest[0].fin), rest[1..]); }
  }

  /** What an insertion behind the first `i` segments leaves in front of the new one, and
      where the new one lies. */
  lemma InsertedFront(q: seq<Seg>, s: Seg, edge: int, i: nat)
    requires FirstFrom(q, s.pos, i) && q != []
    ensures var r := InsertedAt(q, s, edge, i);
      && i <= |r| && (forall k :: 0 <= k < i - 1 ==> r[k] == q[k]) && (i > 0 ==> r[i - 1].pos == q[i - 1].pos)
      && (r == q || (i < |r| && r[i].pos == s.pos))
      && (i == 0 ==> r != [] && r[0].pos == s.pos)
  {
    if i < |q| { OverlayHead(s, q[i..]); }
  }

  lemma {:induction false} BeforeIsFirst(q: seq<Seg>, x: int)
    requires Sorted(q)
    ensures FirstFrom(q, x, Before(q, x))
  {
    if q != [] && q[0].pos < x {
      BeforeIsFirst(q[1..], x);
      assert forall j :: 0 < j < Before(q, x) ==> q[j] == q[1..][j - 1];
    }
  }

  /** `r` is what becomes of the queue `q` when the segments in front of `s` stay. */
  predicate StaysInFront(q: seq<Seg>, s: Seg, r: seq<Seg>, i: nat) {
    && i <= |q| && i <= |r| && (forall k :: 0 <= k < i - 1 ==> r[k] == q[k])
    && (i > 0 ==> r[i - 1].pos == q[i - 1].pos)
    && (i == 0 ==> q != [] && r != [] && r[0].pos == Min(s.pos, q[0].pos))
  }

  lemma RunAround(q: seq<Seg>, s: Seg, r: seq<Seg>, i: nat)
    requires i == Before(q, s.pos) && q != [] && StaysInFront(q, s, r, i)
    ensures SackEdges(q, s, r) == (if i < |r| then Edges(RunStart(r, i), RunEnd(r[i].pos, r[i..])) else NoEdges)
  {
    if i > 0 { SameRunStart(q, r, i - 1); }
  }

  function Stored(q: seq<Seg>, s: Seg, edge: int, copyOk: bool): seq<Seg> {
    if copyOk then Insert(q, s, edge) else q
  }

  lemma StoredFront(q: seq<Seg>, s: Seg, edge: int, copyOk: bool)
    requires Sorted(q) && q != [] && !NoCopyInFront(q, s, copyOk)
    ensures var i, r := Before(q, s.pos), Stored(q, s, edge, copyOk);
      && StaysInFront(q, s, r, i)
      && (r == q || (i < |r| && r[i].pos == s.pos))
  {
    var i := Before(q, s.pos);
    BeforeIsFirst(q, s.pos);
    InsertIsInsertedAt(q, s, edge, i);
    InsertedFront(q, s, edge, i);
  }

  /** What is reported is the whole run of queued bytes around where the segment goes. */
  lemma EdgesAreRun(q: seq<Seg>, s: Seg, edge: int, copyOk: bool)
    requires Sorted(q) && q != [] && !NoCopyInFront(q, s, copyOk)
    ensures var i, r := Before(q, s.pos), Stored(q, s, edge, copyOk);
      && i <= |r|
      && SackEdges(q, s, r) == (if i < |r| then Edges(RunStart(r, i), RunEnd(r[i].pos, r[i..])) else NoEdges)
      && (r == q || (i < |r| && r[i].pos == s.pos))
  {
    StoredFront(q, s, edge, copyOk);
    RunAround(q, s, Stored(q, s, edge, copyOk), Before(q, s.pos));
  }

  // ----- what is held stays reported, what is lost does not

  lemma {:induction false} SwallowSplits(s: Seg, rest: seq<Seg>, y: int)
    ensures var r := Swallow(s, rest); r != [] && (Splits(r[1..], y) ==> Splits(rest, y))
    decreases |rest|
  {
    if rest != [] && s.End() >= rest[0].End() {
      SwallowSplits(s.(fin := s.fin || rest[0].fin), rest[1..], y);
    } else if rest != [] {
      assert ([CutAt(s, rest[0].pos)] + rest)[1..] == rest;
    }
  }

  lemma OverlaySplits(s: Seg, rest: seq<Seg>, y: int)
    ensures var r := Overlay(s, rest);
      r != [] && r[0].pos == s.pos && (Splits(r, y) ==> s.pos < y < r[0].Tail() || Splits(rest, y))
  {
    OverlayHead(s, rest);
    SwallowSplits(s, rest, y);
    SplitsOne(s, y);
  }

  lemma SplitsParts(q: seq<Seg>, i: nat, y: int)
    requires i <= |q|
    ensures Splits(q, y) <==> Splits(q[..i], y) || Splits(q[i..], y)
    ensures 0 < i ==> (Splits(q, y) <==> Splits(q[..i - 1], y) || Splits([q[i - 1]], y) || Splits(q[i..], y))
  {
    SplitsConcat(q[..i], q[i..], y);
    assert q[..i] + q[i..] == q;
    if 0 < i {
      SplitsConcat(q[..i - 1], [q[i - 1]], y);
      assert q[..i - 1] + [q[i - 1]] == q[..i];
    }
  }

  lemma SplitsOne(s: Seg, y: int)
    ensures Splits([s], y) <==> s.pos < y < s.Tail()
  {
    assert [s][1..] == [];
  }

  /** Only the stored segment can hold a position strictly inside that no segment did. */
  lemma InsertedSplits(q: seq<Seg>, s: Seg, edge: int, i: nat, y: int)
    requires FirstFrom(q, s.pos, i)
    ensures var r := InsertedAt(q, s, edge, i);
      Splits(r, y) ==> Splits(q, y) || (i < |r| && r[i].pos == s.pos && s.pos < y < r[i].Tail())
  {
    SplitsParts(q, i, y);
    OverlaySplits(s, q[i..], y);
    if i == 0 || (i < |q| && q[i].pos == s.pos) {
      SplitsConcat(q[..i], Overlay(s, q[i..]), y);
      assert q[0..] == q;
    } else {
      var c, u := CutAt(q[i - 1], s.pos), TrimBack(s, edge - s.pos);
      SplitsOne(q[i - 1], y);
      SplitsOne(c, y);
      SplitsOne(u, y);
      SplitsConcat(q[..i - 1], [c] + Overlay(s, q[i..]), y);
      SplitsConcat([c], Overlay(s, q[i..]), y);
      SplitsConcat(q[..i - 1], [c, u], y);
      SplitsConcat([c], [u], y);
      assert [c, u] == [c] + [u];
    }
  }

  lemma SplitsAt(q: seq<Seg>, k: nat, y: int)
    requires k < |q| && q[k].pos < y < q[k].Tail()
    ensures Splits(q, y)
  {
    SplitsParts(q, k + 1, y);
    SplitsOne(q[k], y);
  }

  /** A reported byte P, in a range that starts at y, is still held after a segment was
      stored, if the range has nothing in common with what is reported for the segment. */
  lemma OldStaysHeld(q: seq<Seg>, s: Seg, edge: int, copyOk: bool, peer: seq<Byte>, y: int, P: int)
    requires Good(q, peer) && From(s, peer) && s.pos < s.Tail() && s.pos < edge && Within(q, edge)
    requires q != [] && Covers(q, P) && !Splits(q, y) && y <= P < |peer|
    requires y <= s.pos <= P ==> s.data == []
    ensures Covers(Stored(q, s, edge, copyOk), P)
  {
    InsertHolds(q, s, edge, peer, P);
    if Lost(q, s, P) {
      var k := Before(q, s.pos);
      BeforeIsFirst(q, s.pos);
      if q[k - 1].pos < y { SplitsAt(q, k - 1, y); }
    }
  }

  /** ... and the range still starts at or outside of a segment. */
  lemma OldStaysWhole(q: seq<Seg>, s: Seg, edge: int, copyOk: bool, peer: seq<Byte>, y: int)
    requires Good(q, peer) && From(s, peer) && s.pos < s.Tail() && s.pos < edge && Within(q, edge)
    requires q != [] && !Splits(q, y) && y < |peer|
    requires var i, r := Before(q, s.pos), Stored(q, s, edge, copyOk);
      i < |r| && r[i].pos == s.pos ==> !(s.pos < y < r[i].End())
    ensures !Splits(Stored(q, s, edge, copyOk), y)
  {
    var i, r := Before(q, s.pos), Stored(q, s, edge, copyOk);
    BeforeIsFirst(q, s.pos);
    InsertHolds(q, s, edge, peer, y);
    InsertIsInsertedAt(q, s, edge, i);
    InsertedSplits(q, s, edge, i, y);
    if i < |r| { SuffixFrom(r, peer, i); }
  }

  // ----- the array beside the queue

  function At(isn: int, l: int, r: int): Sack.Range {
    Sack.Range(Wrap(isn + l), Wrap(isn + r))
  }

  /** A segment beyond rcv_nxt was stored, or not: the queue `q` has become `r`. */
  function Recorded(q: seq<Seg>, s: Seg, r: seq<Seg>, sacks: seq<Sack.Range>, isn: int): seq<Sack.Range>
    requires |sacks| == Sack.MAX
  {
    if q == [] then sacks[0 := At(isn, s.pos, s.End())]
    else
      match SackEdges(q, s, r)
      case NoEdges => sacks
      case Edges(a, b) =>
        if SeqLt(Wrap(isn + a), Wrap(isn + b)) then Sack.Added(sacks, Wrap(isn + a), Wrap(isn + b)) else sacks
  }

  /** Data in sequence left the queue `q` behind. */
  function Delivered(q: seq<Seg>, sacks: seq<Sack.Range>, isn: int): seq<Sack.Range>
    requires |sacks| == Sack.MAX
  {
    if q != [] then Sack.RemovedLt(sacks, Wrap(isn + q[0].pos))
    else if sacks[0].Valid() then Sack.Fill([])
    else sacks
  }

  /** The array when a segment has arrived. */
  function Arrived(st: Rcv, s: Seg, copyOk: bool, sacks: seq<Sack.Range>, isn: int): (r: seq<Sack.Range>)
    requires |sacks| == Sack.MAX
    ensures |r| == Sack.MAX
  {
    var t := TrimFront(s, st.nxt);
    if st.nxt <= t.pos < st.Edge() then Accepted(st, t, copyOk, sacks, isn) else sacks
  }

  /** ... that starts within the window. */
  function Accepted(st: Rcv, t: Seg, copyOk: bool, sacks: seq<Sack.Range>, isn: int): (r: seq<Sack.Range>)
    requires |sacks| == Sack.MAX
    ensures |r| == Sack.MAX
  {
    if t.pos == st.nxt then Delivered(InOrder(st, t).queue, sacks, isn)
    else Recorded(st.queue, t, Stored(st.queue, t, st.Edge(), copyOk), sacks, isn)
  }

  /** The byte at position p is reported. */
  ghost predicate Tells(nxt: int, sacks: seq<Sack.Range>, isn: int, p: int) {
    nxt <= p && Sack.Reported(Wrap(isn + nxt), Sack.Prefix(sacks), p - nxt)
  }

  /** Where a range starts. */
  function Start(nxt: int, x: Sack.Range, isn: int): int {
    nxt + Sack.Off(Wrap(isn + nxt), x.left)
  }

  /** The valid entries come first and are disjoint. */
  ghost predicate Orderly(nxt: int, sacks: seq<Sack.Range>, isn: int) {
    && |sacks| == Sack.MAX && Sack.Tidy(Wrap(isn + nxt), Sack.Prefix(sacks))
    && (forall i :: |Sack.Prefix(sacks)| <= i < Sack.MAX ==> !sacks[i].Valid())
  }

  /** The array reports nothing but bytes in the queue; no range starts inside a segment. */
  ghost predicate Truthful(nxt: int, q: seq<Seg>, sacks: seq<Sack.Range>, isn: int, peer: seq<Byte>) {
    && Orderly(nxt, sacks, isn)
    && (forall p :: Tells(nxt, sacks, isn, p) ==> Covers(q, p) && p < |peer|)
    && (forall x :: x in Sack.Prefix(sacks) ==> !Splits(q, Start(nxt, x, isn)))
  }

  // ----- storing

  /** A position as a distance from rcv_nxt. */
  lemma OffAt(nxt: int, isn: int, x: int)
    requires nxt <= x < nxt + TWO_31
    ensures Sack.Off(Wrap(isn + nxt), Wrap(isn + x)) == x - nxt
  {
    WrappedDifference(isn + x, isn + nxt);
  }

  /** What lies behind the valid entries does not matter. */
  lemma Normal(base: U32, sacks: seq<Sack.Range>)
    requires |sacks| == Sack.MAX && Sack.Tidy(base, Sack.Prefix(sacks))
    ensures var t := Sack.Fill(Sack.Prefix(sacks)); Sack.Inv(base, t) && Sack.Prefix(t) == Sack.Prefix(sacks)
  {
    Sack.PrefixShort(sacks);
    Sack.FillTidy(base, Sack.Prefix(sacks), 0);
    assert Sack.Prefix(sacks)[..|Sack.Prefix(sacks)|] == Sack.Prefix(sacks);
  }

  /** The valid entries of an array that satisfies its invariant come first. */
  lemma {:induction false} InvalidBehind(s: seq<Sack.Range>)
    requires s == Sack.Fill(Sack.Prefix(s))
    ensures |s| == Sack.MAX && forall i :: |Sack.Prefix(s)| <= i < Sack.MAX ==> !s[i].Valid()
  {
  }

  /** The range of a run of bytes. */
  lemma RunRange(nxt: int, isn: int, a: int, b: int)
    requires nxt <= a <= b < nxt + TWO_31
    ensures SeqLt(Wrap(isn + a), Wrap(isn + b)) <==> a < b
    ensures a < b ==> Sack.Good(Wrap(isn + nxt), At(isn, a, b))
  {
    WrappedOrder(isn + a, isn + b);
    OffAt(nxt, isn, a);
    OffAt(nxt, isn, b);
  }

  lemma RunCovers(nxt: int, isn: int, a: int, b: int, p: int)
    requires nxt <= a < b < nxt + TWO_31 && nxt <= p
    ensures Sack.Covers(Wrap(isn + nxt), At(isn, a, b), p - nxt) <==> a <= p < b
  {
    OffAt(nxt, isn, a);
    OffAt(nxt, isn, b);
  }

  /** An old range has nothing in common with the new one. */
  lemma ClearOf(nxt: int, isn: int, a: int, b: int, x: Sack.Range, z: int)
    requires nxt <= a < b < nxt + TWO_31 && nxt <= z
    requires Sack.Clear(Wrap(isn + nxt), At(isn, a, b), x) && Sack.Covers(Wrap(isn + nxt), x, z - nxt)
    ensures !(a <= z < b)
  {
    RunCovers(nxt, isn, a, b, z);
  }

  /** The array with the run a..b added. */
  function Adding(sacks: seq<Sack.Range>, isn: int, a: int, b: int): (r: seq<Sack.Range>)
    ensures |r| == Sack.MAX
  {
    Sack.Added(sacks, Wrap(isn + a), Wrap(isn + b))
  }

  lemma AddingOrderly(nxt: int, sacks: seq<Sack.Range>, isn: int, a: int, b: int)
    requires Orderly(nxt, sacks, isn) && nxt <= a < b < nxt + TWO_31
    ensures Orderly(nxt, Adding(sacks, isn, a, b), isn)
  {
    Normal(Wrap(isn + nxt), sacks);
    RunRange(nxt, isn, a, b);
    Sack.AddKeeps(Wrap(isn + nxt), Sack.Fill(Sack.Prefix(sacks)), At(isn, a, b), 0);
    InvalidBehind(Adding(sacks, isn, a, b));
  }

  /** A byte reported after a range was added is in that range, or in an old one that
      starts at `y` and does not hold both it and a byte `z` of the new range. */
  lemma AddedTells(nxt: int, sacks: seq<Sack.Range>, isn: int, a: int, b: int, p: int, z: int)
    returns (y: int, x: Sack.Range)
    requires Orderly(nxt, sacks, isn) && nxt <= a < b < nxt + TWO_31
    requires Tells(nxt, Adding(sacks, isn, a, b), isn, p) && !(a <= p < b)
    ensures x in Sack.Prefix(sacks) && y == Start(nxt, x, isn) && nxt <= y <= p && Tells(nxt, sacks, isn, p)
    ensures y <= z <= p ==> !(a <= z < b)
  {
    Normal(Wrap(isn + nxt), sacks);
    RunRange(nxt, isn, a, b);
    RunCovers(nxt, isn, a, b, p);
    x := Sack.AddedFrom(Wrap(isn + nxt), Sack.Fill(Sack.Prefix(sacks)), At(isn, a, b), p - nxt);
    y := Start(nxt, x, isn);
    if y <= z <= p { ClearOf(nxt, isn, a, b, x, z); }
  }

  /** The valid entries after a range was added: that range, and old ones that do not
      start in it. */
  lemma AddedStarts(nxt: int, sacks: seq<Sack.Range>, isn: int, a: int, b: int, x: Sack.Range)
    requires Orderly(nxt, sacks, isn) && nxt <= a < b < nxt + TWO_31
    requires x in Sack.Prefix(Adding(sacks, isn, a, b))
    ensures Start(nxt, x, isn) == a ||
      (x in Sack.Prefix(sacks) && !(a <= Start(nxt, x, isn) < b) && Tells(nxt, sacks, isn, Start(nxt, x, isn)))
  {
    Normal(Wrap(isn + nxt), sacks);
    RunRange(nxt, isn, a, b);
    Sack.AddedMember(Wrap(isn + nxt), Sack.Fill(Sack.Prefix(sacks)), At(isn, a, b), x);
    if x == At(isn, a, b) {
      OffAt(nxt, isn, a);
    } else {
      ClearOf(nxt, isn, a, b, x, Start(nxt, x, isn));
    }
  }

  lemma {:induction false} RunEndWithin(e: int, q: seq<Seg>, edge: int)
    requires Within(q, edge) && e <= edge
    ensures RunEnd(e, q) <= edge
    decreases |q|
  {
    if q != [] && q[0].pos == e { RunEndWithin(q[0].End(), q[1..], edge); }
  }

  lemma {:induction false} EntryWithin(q: seq<Seg>, edge: int, i: nat)
    requires Within(q, edge) && i <= |q|
    ensures Within(q[i..], edge) && (i < |q| ==> q[i].Tail() <= edge)
  {
    if i > 0 {
      assert q[i..] == q[1..][i - 1..];
      EntryWithin(q[1..], edge, i - 1);
    }
  }

  /** A segment beyond rcv_nxt that the peer may send, and memory for it if it goes first. */
  predicate Storable(st: Rcv, s: Seg, copyOk: bool, peer: seq<Byte>) {
    && Inv(st, peer) && st.wnd <= 0x1_0000 && From(s, peer)
    && s.pos < s.Tail() && st.nxt < s.pos < st.Edge()
    && Within(Stored(st.queue, s, st.Edge(), copyOk), st.Edge())
  }

  /** What is known of the queue `r` and the run a..b around its segment `i`. */
  ghost predicate Ran(st: Rcv, s: Seg, r: seq<Seg>, i: nat, a: int, b: int, peer: seq<Byte>) {
    && i < |r| && st.nxt < a <= r[i].pos && r[i].End() <= b <= Min(|peer|, st.Edge()) && !Splits(r, a)
    && (r == st.queue || r[i].pos == s.pos) && From(r[i], peer) && r[i].pos < r[i].Tail()
  }

  lemma StoreRuns(st: Rcv, s: Seg, copyOk: bool, peer: seq<Byte>)
    requires Storable(st, s, copyOk, peer) && st.queue != [] && !NoCopyInFront(st.queue, s, copyOk)
    ensures var r, i := Stored(st.queue, s, st.Edge(), copyOk), Before(st.queue, s.pos);
      && i <= |r|
      && match SackEdges(st.queue, s, r)
         case NoEdges => r == st.queue
         case Edges(a, b) => Ran(st, s, r, i, a, b, peer) && a == RunStart(r, i) && b == RunEnd(r[i].pos, r[i..])
  {
    var r, i := Stored(st.queue, s, st.Edge(), copyOk), Before(st.queue, s.pos);
    EdgesAreRun(st.queue, s, st.Edge(), copyOk);
    InsertHolds(st.queue, s, st.Edge(), peer, 0);
    if i < |r| {
      RunHeld(r, i, peer, 0);
      SuffixFrom(r, peer, i);
      Ascending(r, i);
      RunStartAbove(r, i, st.nxt);
      EntryWithin(r, st.Edge(), i);
      RunEndWithin(r[i].pos, r[i..], st.Edge());
    }
  }

  /** What is entered for the run. */
  lemma StoreRecords(st: Rcv, s: Seg, copyOk: bool, sacks: seq<Sack.Range>, isn: int, peer: seq<Byte>)
    requires Storable(st, s, copyOk, peer) && st.queue != [] && !NoCopyInFront(st.queue, s, copyOk)
    requires |sacks| == Sack.MAX
    ensures var r := Stored(st.queue, s, st.Edge(), copyOk);
      var e := SackEdges(st.queue, s, r);
      && (e.Edges? ==> st.nxt <= e.left <= e.right < st.nxt + TWO_31)
      && Recorded(st.queue, s, r, sacks, isn) ==
           if e.Edges? && e.left < e.right then Adding(sacks, isn, e.left, e.right) else sacks
  {
    StoreRuns(st, s, copyOk, peer);
    var e := SackEdges(st.queue, s, Stored(st.queue, s, st.Edge(), copyOk));
    if e.Edges? { RunRange(st.nxt, isn, e.left, e.right); }
  }

  lemma {:induction false} RunStartAbove(q: seq<Seg>, j: nat, x: int)
    requires Sorted(q) && j < |q| && x < q[0].pos
    ensures x < RunStart(q, j)
  {
    Ascending(q, j);
    if j > 0 { RunStartAbove(q, j - 1, x); }
  }

  /** A byte that is reported after storing is held. */
  lemma StoreTells(st: Rcv, s: Seg, copyOk: bool, sacks: seq<Sack.Range>, isn: int, peer: seq<Byte>, p: int)
    requires Storable(st, s, copyOk, peer) && st.queue != [] && !NoCopyInFront(st.queue, s, copyOk)
    requires Truthful(st.nxt, st.queue, sacks, isn, peer)
    requires var r := Stored(st.queue, s, st.Edge(), copyOk);
      Tells(st.nxt, Recorded(st.queue, s, r, sacks, isn), isn, p)
    ensures Covers(Stored(st.queue, s, st.Edge(), copyOk), p) && p < |peer|
  {
    var q, r, i := st.queue, Stored(st.queue, s, st.Edge(), copyOk), Before(st.queue, s.pos);
    StoreRuns(st, s, copyOk, peer);
    StoreRecords(st, s, copyOk, sacks, isn, peer);
    var e := SackEdges(q, s, r);
    if e.Edges? {
      if e.left <= p < e.right {
        InsertHolds(q, s, st.Edge(), peer, 0);
        RunHeld(r, i, peer, p);
      } else if r != q {
        var y := OldStart(st, s, copyOk, sacks, isn, peer, p);
        OldStaysHeld(q, s, st.Edge(), copyOk, peer, y, p);
      } else if e.left < e.right {
        var y, x := AddedTells(st.nxt, sacks, isn, e.left, e.right, p, p);
      }
    }
  }

  /** Where the old range starts that reports the byte p. */
  lemma OldStart(st: Rcv, s: Seg, copyOk: bool, sacks: seq<Sack.Range>, isn: int, peer: seq<Byte>, p: int)
    returns (y: int)
    requires Storable(st, s, copyOk, peer) && st.queue != [] && !NoCopyInFront(st.queue, s, copyOk)
    requires Truthful(st.nxt, st.queue, sacks, isn, peer)
    requires var r := Stored(st.queue, s, st.Edge(), copyOk);
      var e := SackEdges(st.queue, s, r);
      && r != st.queue && e.Edges? && !(e.left <= p < e.right)
      && Tells(st.nxt, Recorded(st.queue, s, r, sacks, isn), isn, p)
    ensures Covers(st.queue, p) && p < |peer| && y <= p && !Splits(st.queue, y)
    ensures y <= s.pos <= p ==> s.data == []
  {
    var r := Stored(st.queue, s, st.Edge(), copyOk);
    StoreRuns(st, s, copyOk, peer);
    StoreRecords(st, s, copyOk, sacks, isn, peer);
    var e := SackEdges(st.queue, s, r);
    var x: Sack.Range;
    if e.left < e.right {
      y, x := AddedTells(st.nxt, sacks, isn, e.left, e.right, p, s.pos);
    } else {
      x := Sack.Holder(Wrap(isn + st.nxt), Sack.Prefix(sacks), p - st.nxt);
      y := Start(st.nxt, x, isn);
    }
  }

  /** A range that is there after storing starts at or outside of a segment. */
  lemma StoreStarts(st: Rcv, s: Seg, copyOk: bool, sacks: seq<Sack.Range>, isn: int, peer: seq<Byte>, x: Sack.Range)
    requires Storable(st, s, copyOk, peer) && st.queue != [] && !NoCopyInFront(st.queue, s, copyOk)
    requires Truthful(st.nxt, st.queue, sacks, isn, peer)
    requires x in Sack.Prefix(Recorded(st.queue, s, Stored(st.queue, s, st.Edge(), copyOk), sacks, isn))
    ensures !Splits(Stored(st.queue, s, st.Edge(), copyOk), Start(st.nxt, x, isn))
  {
    var q, r, y := st.queue, Stored(st.queue, s, st.Edge(), copyOk), Start(st.nxt, x, isn);
    StoreRuns(st, s, copyOk, peer);
    StoreRecords(st, s, copyOk, sacks, isn, peer);
    var e := SackEdges(q, s, r);
    if e.Edges? {
      if e.left < e.right {
        AddedStarts(st.nxt, sacks, isn, e.left, e.right, x);
      } else {
        MemberStarts(st.nxt, sacks, isn, x);
      }
      if y != e.left && r != q { OldStaysWhole(q, s, st.Edge(), copyOk, peer, y); }
    }
  }

  lemma MemberStarts(nxt: int, sacks: seq<Sack.Range>, isn: int, x: Sack.Range)
    requires Orderly(nxt, sacks, isn) && x in Sack.Prefix(sacks)
    ensures Tells(nxt, sacks, isn, Start(nxt, x, isn))
  {
    var base := Wrap(isn + nxt);
    Sack.TidyMember(base, Sack.Prefix(sacks), x);
    Sack.MemberTells(base, Sack.Prefix(sacks), x, Sack.Off(base, x.left));
  }

  lemma StoreOrderly(st: Rcv, s: Seg, copyOk: bool, sacks: seq<Sack.Range>, isn: int, peer: seq<Byte>)
    requires Storable(st, s, copyOk, peer) && st.queue != [] && !NoCopyInFront(st.queue, s, copyOk)
    requires Orderly(st.nxt, sacks, isn)
    ensures Orderly(st.nxt, Recorded(st.queue, s, Stored(st.queue, s, st.Edge(), copyOk), sacks, isn), isn)
  {
    StoreRecords(st, s, copyOk, sacks, isn, peer);
    var e := SackEdges(st.queue, s, Stored(st.queue, s, st.Edge(), copyOk));
    if e.Edges? && e.left < e.right { AddingOrderly(st.nxt, sacks, isn, e.left, e.right); }
  }

  lemma StoreTruthful(st: Rcv, s: Seg, copyOk: bool, sacks: seq<Sack.Range>, isn: int, peer: seq<Byte>)
    requires Storable(st, s, copyOk, peer) && st.queue != [] && !NoCopyInFront(st.queue, s, copyOk)
    requires Truthful(st.nxt, st.queue, sacks, isn, peer)
    ensures var r := Stored(st.queue, s, st.Edge(), copyOk);
      Truthful(st.nxt, r, Recorded(st.queue, s, r, sacks, isn), isn, peer)
  {
    var r := Stored(st.queue, s, st.Edge(), copyOk);
    var t := Recorded(st.queue, s, r, sacks, isn);
    StoreOrderly(st, s, copyOk, sacks, isn, peer);
    forall p | Tells(st.nxt, t, isn, p) ensures Covers(r, p) && p < |peer| {
      StoreTells(st, s, copyOk, sacks, isn, peer, p);
    }
    forall x | x in Sack.Prefix(t) ensures !Splits(r, Start(st.nxt, x, isn)) {
      StoreStarts(st, s, copyOk, sacks, isn, peer, x);
    }
  }

  /** The first segment queued. */
  lemma NothingTold(nxt: int, sacks: seq<Sack.Range>, isn: int, peer: seq<Byte>)
    requires Truthful(nxt, [], sacks, isn, peer)
    ensures Sack.Prefix(sacks) == []
  {
    if Sack.Prefix(sacks) != [] {
      MemberStarts(nxt, sacks, isn, Sack.Prefix(sacks)[0]);
      assert false;
    }
  }

  /** An array with one entry at most. */
  lemma OneEntry(nxt: int, sacks: seq<Sack.Range>, isn: int, a: int, b: int)
    requires |sacks| == Sack.MAX && Sack.Prefix(sacks) == [] && nxt <= a <= b < nxt + TWO_31
    requires forall i :: 0 <= i < Sack.MAX ==> !sacks[i].Valid()
    ensures var t := sacks[0 := At(isn, a, b)];
      && Orderly(nxt, t, isn) && Sack.Prefix(t) == if a < b then [At(isn, a, b)] else []
  {
    var t := sacks[0 := At(isn, a, b)];
    RunRange(nxt, isn, a, b);
    WrappedOrder(isn + a, isn + b);
    Sack.PrefixIs(t, if a < b then 1 else 0);
    assert t[..1] == [At(isn, a, b)] && t[..0] == [];
    assert [At(isn, a, b)][1..] == [];
  }

  lemma FirstTruthful(st: Rcv, s: Seg, copyOk: bool, sacks: seq<Sack.Range>, isn: int, peer: seq<Byte>)
    requires Storable(st, s, copyOk, peer) && st.queue == [] && !NoCopyInFront(st.queue, s, copyOk)
    requires Truthful(st.nxt, st.queue, sacks, isn, peer) && |s.data| < 0x1_0000
    ensures var r := Stored(st.queue, s, st.Edge(), copyOk);
      Truthful(st.nxt, r, Recorded(st.queue, s, r, sacks, isn), isn, peer)
  {
    var n, a, b := st.nxt, s.pos, s.End();
    var r := Stored(st.queue, s, st.Edge(), copyOk);
    var t := Recorded(st.queue, s, r, sacks, isn);
    NothingTold(n, sacks, isn, peer);
    OneEntry(n, sacks, isn, a, b);
    forall p | Tells(n, t, isn, p) ensures Covers(r, p) && p < |peer| {
      RunCovers(n, isn, a, b, p);
    }
    forall x | x in Sack.Prefix(t) ensures !Splits(r, Start(n, x, isn)) {
      OffAt(n, isn, a);
      SplitsOne(s, a);
    }
  }

  /** Without memory, a segment in front of everything queued is reported all the same. */
  lemma NoCopyIsTold(st: Rcv, s: Seg, sacks: seq<Sack.Range>, isn: int, peer: seq<Byte>)
    requires Storable(st, s, false, peer) && NoCopyInFront(st.queue, s, false) && |s.data| < 0x1_0000
    requires Truthful(st.nxt, st.queue, sacks, isn, peer)
    ensures Tells(st.nxt, Recorded(st.queue, s, st.queue, sacks, isn), isn, s.pos) && !Covers(st.queue, s.pos)
  {
    var n, base := st.nxt, Wrap(isn + st.nxt);
    if st.queue == [] {
      NothingTold(n, sacks, isn, peer);
      OneEntry(n, sacks, isn, s.pos, s.End());
      RunCovers(n, isn, s.pos, s.End(), s.pos);
    } else {
      var q := st.queue;
      if Covers(q, s.pos) { CoversFrom(q, s.pos); }
      var b := RunEnd(q[0].pos, q);
      RunEndHeld(q[0].pos, q, peer, 0);
      EntryWithin(q, st.Edge(), 0);
      RunEndWithin(q[0].pos, q, st.Edge());
      assert q[0..] == q && SackEdges(q, s, q) == Edges(s.pos, b);
      RunRange(n, isn, s.pos, b);
      RunCovers(n, isn, s.pos, b, s.pos);
      Normal(base, sacks);
      Sack.AddKeeps(base, Sack.Fill(Sack.Prefix(sacks)), At(isn, s.pos, b), s.pos - n);
    }
  }

  /** Storing keeps the array truthful, exactly unless there is no memory for a segment in
      front of everything queued: its bytes are reported although they are dropped. */
  lemma StoreTruthfulIff(st: Rcv, s: Seg, copyOk: bool, sacks: seq<Sack.Range>, isn: int, peer: seq<Byte>)
    requires Storable(st, s, copyOk, peer) && |s.data| < 0x1_0000
    requires Truthful(st.nxt, st.queue, sacks, isn, peer)
    ensures var r := Stored(st.queue, s, st.Edge(), copyOk);
      Truthful(st.nxt, r, Recorded(st.queue, s, r, sacks, isn), isn, peer) <==> !NoCopyInFront(st.queue, s, copyOk)
  {
    if NoCopyInFront(st.queue, s, copyOk) {
      NoCopyIsTold(st, s, sacks, isn, peer);
    } else if st.queue == [] {
      FirstTruthful(st, s, copyOk, sacks, isn, peer);
    } else {
      StoreTruthful(st, s, copyOk, sacks, isn, peer);
    }
  }

  // ----- delivering

  /** What is left of the queue when the bytes up to `n` are delivered. */
  predicate LeftOf(q: seq<Seg>, n: int, rest: seq<Seg>, p: int) {
    && (Covers(rest, p) <==> n < p && Covers(q, p))
    && |rest| <= |q| && rest == q[|q| - |rest|..]
  }

  lemma SuffixSplits(q: seq<Seg>, rest: seq<Seg>, y: int)
    requires |rest| <= |q| && rest == q[|q| - |rest|..] && Splits(rest, y)
    ensures Splits(q, y)
  {
    SplitsParts(q, |q| - |rest|, y);
  }

  lemma InOrderLeaves(st: Rcv, t: Seg, peer: seq<Byte>, p: int)
    requires Inv(st, peer) && From(t, peer) && t.pos == st.nxt < t.Tail() && 0 < st.wnd
    ensures var r := InOrder(st, t);
      && Inv(r, peer) && st.nxt < r.nxt && r.Edge() == st.Edge() && LeftOf(st.queue, r.nxt, r.queue, p)
      && (r.queue != [] ==> r.nxt < r.queue[0].pos < st.Edge())
  {
    var e := TrimBack(t, st.wnd).Tail();
    InOrderKeeps(st, t, peer);
    ReachLeaves(e, st.queue, p);
    ReachIsMaximal(e, st.queue, p);
  }

  /** A byte that is reported after removing was reported and is not removed. */
  lemma RemovedTells(nxt: int, n: int, x: int, sacks: seq<Sack.Range>, isn: int, p: int)
    requires Orderly(nxt, sacks, isn) && nxt <= n <= x < nxt + TWO_31
    ensures Orderly(n, Sack.RemovedLt(sacks, Wrap(isn + x)), isn)
    ensures Tells(n, Sack.RemovedLt(sacks, Wrap(isn + x)), isn, p) ==> Tells(nxt, sacks, isn, p) && x <= p
  {
    var base, t := Wrap(isn + nxt), Sack.Fill(Sack.Prefix(sacks));
    Normal(base, sacks);
    OffAt(nxt, isn, n);
    OffAt(nxt, isn, x);
    Sack.RemoveKeeps(base, t, Wrap(isn + x), Wrap(isn + n), if n <= p then p - n else 0);
    InvalidBehind(Sack.RemovedLt(sacks, Wrap(isn + x)));
  }

  lemma RemovedStarts(nxt: int, n: int, x: int, sacks: seq<Sack.Range>, isn: int, z: Sack.Range) returns (y: Sack.Range)
    requires Orderly(nxt, sacks, isn) && nxt <= n <= x < nxt + TWO_31
    requires z in Sack.Prefix(Sack.RemovedLt(sacks, Wrap(isn + x)))
    ensures Start(n, z, isn) == x || (y in Sack.Prefix(sacks) && Start(n, z, isn) == Start(nxt, y, isn))
  {
    var base := Wrap(isn + nxt);
    Normal(base, sacks);
    OffAt(nxt, isn, n);
    OffAt(nxt, isn, x);
    y := Sack.RemovedMember(base, Sack.Fill(Sack.Prefix(sacks)), Wrap(isn + x), z);
    Sack.OffMoved(base, Wrap(isn + n), z.left);
  }

  /** Delivering keeps the array truthful. */
  lemma DeliverTruthful(st: Rcv, t: Seg, sacks: seq<Sack.Range>, isn: int, peer: seq<Byte>)
    requires Inv(st, peer) && From(t, peer) && t.pos == st.nxt < t.Tail() && 0 < st.wnd <= 0x1_0000
    requires Truthful(st.nxt, st.queue, sacks, isn, peer)
    ensures var r := InOrder(st, t); Truthful(r.nxt, r.queue, Delivered(r.queue, sacks, isn), isn, peer)
  {
    var r := InOrder(st, t);
    InOrderLeaves(st, t, peer, 0);
    if r.queue == [] {
      Sack.PrefixIs(Sack.Fill([]), 0);
    } else {
      RemoveTruthful(st, r, sacks, isn, peer, t);
    }
  }

  lemma RemoveTruthful(st: Rcv, r: Rcv, sacks: seq<Sack.Range>, isn: int, peer: seq<Byte>, t: Seg)
    requires Inv(st, peer) && From(t, peer) && t.pos == st.nxt < t.Tail() && 0 < st.wnd <= 0x1_0000
    requires Truthful(st.nxt, st.queue, sacks, isn, peer) && r == InOrder(st, t) && r.queue != []
    ensures Truthful(r.nxt, r.queue, Delivered(r.queue, sacks, isn), isn, peer)
  {
    var x, d := r.queue[0].pos, Delivered(r.queue, sacks, isn);
    InOrderLeaves(st, t, peer, 0);
    RemovedTells(st.nxt, r.nxt, x, sacks, isn, 0);
    forall p | Tells(r.nxt, d, isn, p) ensures Covers(r.queue, p) && p < |peer| {
      RemovedTells(st.nxt, r.nxt, x, sacks, isn, p);
      InOrderLeaves(st, t, peer, p);
    }
    forall z | z in Sack.Prefix(d) ensures !Splits(r.queue, Start(r.nxt, z, isn)) {
      var y := RemovedStarts(st.nxt, r.nxt, x, sacks, isn, z);
      StartSplitsNothing(r.queue, 0);
      if Splits(r.queue, Start(r.nxt, z, isn)) { SuffixSplits(st.queue, r.queue, Start(r.nxt, z, isn)); }
    }
  }

  // ----- runs

  /** The array beside a connection: only segments with text change it, and giving up the
      queue, which clears it. */
  function Step(c: Delivery.Conn, ev: Delivery.Event, sacks: seq<Sack.Range>, isn: int): (r: seq<Sack.Range>)
    requires |sacks| == Sack.MAX
    ensures |r| == Sack.MAX
  {
    match ev
    case Segment(s, copyOk, retryOk, _) =>
      var d := Delivery.Retry(c, retryOk);
      if d.refused.Held? || s.pos == s.Tail() || !d.rxOpen then sacks else Arrived(d.rcv, s, copyOk, sacks, isn)
    case Reclaimed => if c.rcv.queue != [] then Sack.Fill([]) else sacks
    case _ => sacks
  }

  /** There is memory for a segment that goes in front of everything queued. */
  predicate Legal(c: Delivery.Conn, ev: Delivery.Event) {
    ev.Segment? ==> |ev.s.data| < 0x1_0000 && !NoCopyInFront(c.rcv.queue, TrimFront(ev.s, c.rcv.nxt), ev.copyOk)
  }

  ghost predicate ConnTruthful(c: Delivery.Conn, sacks: seq<Sack.Range>, isn: int, peer: seq<Byte>) {
    Truthful(c.rcv.nxt, c.rcv.queue, sacks, isn, peer)
  }

  /** An arrival in terms of the two cases. */
  lemma ArrivedTruthful(st: Rcv, s: Seg, copyOk: bool, sacks: seq<Sack.Range>, isn: int, peer: seq<Byte>)
    requires Inv(st, peer) && st.wnd <= 0x1_0000 && From(s, peer) && s.pos < s.Tail() && |s.data| < 0x1_0000
    requires !StoredUntrimmed(st, s) && !NoCopyInFront(st.queue, TrimFront(s, st.nxt), copyOk)
    requires Truthful(st.nxt, st.queue, sacks, isn, peer)
    ensures var r := Arrive(st, s, copyOk); Truthful(r.nxt, r.queue, Arrived(st, s, copyOk, sacks, isn), isn, peer)
  {
    var t := TrimFront(s, st.nxt);
    if st.nxt <= t.pos < st.Edge() {
      ArriveKeepsInv(st, s, copyOk, peer);
      if t.pos == st.nxt {
        DeliverTruthful(st, t, sacks, isn, peer);
      } else {
        StoreTruthfulIff(st, t, copyOk, sacks, isn, peer);
      }
    }
  }

  lemma RetryMoves(c: Delivery.Conn, retryOk: bool, peer: seq<Byte>)
    requires Delivery.ConnInv(c, peer)
    ensures var d := Delivery.Retry(c, retryOk);
      && Delivery.ConnInv(d, peer) && d.rcv.nxt == c.rcv.nxt && d.rcv.queue == c.rcv.queue
      && (d.rxOpen ==> d.rcv == c.rcv)
  {
    Delivery.RetryKeeps(c, retryOk, peer);
  }

  /** What a segment does to rcv_nxt and the queue. */
  lemma InputMoves(c: Delivery.Conn, s: Seg, copyOk: bool, retryOk: bool, acceptOk: bool, peer: seq<Byte>)
    requires Delivery.ConnInv(c, peer) && From(s, peer) && !StoredUntrimmed(c.rcv, s)
    ensures var d, e := Delivery.Retry(c, retryOk), Delivery.Input(c, s, copyOk, retryOk, acceptOk, peer);
      && Delivery.ConnInv(d, peer) && d.rcv.nxt == c.rcv.nxt && d.rcv.queue == c.rcv.queue
      && (d.rxOpen ==> d.rcv == c.rcv)
      && (d.refused.Held? || s.pos == s.Tail() || !d.rxOpen ==> e.rcv.nxt == c.rcv.nxt && e.rcv.queue == c.rcv.queue)
      && (!d.refused.Held? && s.pos < s.Tail() && d.rxOpen ==>
            e.rcv.nxt == Arrive(c.rcv, s, copyOk).nxt && e.rcv.queue == Arrive(c.rcv, s, copyOk).queue)
  {
    var d := Delivery.Retry(c, retryOk);
    RetryMoves(c, retryOk, peer);
    if !d.refused.Held? && s.pos < s.Tail() && d.rxOpen { Delivery.ReceiveArrives(d, s, copyOk, peer); }
  }

  lemma StepTruthful(c: Delivery.Conn, ev: Delivery.Event, sacks: seq<Sack.Range>, isn: int, peer: seq<Byte>)
    requires Delivery.ConnInv(c, peer) && Delivery.Legal(c, ev, peer) && Legal(c, ev)
    requires ConnTruthful(c, sacks, isn, peer)
    ensures ConnTruthful(Delivery.Step(c, ev, peer), Step(c, ev, sacks, isn), isn, peer)
  {
    match ev
    case Segment(s, copyOk, retryOk, acceptOk) =>
      InputMoves(c, s, copyOk, retryOk, acceptOk, peer);
      Delivery.AcceptedIsReceived(c, peer);
      var d := Delivery.Retry(c, retryOk);
      if !d.refused.Held? && s.pos < s.Tail() && d.rxOpen {
        ArrivedTruthful(c.rcv, s, copyOk, sacks, isn, peer);
      }
    case Poll(acceptOk) => Delivery.RetryKeeps(c, acceptOk, peer);
    case Reclaimed => Sack.PrefixIs(Sack.Fill([]), 0);
    case _ =>
  }

  /** A run of a connection, and the array beside every state. */
  ghost predicate Run(cs: seq<Delivery.Conn>, sacks: seq<seq<Sack.Range>>, evs: seq<Delivery.Event>, isn: int,
                      peer: seq<Byte>) {
    && Delivery.Run(cs, evs, peer) && |sacks| == |cs| && sacks[0] == Sack.Fill([])
    && forall i {:trigger evs[i]} :: 0 <= i < |evs| ==> Next(cs[i], evs[i], sacks[i], sacks[i + 1], isn)
  }

  predicate Next(c: Delivery.Conn, ev: Delivery.Event, s: seq<Sack.Range>, t: seq<Sack.Range>, isn: int) {
    |s| == Sack.MAX && Legal(c, ev) && t == Step(c, ev, s, isn)
  }

  /** In every state of every run, whatever arrives in whatever order, is repeated, cut off
      or given up: what is selectively acknowledged is held in the queue, and the valid
      entries come first and are disjoint. */
  lemma {:induction false} RunTruthful(cs: seq<Delivery.Conn>, sacks: seq<seq<Sack.Range>>,
                                       evs: seq<Delivery.Event>, isn: int,
                                       peer: seq<Byte>, i: nat)
    requires Run(cs, sacks, evs, isn, peer) && i < |cs|
    ensures ConnTruthful(cs[i], sacks[i], isn, peer)
  {
    if i == 0 {
      Sack.PrefixIs(Sack.Fill([]), 0);
    } else {
      RunTruthful(cs, sacks, evs, isn, peer, i - 1);
      Delivery.RunInv(cs, evs, peer, i - 1);
      assert Delivery.Next(cs[i - 1], evs[i - 1], cs[i - 1 + 1], peer);
      assert Next(cs[i - 1], evs[i - 1], sacks[i - 1], sacks[i - 1 + 1], isn);
      StepTruthful(cs[i - 1], evs[i - 1], sacks[i - 1], isn, peer);
    }
  }
}
