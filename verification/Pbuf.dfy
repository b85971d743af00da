/** pbuf.c: packet buffers, chained by pointers.  Each knows its own length, the length of
    the chain from it on (in 16 bits), and how many pointers refer to it.  What a chain
    means is the flat sequence of its bytes; every operation is shown to be what it is on
    those. */
module PbufChain {
  import opened SeqNum

  type Bytes = seq<Byte>

  /** (u16_t)n */
  function Low16(n: int): (r: int)
    ensures 0 <= n < 0x1_0000 ==> r == n
  {
    n % 0x1_0000
  }

  class Pbuf {
    /** The memory from the payload pointer on. */
    const payload: array<Byte>
    var next: Pbuf?
    var len: nat
    var totLen: int
    var ref: nat

    /** pbuf_init_alloced_pbuf. */
    constructor (size: nat, totLen: int, len: nat)
      ensures fresh(payload) && payload.Length == size
      ensures next == null && this.len == len && this.totLen == totLen && ref == 1
    {
      payload := new Byte[size];
      next, this.len, this.totLen, ref := null, len, totLen, 1;
    }
  }

  // ----- chains

  /** The k-th pbuf, or none behind the last. */
  function At(c: seq<Pbuf>, k: nat): Pbuf? {
    if k < |c| then c[k] else null
  }

  /** The pbufs c are chained in this order, and share no memory. */
  ghost predicate Linked(c: seq<Pbuf>)
    reads c`next
  {
    && (forall i {:trigger c[i].next} :: 0 <= i < |c| ==> c[i].next == At(c, i + 1))
    && (forall i, j :: 0 <= i < j < |c| ==> c[i] != c[j] && c[i].payload != c[j].payload)
  }

  ghost function Arrays(c: seq<Pbuf>): set<object> {
    set p | p in c :: p.payload
  }

  /** The pbuf holds the bytes f[from..to]. */
  ghost predicate Piece(p: Pbuf, from: int, to: int, f: Bytes)
    reads p`len, p.payload
  {
    && 0 <= from <= to <= |f| && p.len == to - from <= p.payload.Length
    && p.payload[..p.len] == f[from..to]
  }

  ghost predicate PieceAt(p: Pbuf, at: seq<int>, i: nat, f: Bytes)
    requires i + 1 < |at|
    reads p`len, p.payload
  {
    Piece(p, at[i], at[i + 1], f)
  }

  /** Places in ascending order, from 0 to n. */
  ghost predicate Cuts(at: seq<int>, n: int) {
    && at != [] && at[0] == 0 && at[|at| - 1] == n
    && (forall i, j :: 0 <= i <= j < |at| ==> at[i] <= at[j])
  }

  /** The chain holds the bytes f, cut at the places `at`. */
  ghost predicate Holds(c: seq<Pbuf>, at: seq<int>, f: Bytes)
    reads c`len, Arrays(c)
  {
    && |at| == |c| + 1 && Cuts(at, |f|)
    && (forall i {:trigger PieceAt(c[i], at, i, f)} :: 0 <= i < |c| ==> PieceAt(c[i], at, i, f))
  }

  /** The same while f is being overwritten: the pbufs before k hold g already. */
  ghost predicate Mixed(c: seq<Pbuf>, at: seq<int>, f: Bytes, g: Bytes, k: nat)
    reads c`len, Arrays(c)
  {
    && |at| == |c| + 1 && Cuts(at, |f|) && |g| == |f| && k <= |c|
    && (forall i {:trigger PieceAt(c[i], at, i, g)} :: 0 <= i < k ==> PieceAt(c[i], at, i, g))
    && (forall i {:trigger PieceAt(c[i], at, i, f)} :: k <= i < |c| ==> PieceAt(c[i], at, i, f))
  }

  /** Every tot_len is the number of bytes from there on, in 16 bits. */
  ghost predicate Totals(c: seq<Pbuf>, at: seq<int>, f: Bytes)
    requires |at| == |c| + 1
    reads c`totLen
  {
    forall i {:trigger at[i]} :: 0 <= i < |c| ==> c[i].totLen == Low16(|f| - at[i])
  }

  // ----- reading

  /** At most len bytes from offset on. */
  function Slice(f: Bytes, offset: nat, len: nat): Bytes {
    if offset >= |f| then [] else f[offset..Min(offset + len, |f|)]
  }

  /** They are as many as there are, up to len, and stand where they stood. */
  lemma SliceIs(f: Bytes, offset: nat, len: nat, i: nat)
    ensures |Slice(f, offset, len)| == Max(Min(len, |f| - offset), 0)
    ensures i < |Slice(f, offset, len)| ==> Slice(f, offset, len)[i] == f[offset + i]
  {
  }

  /** pbuf_copy_partial: the slice of the flat bytes. */
  method CopyPartial(buf: Pbuf?, len0: nat, offset0: nat, ghost c: seq<Pbuf>, ghost at: seq<int>, ghost f: Bytes)
    returns (data: Bytes)
    requires Linked(c) && Holds(c, at, f) && buf == At(c, 0)
    ensures data == Slice(f, offset0, len0)
  {
    ghost var k: nat := 0;
    var p := buf;
    var len: nat, offset: nat := len0, offset0;
    data := [];
    while len != 0 && p != null
      invariant Linked(c) && Holds(c, at, f)
      invariant k <= |c| && p == At(c, k) && |data| + len == len0
      invariant len != 0 ==> at[k] + offset == offset0 + |data|
      invariant if offset0 + |data| <= |f| then data == f[offset0..offset0 + |data|] else data == []
      decreases |c| - k
    {
      PieceIs(c, at, f, k);
      if offset != 0 && offset >= p.len {
        offset := offset - p.len;
      } else {
        var n := if p.len - offset > len then len else p.len - offset;
        var piece := p.payload[offset..offset + n];
        CopyOne(p, at[k], at[k + 1], f, offset, n, offset0, data, piece);
        data, len, offset := data + piece, len - n, 0;
      }
      p, k := p.next, k + 1;
    }
  }

  lemma PieceIs(c: seq<Pbuf>, at: seq<int>, f: Bytes, k: nat)
    requires Holds(c, at, f) && k < |c|
    ensures Piece(c[k], at[k], at[k + 1], f)
  {
    var holds := PieceAt(c[k], at, k, f);
    assert holds;
  }

  lemma HeadPiece(p: Pbuf, from: nat, to: nat, f: Bytes, n: nat)
    requires Piece(p, from, to, f) && n <= to - from
    ensures p.payload[..n] == f[from..from + n]
  {
    SubPiece(p, from, to, f, 0, n);
    assert p.payload[..n] == p.payload[0..n];
  }

  lemma CopyOne(p: Pbuf, from: nat, to: nat, f: Bytes, offset: nat, n: nat, offset0: nat, data: Bytes, piece: Bytes)
    requires Piece(p, from, to, f) && offset + n <= to - from && piece == p.payload[offset..offset + n]
    requires from + offset == offset0 + |data| <= |f| && data == f[offset0..offset0 + |data|]
    ensures data + piece == f[offset0..offset0 + |data| + n]
  {
    SubPiece(p, from, to, f, offset, n);
    Joined(f, offset0, offset0 + |data|, offset0 + |data| + n);
  }

  lemma Joined(f: Bytes, x: nat, y: nat, z: nat)
    requires x <= y <= z
    ensures z <= |f| ==> f[x..y] + f[y..z] == f[x..z]
  {
  }

  lemma SubPiece(p: Pbuf, from: nat, to: nat, f: Bytes, offset: nat, n: nat)
    requires Piece(p, from, to, f) && offset + n <= to - from
    ensures p.payload[offset..offset + n] == f[from + offset..from + offset + n]
  {
    var x, y := p.payload[offset..offset + n], f[from + offset..from + offset + n];
    forall j | 0 <= j < n ensures x[j] == y[j] {
      assert p.payload[..p.len][offset + j] == f[from..to][offset + j];
    }
  }

  // ----- writing

  /** The bytes f with data written at offset. */
  function Written(f: Bytes, offset: nat, data: Bytes): (r: Bytes)
    requires offset + |data| <= |f|
    ensures |r| == |f|
  {
    f[..offset] + data + f[offset + |data|..]
  }

  lemma WrittenIs(f: Bytes, offset: nat, data: Bytes, i: nat)
    requires offset + |data| <= |f| && i < |f|
    ensures Written(f, offset, data)[i] == if offset <= i < offset + |data| then data[i - offset] else f[i]
  {
  }

  /** MEMCPY into the k-th pbuf, which then holds what it holds of g. */
  method WritePiece(p: Pbuf, offset: nat, data: Bytes, ghost c: seq<Pbuf>, ghost at: seq<int>, ghost f: Bytes,
                    ghost g: Bytes, ghost k: nat)
    requires Linked(c) && Mixed(c, at, f, g, k) && k < |c| && p == c[k] && offset + |data| <= p.len
    requires Piece(p, at[k], at[k + 1], f) && g[at[k]..at[k + 1]] == Written(f[at[k]..at[k + 1]], offset, data)
    modifies p.payload
    ensures Linked(c) && Mixed(c, at, f, g, k + 1)
  {
    forall j | 0 <= j < |data| { p.payload[offset + j] := data[j]; }
    assert p.payload[..p.len] == Written(f[at[k]..at[k + 1]], offset, data);
    assert PieceAt(c[k], at, k, g);
    forall i | 0 <= i < k ensures PieceAt(c[i], at, i, g) {
      assert old(PieceAt(c[i], at, i, g)) && c[i].payload != c[k].payload;
    }
    forall i | k < i < |c| ensures PieceAt(c[i], at, i, f) {
      assert old(PieceAt(c[i], at, i, f)) && c[k].payload != c[i].payload;
    }
  }

  lemma MixedIs(c: seq<Pbuf>, at: seq<int>, f: Bytes, g: Bytes, k: nat)
    requires Mixed(c, at, f, g, k) && k < |c|
    ensures Piece(c[k], at[k], at[k + 1], f)
  {
    var holds := PieceAt(c[k], at, k, f);
    assert holds;
  }

  /** g is f, overwritten with data from place x on. */
  predicate Overwrites(f: Bytes, g: Bytes, x: nat, data: Bytes) {
    && |g| == |f| && x + |data| <= |f|
    && g[x..x + |data|] == data && g[x + |data|..] == f[x + |data|..]
  }

  lemma OverwritesAt(f: Bytes, g: Bytes, x: nat, data: Bytes, j: nat)
    requires Overwrites(f, g, x, data) && x <= j < |f|
    ensures g[j] == if j < x + |data| then data[j - x] else f[j]
  {
    var e := x + |data|;
    if j < e { assert g[j] == g[x..e][j - x]; } else { assert g[j] == g[e..][j - e] && f[j] == f[e..][j - e]; }
  }

  /** The first n bytes of data fill the piece from x to y, or all of it what there is. */
  lemma OverwritesPiece(f: Bytes, g: Bytes, x: nat, y: nat, data: Bytes, n: nat)
    requires Overwrites(f, g, x, data) && x <= y <= |f| && n == Min(y - x, |data|)
    ensures g[x..y] == Written(f[x..y], 0, data[..n])
    ensures |data| > n ==> Overwrites(f, g, y, data[n..])
    ensures |data| == n ==> g[y..] == f[y..]
  {
    forall j | x <= j < |f| ensures g[j] == if j < x + |data| then data[j - x] else f[j] {
      OverwritesAt(f, g, x, data, j);
    }
    var w := Written(f[x..y], 0, data[..n]);
    forall j | 0 <= j < y - x ensures g[x..y][j] == w[j] {
      assert g[x..y][j] == g[x + j] && f[x..y][j] == f[x + j];
      assert j < n ==> data[..n][j] == data[j];
    }
    assert |g[x..y]| == |w| == y - x;
  }

  /** The loop of pbuf_take, from the k-th pbuf on. */
  method TakeFrom(buf: Pbuf?, data: Bytes, ghost c: seq<Pbuf>, ghost at: seq<int>, ghost f: Bytes, ghost g: Bytes,
                  ghost k0: nat)
    requires Linked(c) && Mixed(c, at, f, g, k0) && buf == At(c, k0) && Overwrites(f, g, at[k0], data)
    modifies Arrays(c)
    ensures Linked(c) && Holds(c, at, g)
  {
    ghost var k := k0;
    var p, rest := buf, data;
    while rest != []
      invariant k <= |c| && p == At(c, k) && Linked(c) && Mixed(c, at, f, g, k)
      invariant if rest == [] then g[at[k]..] == f[at[k]..] else Overwrites(f, g, at[k], rest)
      decreases |c| - k
    {
      MixedIs(c, at, f, g, k);
      var n := if |rest| > p.len then p.len else |rest|;
      OverwritesPiece(f, g, at[k], at[k + 1], rest, n);
      WritePiece(p, 0, rest[..n], c, at, f, g, k);
      rest, p, k := rest[n..], p.next, k + 1;
    }
    MixedHolds(c, at, f, g, k);
  }

  lemma MixedHolds(c: seq<Pbuf>, at: seq<int>, f: Bytes, g: Bytes, k: nat)
    requires Mixed(c, at, f, g, k) && g[at[k]..] == f[at[k]..]
    ensures Holds(c, at, g)
  {
    forall i | 0 <= i < |c| ensures PieceAt(c[i], at, i, g) {
      if i < k {
        var holds := PieceAt(c[i], at, i, g);
        assert holds;
      } else {
        var holds := PieceAt(c[i], at, i, f);
        assert holds;
        assert g[at[i]..at[i + 1]] == g[at[k]..][at[i] - at[k]..at[i + 1] - at[k]];
        assert f[at[i]..at[i + 1]] == f[at[k]..][at[i] - at[k]..at[i + 1] - at[k]];
      }
    }
  }

  /** pbuf_take: the chain starts with the data, exactly if they fit; otherwise nothing is
      written. */
  method Take(buf: Pbuf?, data: Bytes, ghost c: seq<Pbuf>, ghost at: seq<int>, ghost f: Bytes) returns (ok: bool)
    requires Linked(c) && Holds(c, at, f) && Totals(c, at, f) && buf == At(c, 0) && |f| < 0x1_0000
    modifies Arrays(c)
    ensures ok <==> c != [] && |data| <= |f|
    ensures Linked(c) && Holds(c, at, if ok then Written(f, 0, data) else f)
  {
    if buf == null { return false; }
    assert buf.totLen == Low16(|f| - at[0]);
    if buf.totLen < |data| { return false; }
    ghost var g := Written(f, 0, data);
    assert f[..0] + data + f[|data|..] == g && g[0..|data|] == data;
    assert g[at[0]..] == g && f[at[0]..] == f;
    TakeFrom(buf, data, c, at, f, g, 0);
    ok := true;
  }

  /** pbuf_skip: the pbuf in which `offset` lies. */
  method Skip(buf: Pbuf?, offset: nat, ghost c: seq<Pbuf>, ghost at: seq<int>, ghost f: Bytes)
    returns (q: Pbuf?, out: nat, ghost k: nat)
    requires Linked(c) && Holds(c, at, f) && buf == At(c, 0)
    ensures k <= |c| && q == At(c, k) && at[k] + out == offset
    ensures k < |c| ==> offset < at[k + 1]
  {
    q, out, k := buf, offset, 0;
    while q != null && q.len <= out
      invariant Linked(c) && Holds(c, at, f)
      invariant k <= |c| && q == At(c, k) && at[k] + out == offset
      decreases |c| - k
    {
      PieceIs(c, at, f, k);
      out, q, k := out - q.len, q.next, k + 1;
    }
    if q != null { PieceIs(c, at, f, k); }
  }

  /** pbuf_take_at: the bytes are spliced in, exactly if the offset lies inside the chain
      and they fit behind it; otherwise nothing is written. */
  method TakeAt(buf: Pbuf?, data: Bytes, offset: nat, ghost c: seq<Pbuf>, ghost at: seq<int>, ghost f: Bytes)
    returns (ok: bool)
    requires Linked(c) && Holds(c, at, f) && Totals(c, at, f) && buf == At(c, 0) && |f| < 0x1_0000
    modifies Arrays(c)
    ensures ok <==> offset < |f| && offset + |data| <= |f|
    ensures Linked(c) && Holds(c, at, if ok then Written(f, offset, data) else f)
  {
    ghost var k: nat;
    var q: Pbuf?;
    var out: nat;
    q, out, k := Skip(buf, offset, c, at, f);
    assert q != null ==> q.totLen == |f| - at[k];
    if q != null && q.totLen >= out + |data| {
      ghost var g := Written(f, offset, data);
      PieceIs(c, at, f, k);
      var n := if q.len - out > |data| then |data| else q.len - out;
      FirstPiece(c, at, f, g, k, out, data, n);
      WritePiece(q, out, data[..n], c, at, f, g, k);
      if n < |data| {
        TakeFrom(q.next, data[n..], c, at, f, g, k + 1);
      } else {
        MixedHolds(c, at, f, g, k + 1);
      }
      return true;
    }
    ok := false;
  }

  lemma FirstPiece(c: seq<Pbuf>, at: seq<int>, f: Bytes, g: Bytes, k: nat, out: nat, data: Bytes, n: nat)
    requires Holds(c, at, f) && k < |c| && at[k] + out < at[k + 1] && at[k] + out + |data| <= |f|
    requires g == Written(f, at[k] + out, data) && n == Min(at[k + 1] - at[k] - out, |data|)
    ensures Mixed(c, at, f, g, k)
    ensures g[at[k]..at[k + 1]] == Written(f[at[k]..at[k + 1]], out, data[..n])
    ensures n < |data| ==> Overwrites(f, g, at[k + 1], data[n..])
    ensures n == |data| ==> g[at[k + 1]..] == f[at[k + 1]..]
  {
    WrittenParts(f, at[k], at[k + 1], out, data, n);
    forall i | 0 <= i < k ensures PieceAt(c[i], at, i, g) {
      var holds := PieceAt(c[i], at, i, f);
      assert holds && at[i + 1] <= at[k];
      SubSlice(g, at[i], at[i + 1], at[k]);
      SubSlice(f, at[i], at[i + 1], at[k]);
    }
    forall i | k <= i < |c| ensures PieceAt(c[i], at, i, f) {
      var holds := PieceAt(c[i], at, i, f);
      assert holds;
    }
  }

  lemma SubSlice(f: Bytes, x: nat, y: nat, z: nat)
    requires x <= y <= z <= |f|
    ensures f[..z][x..y] == f[x..y]
  {
  }

  /** What writing changes before, in and behind the piece it starts in. */
  lemma WrittenParts(f: Bytes, x: nat, y: nat, out: nat, data: Bytes, n: nat)
    requires x + out < y <= |f| && x + out + |data| <= |f| && n == Min(y - x - out, |data|)
    ensures var g := Written(f, x + out, data);
            && g[..x] == f[..x] && g[x..y] == Written(f[x..y], out, data[..n])
            && (n < |data| ==> Overwrites(f, g, y, data[n..])) && (n == |data| ==> g[y..] == f[y..])
  {
    var g, w := Written(f, x + out, data), Written(f[x..y], out, data[..n]);
    forall j | 0 <= j < y - x ensures g[x..y][j] == w[j] {
      WrittenAt(f, x + out, data, x + j);
      WrittenAt(f[x..y], out, data[..n], j);
    }
    forall j | 0 <= j < |f| ensures g[j] == if x + out <= j < x + out + |data| then data[j - x - out] else f[j] {
      WrittenAt(f, x + out, data, j);
    }
    if n < |data| {
      var rest := data[n..];
      forall j | 0 <= j < |rest| ensures g[y..y + |rest|][j] == rest[j] { assert g[y + j] == data[n + j]; }
    }
  }

  lemma WrittenAt(f: Bytes, o: nat, data: Bytes, j: nat)
    requires o + |data| <= |f| && j < |f|
    ensures Written(f, o, data)[j] == if o <= j < o + |data| then data[j - o] else f[j]
  {
  }

  // ----- copying from chain to chain

  datatype Err = Ok | Arg | Val

  /** MEMCPY into the m-th pbuf, without changing the others. */
  method WriteInside(q: Pbuf, offset: nat, data: Bytes, ghost d: seq<Pbuf>, ghost bt: seq<int>, ghost h: Bytes,
                     ghost m: nat)
    requires Linked(d) && Holds(d, bt, h) && m < |d| && q == d[m] && offset + |data| <= q.len
    requires bt[m] + offset + |data| <= bt[m + 1]
    modifies q.payload
    ensures Linked(d) && Holds(d, bt, Written(h, bt[m] + offset, data))
  {
    ghost var g := Written(h, bt[m] + offset, data);
    PieceIs(d, bt, h, m);
    InnerPiece(d, bt, h, g, m, offset, data);
    WritePiece(q, offset, data, d, bt, h, g, m);
    MixedHolds(d, bt, h, g, m + 1);
  }

  lemma InnerPiece(d: seq<Pbuf>, bt: seq<int>, h: Bytes, g: Bytes, m: nat, offset: nat, data: Bytes)
    requires Holds(d, bt, h) && m < |d| && bt[m] + offset + |data| <= bt[m + 1]
    requires g == Written(h, bt[m] + offset, data)
    ensures Mixed(d, bt, h, g, m) && g[bt[m + 1]..] == h[bt[m + 1]..]
    ensures g[bt[m]..bt[m + 1]] == Written(h[bt[m]..bt[m + 1]], offset, data)
  {
    var x, y := bt[m], bt[m + 1];
    forall j | 0 <= j < |h|
      ensures g[j] == if x + offset <= j < x + offset + |data| then data[j - x - offset] else h[j]
    {
      WrittenAt(h, x + offset, data, j);
    }
    forall j | 0 <= j < y - x ensures g[x..y][j] == Written(h[x..y], offset, data)[j] {
      WrittenAt(h[x..y], offset, data, j);
    }
    forall i | 0 <= i < m ensures PieceAt(d[i], bt, i, g) {
      var holds := PieceAt(d[i], bt, i, h);
      assert holds && bt[i + 1] <= bt[m];
      SubSlice(g, bt[i], bt[i + 1], x);
      SubSlice(h, bt[i], bt[i + 1], x);
      assert g[..x] == h[..x];
    }
    forall i | m <= i < |d| ensures PieceAt(d[i], bt, i, h) {
      var holds := PieceAt(d[i], bt, i, h);
      assert holds;
    }
  }

  /** The last pbuf is not an empty one behind others. */
  ghost predicate EndsFull(at: seq<int>) {
    |at| > 2 ==> at[|at| - 2] < at[|at| - 1]
  }

  /** The k-th pbuf ends its packet, and yet there are more behind it. */
  predicate Queued(at: seq<int>, k: nat) {
    k + 2 < |at| && at[k + 1] == at[|at| - 1]
  }

  /** How pbuf_copy ends that has come to the k-th pbuf of the source, cut at the places
      `at`, and to the m-th of the destination. */
  ghost function Outcome(at: seq<int>, bt: seq<int>, k: nat, m: nat): Err
    requires k + 1 < |at| && m + 1 < |bt|
    decreases |at| - k + |bt| - m
  {
    var j, n := if at[k + 1] <= bt[m + 1] then k + 1 else k, if bt[m + 1] <= at[k + 1] then m + 1 else m;
    if n + 1 == |bt| && j + 1 < |at| then Arg
    else if Queued(at, j) || Queued(bt, n) then Val
    else if j + 1 == |at| then Ok
    else Outcome(at, bt, j, n)
  }

  /** Chains that do not end in empty pbufs are copied. */
  lemma {:induction false} FullIsOk(at: seq<int>, bt: seq<int>, a: int, b: int, k: nat, m: nat)
    requires Cuts(at, a) && Cuts(bt, b) && a <= b && EndsFull(at) && EndsFull(bt) && k + 1 < |at| && m + 1 < |bt|
    ensures Outcome(at, bt, k, m) == Ok
    decreases |at| - k + |bt| - m
  {
    var j, n := if at[k + 1] <= bt[m + 1] then k + 1 else k, if bt[m + 1] <= at[k + 1] then m + 1 else m;
    FullIsNotQueued(at, a, j);
    FullIsNotQueued(bt, b, n);
    if j + 1 < |at| && n + 1 < |bt| { FullIsOk(at, bt, a, b, j, n); }
  }

  lemma FullIsNotQueued(at: seq<int>, a: int, k: nat)
    requires Cuts(at, a) && EndsFull(at)
    ensures !Queued(at, k) && (k + 2 < |at| ==> at[k + 1] < a)
  {
  }

  /** A source that ends in empty pbufs is refused once the copy comes to the end of its bytes. */
  lemma {:induction false} EmptyEndFails(at: seq<int>, bt: seq<int>, a: int, b: int, k: nat, m: nat)
    requires Cuts(at, a) && Cuts(bt, b) && a <= b && !EndsFull(at) && k + 1 < |at| && m + 1 < |bt| && at[k + 1] < a
    ensures Outcome(at, bt, k, m) == Val
    decreases |at| - k + |bt| - m
  {
    var j, n := if at[k + 1] <= bt[m + 1] then k + 1 else k, if bt[m + 1] <= at[k + 1] then m + 1 else m;
    if n + 1 < |bt| && at[j + 1] < a { EmptyEndFails(at, bt, a, b, j, n); }
  }

  /** The first pbuf that ends where the whole chain does. */
  ghost function FirstFull(at: seq<int>, k: nat): (m: nat)
    requires k + 1 < |at|
    ensures k <= m && m + 1 < |at| && at[m + 1] == at[|at| - 1]
    ensures forall i :: k < i <= m ==> at[i] != at[|at| - 1]
    decreases |at| - k
  {
    if at[k + 1] == at[|at| - 1] then k else FirstFull(at, k + 1)
  }

  /** The destination ends in empty pbufs, and the copy is at the m-th, in front of M where
      its bytes end: it must not come to M. */
  lemma {:induction false} BeforeEmptyEnd(at: seq<int>, bt: seq<int>, a: int, b: int, k: nat, m: nat, M: nat)
    requires Cuts(at, a) && Cuts(bt, b) && a <= b && EndsFull(at) && k + 1 < |at|
    requires m < M && M + 2 < |bt| && bt[M + 1] == b && bt[M] < b
    ensures Outcome(at, bt, k, m) == Ok <==> a < bt[M] || (m + 1 < M && a <= bt[M - 1])
    decreases |at| - k + |bt| - m
  {
    var j, n := if at[k + 1] <= bt[m + 1] then k + 1 else k, if bt[m + 1] <= at[k + 1] then m + 1 else m;
    FullIsNotQueued(at, a, j);
    assert bt[m + 1] <= bt[M] && bt[n] <= bt[M] && (n < M ==> bt[n + 1] <= bt[M]);
    if n < M && j + 1 < |at| { BeforeEmptyEnd(at, bt, a, b, j, n, M); }
  }

  /** When pbuf_copy copies a chain of a bytes into one of b: neither ends in empty pbufs; or
      the destination does, but the copy ends before it comes to them, or fills its one pbuf
      from one; or the source is one pbuf and an empty one, and the destination has room
      behind the bytes and no such end there. */
  ghost predicate Copies(at: seq<int>, bt: seq<int>, a: int, b: int)
    requires 1 < |at| && 1 < |bt|
  {
    if EndsFull(at) then
      var m := FirstFull(bt, 0);
      || EndsFull(bt)
      || (if m == 0 then |at| == 2 && a == b && |bt| == 3 else a < bt[m] || (1 < m && a <= bt[m - 1]))
    else
      && |at| == 3 && at[1] == a
      && (if a < bt[1] then !Queued(bt, 0)
          else a == bt[1] && 2 < |bt| && !Queued(bt, 1) && !(bt[2] == a && Queued(bt, 2)))
  }

  /** With bytes in its last pbuf a source is never left over. */
  lemma {:induction false} FullIsNotLeft(at: seq<int>, bt: seq<int>, a: int, b: int, k: nat, m: nat)
    requires Cuts(at, a) && Cuts(bt, b) && a <= b && EndsFull(at) && k + 1 < |at| && m + 1 < |bt|
    ensures Outcome(at, bt, k, m) != Arg
    decreases |at| - k + |bt| - m
  {
    var j, n := if at[k + 1] <= bt[m + 1] then k + 1 else k, if bt[m + 1] <= at[k + 1] then m + 1 else m;
    FullIsNotQueued(at, a, k);
    if j + 1 < |at| && n + 1 < |bt| { FullIsNotLeft(at, bt, a, b, j, n); }
  }

  /** A chain that fits is refused as an argument if and only if one pbuf is to take all the
      bytes and empty pbufs are left over; any other that is not copied passes for a queue. */
  lemma OutcomeArgIff(at: seq<int>, bt: seq<int>, a: int, b: int)
    requires Cuts(at, a) && Cuts(bt, b) && a <= b && 1 < |at| && 1 < |bt|
    ensures Outcome(at, bt, 0, 0) == Arg <==> 2 < |at| && at[1] == a == b && |bt| == 2
  {
    if EndsFull(at) {
      FullIsNotLeft(at, bt, a, b, 0, 0);
    } else if at[1] < a {
      EmptyEndFails(at, bt, a, b, 0, 0);
    } else if 3 <= |at| && 2 < |bt| && a == bt[1] && !Queued(at, 1) && !Queued(bt, 1) {
      assert Outcome(at, bt, 0, 0) == Outcome(at, bt, 1, 1);
    }
  }

  /** A chain that fits is copied exactly then. */
  lemma OutcomeIff(at: seq<int>, bt: seq<int>, a: int, b: int)
    requires Cuts(at, a) && Cuts(bt, b) && a <= b && 1 < |at| && 1 < |bt|
    ensures Outcome(at, bt, 0, 0) == Ok <==> Copies(at, bt, a, b)
  {
    if EndsFull(at) {
      IntoEmptyEnd(at, bt, a, b);
    } else if at[1] < a {
      EmptyEndFails(at, bt, a, b, 0, 0);
    } else {
      FromEmptyEnd(at, bt, a, b);
    }
  }

  lemma IntoEmptyEnd(at: seq<int>, bt: seq<int>, a: int, b: int)
    requires Cuts(at, a) && Cuts(bt, b) && a <= b && 1 < |at| && 1 < |bt| && EndsFull(at)
    ensures Outcome(at, bt, 0, 0) == Ok <==> Copies(at, bt, a, b)
  {
    var m := FirstFull(bt, 0);
    if EndsFull(bt) {
      FullIsOk(at, bt, a, b, 0, 0);
    } else if m > 0 {
      assert bt[m] != b && bt[|bt| - 2] == b;
      BeforeEmptyEnd(at, bt, a, b, 0, 0, m);
    } else {
      FullIsNotQueued(at, a, 0);
      FullIsNotQueued(at, a, 1);
    }
  }

  lemma FromEmptyEnd(at: seq<int>, bt: seq<int>, a: int, b: int)
    requires Cuts(at, a) && Cuts(bt, b) && a <= b && 1 < |at| && 1 < |bt| && !EndsFull(at) && at[1] == a
    ensures Outcome(at, bt, 0, 0) == Ok <==> Copies(at, bt, a, b)
  {
    assert at[2] == a;
  }

  /** One part copied: what was there of the source is longer by that. */
  method CopyOver(to: Pbuf, offTo: nat, from: Pbuf, offFrom: nat, len: nat, ghost c: seq<Pbuf>, ghost at: seq<int>,
                  ghost f: Bytes, ghost k: nat,
                  ghost d: seq<Pbuf>, ghost bt: seq<int>, ghost g: Bytes, ghost m: nat, ghost pos: nat)
    requires Linked(c) && Holds(c, at, f) && k < |c| && from == c[k] && at[k] + offFrom == pos && pos + len <= at[k + 1]
    requires Linked(d) && pos <= |f| <= |g| && Holds(d, bt, f[..pos] + g[pos..]) && Disjoint(c, d)
    requires m < |d| && to == d[m] && bt[m] + offTo == pos && pos + len <= bt[m + 1]
    modifies to.payload
    ensures Linked(c) && Holds(c, at, f) && Linked(d) && Holds(d, bt, f[..pos + len] + g[pos + len..])
  {
    PieceIs(c, at, f, k);
    PieceIs(d, bt, f[..pos] + g[pos..], m);
    var data := from.payload[offFrom..offFrom + len];
    SubPiece(from, at[k], at[k + 1], f, offFrom, len);
    CopiedMore(f, g, pos, len);
    WriteInside(to, offTo, data, d, bt, f[..pos] + g[pos..], m);
    forall i | 0 <= i < |c| ensures PieceAt(c[i], at, i, f) {
      assert c[i].payload != d[m].payload;
      var holds := old(PieceAt(c[i], at, i, f));
      assert holds;
    }
  }

  lemma CopiedMore(f: Bytes, g: Bytes, pos: nat, len: nat)
    requires pos + len <= |f| <= |g|
    ensures Written(f[..pos] + g[pos..], pos, f[pos..pos + len]) == f[..pos + len] + g[pos + len..]
  {
  }

  /** A pbuf claims to be the last of its packet, but is not the last of the chain. */
  lemma LastOfPacket(c: seq<Pbuf>, at: seq<int>, f: Bytes, h: Bytes, k: nat)
    requires Linked(c) && Holds(c, at, h) && |h| == |f| && Totals(c, at, f) && |f| < 0x1_0000 && k < |c|
    ensures Queued(at, k) <==> c[k].len == c[k].totLen && c[k].next != null
  {
    PieceIs(c, at, h, k);
    assert c[k].totLen == Low16(|f| - at[k]) && c[k].next == At(c, k + 1);
  }

  /** Both chains, when the first pos bytes of f have been copied over g. */
  ghost predicate Copying(c: seq<Pbuf>, at: seq<int>, f: Bytes, d: seq<Pbuf>, bt: seq<int>, g: Bytes, pos: nat)
    reads c`next, c`len, c`totLen, Arrays(c), d`next, d`len, d`totLen, Arrays(d)
  {
    && Linked(c) && Holds(c, at, f) && Totals(c, at, f) && Linked(d) && Disjoint(c, d)
    && pos <= |f| <= |g| < 0x1_0000 && Holds(d, bt, f[..pos] + g[pos..]) && Totals(d, bt, g)
  }

  /** The k-th pbuf, at the offset at which byte pos lies. */
  ghost predicate Place(c: seq<Pbuf>, at: seq<int>, p: Pbuf?, off: nat, k: nat, pos: int) {
    |at| == |c| + 1 && k <= |c| && p == At(c, k) && (k < |c| ==> at[k] + off == pos <= at[k + 1])
  }

  /** As much is copied as both pbufs hold. */
  method CopyMin(to: Pbuf, from: Pbuf, offTo: nat, offFrom: nat, ghost c: seq<Pbuf>, ghost at: seq<int>, ghost f: Bytes,
                 ghost k: nat, ghost d: seq<Pbuf>, ghost bt: seq<int>, ghost g: Bytes, ghost m: nat, ghost pos: nat)
    returns (len: nat)
    requires Copying(c, at, f, d, bt, g, pos) && Place(c, at, from, offFrom, k, pos) && Place(d, bt, to, offTo, m, pos)
    modifies Arrays(d)
    ensures Copying(c, at, f, d, bt, g, pos + len) && pos + len == Min(at[k + 1], bt[m + 1])
    ensures k < |c| && from == c[k] && m < |d| && to == d[m]
    ensures at[k] + (offFrom + len) == pos + len && bt[m] + (offTo + len) == pos + len
  {
    PieceIs(c, at, f, k);
    PieceIs(d, bt, f[..pos] + g[pos..], m);
    len := if to.len - offTo >= from.len - offFrom then from.len - offFrom else to.len - offTo;
    CopyOver(to, offTo, from, offFrom, len, c, at, f, k, d, bt, g, m, pos);
  }

  /** On to the next pbuf of the source (if any). */
  method MoveFrom(p: Pbuf, off: nat, ghost c: seq<Pbuf>, ghost at: seq<int>, ghost f: Bytes, ghost k: nat,
                  ghost pos: nat)
    returns (q: Pbuf?, off': nat, ghost k': nat)
    requires Linked(c) && Holds(c, at, f) && k < |c| && p == c[k] && at[k] + off == pos <= at[k + 1]
    ensures Place(c, at, q, off', k', pos) && k' == if at[k + 1] <= pos then k + 1 else k
    ensures q == null ==> pos == |f|
  {
    PieceIs(c, at, f, k);
    q, off', k' := p, off, k;
    if off >= p.len {
      assert c[k].next == At(c, k + 1);
      q, off', k' := p.next, 0, k + 1;
    }
  }

  /** On to the next pbuf of the destination (if any). */
  method MoveTo(p: Pbuf, off: nat, ghost c: seq<Pbuf>, ghost at: seq<int>, ghost f: Bytes, ghost k: nat, ghost pos: nat)
    returns (q: Pbuf?, off': nat, ghost k': nat)
    requires Linked(c) && Holds(c, at, f) && k < |c| && p == c[k] && at[k] + off == pos <= at[k + 1]
    ensures Place(c, at, q, off', k', pos) && k' == if at[k + 1] <= pos then k + 1 else k
    ensures q == null ==> pos == |f|
  {
    PieceIs(c, at, f, k);
    q, off', k' := p, off, k;
    if off == p.len {
      assert c[k].next == At(c, k + 1);
      q, off', k' := p.next, 0, k + 1;
    }
  }

  method MoveOn(to: Pbuf, from: Pbuf, offTo: nat, offFrom: nat, ghost c: seq<Pbuf>, ghost at: seq<int>, ghost f: Bytes,
                ghost k: nat, ghost d: seq<Pbuf>, ghost bt: seq<int>, ghost g: Bytes, ghost m: nat, ghost pos: nat)
    returns (to': Pbuf?, from': Pbuf?, offTo': nat, offFrom': nat, ghost k': nat, ghost m': nat)
    requires Copying(c, at, f, d, bt, g, pos) && k < |c| && from == c[k] && m < |d| && to == d[m]
    requires at[k] + offFrom == pos <= at[k + 1] && bt[m] + offTo == pos <= bt[m + 1]
    ensures Place(c, at, from', offFrom', k', pos) && Place(d, bt, to', offTo', m', pos)
    ensures k' == (if at[k + 1] <= pos then k + 1 else k) && m' == (if bt[m + 1] <= pos then m + 1 else m)
    ensures from' == null ==> pos == |f|
  {
    from', offFrom', k' := MoveFrom(from, offFrom, c, at, f, k, pos);
    to', offTo', m' := MoveTo(to, offTo, d, bt, f[..pos] + g[pos..], m, pos);
  }

  /** One round of pbuf_copy: a part is copied, and the chains move on where a pbuf is done. */
  method CopyPart(to: Pbuf, from: Pbuf, offTo: nat, offFrom: nat, ghost c: seq<Pbuf>, ghost at: seq<int>,
                  ghost f: Bytes,
                  ghost k: nat, ghost d: seq<Pbuf>, ghost bt: seq<int>, ghost g: Bytes, ghost m: nat, ghost pos: nat)
    returns (to': Pbuf?, from': Pbuf?, offTo': nat, offFrom': nat, ghost k': nat, ghost m': nat, ghost pos': nat)
    requires Copying(c, at, f, d, bt, g, pos) && Place(c, at, from, offFrom, k, pos) && Place(d, bt, to, offTo, m, pos)
    modifies Arrays(d)
    ensures Copying(c, at, f, d, bt, g, pos')
    ensures Place(c, at, from', offFrom', k', pos') && Place(d, bt, to', offTo', m', pos')
    ensures k' == (if at[k + 1] <= bt[m + 1] then k + 1 else k) && m' == (if bt[m + 1] <= at[k + 1] then m + 1 else m)
    ensures from' == null ==> pos' == |f|
  {
    var len := CopyMin(to, from, offTo, offFrom, c, at, f, k, d, bt, g, m, pos);
    pos' := pos + len;
    to', from', offTo', offFrom', k', m' :=
      MoveOn(to, from, offTo + len, offFrom + len, c, at, f, k, d, bt, g, m, pos');
  }

  /** More of the chain behind what claims to be the end of the packet. */
  method IsQueue(p: Pbuf?, ghost c: seq<Pbuf>, ghost at: seq<int>, ghost f: Bytes, ghost h: Bytes, ghost k: nat)
    returns (queue: bool)
    requires Linked(c) && Holds(c, at, h) && |h| == |f| && Totals(c, at, f) && |f| < 0x1_0000
    requires k <= |c| && p == At(c, k)
    ensures queue <==> Queued(at, k)
  {
    if p == null { return false; }
    LastOfPacket(c, at, f, h, k);
    queue := p.len == p.totLen && p.next != null;
  }

  /** The checks at the end of a round. */
  method Verdict(to: Pbuf?, from: Pbuf?, ghost c: seq<Pbuf>, ghost at: seq<int>, ghost f: Bytes, ghost k: nat,
                 ghost d: seq<Pbuf>, ghost bt: seq<int>, ghost g: Bytes, ghost m: nat, ghost pos: nat)
    returns (err: Err)
    requires Copying(c, at, f, d, bt, g, pos) && k <= |c| && from == At(c, k) && m <= |d| && to == At(d, m)
    ensures err ==
      if m == |d| && k < |c| then Arg else if Queued(at, k) || Queued(bt, m) then Val else Ok
  {
    if to == null && from != null { return Arg; }
    var queue := IsQueue(from, c, at, f, f, k);
    if queue { return Val; }
    queue := IsQueue(to, d, bt, g, f[..pos] + g[pos..], m);
    if queue { return Val; }
    err := Ok;
  }

  /** pbuf_copy: the destination starts with the bytes of the source and keeps the rest of
      its own; on an error it starts with some of them. */
  method CopyChain(to0: Pbuf?, from0: Pbuf?, ghost c: seq<Pbuf>, ghost at: seq<int>, ghost f: Bytes,
                   ghost d: seq<Pbuf>, ghost bt: seq<int>, ghost g: Bytes)
    returns (err: Err, ghost pos: nat)
    requires Linked(c) && Holds(c, at, f) && Totals(c, at, f) && from0 == At(c, 0) && |f| < 0x1_0000
    requires Linked(d) && Holds(d, bt, g) && Totals(d, bt, g) && to0 == At(d, 0) && |g| < 0x1_0000
    requires Disjoint(c, d)
    modifies Arrays(d)
    ensures c == [] || d == [] || |f| > |g| ==> err == Arg && Holds(c, at, f) && Holds(d, bt, g)
    ensures c != [] && d != [] && |f| <= |g| ==> Copying(c, at, f, d, bt, g, pos) && (err == Ok ==> pos == |f|)
    ensures c != [] && d != [] && |f| <= |g| ==> err == Outcome(at, bt, 0, 0)
  {
    pos := 0;
    if to0 == null || from0 == null { return Arg, 0; }
    assert from0.totLen == Low16(|f| - at[0]) && to0.totLen == Low16(|g| - bt[0]);
    if to0.totLen < from0.totLen { return Arg, 0; }
    assert f[..0] + g[0..] == g;
    err, pos := CopyAll(to0, from0, c, at, f, d, bt, g);
  }

  method CopyAll(to0: Pbuf, from0: Pbuf, ghost c: seq<Pbuf>, ghost at: seq<int>, ghost f: Bytes,
                 ghost d: seq<Pbuf>, ghost bt: seq<int>, ghost g: Bytes)
    returns (err: Err, ghost pos: nat)
    requires Copying(c, at, f, d, bt, g, 0) && from0 == At(c, 0) && to0 == At(d, 0)
    modifies Arrays(d)
    ensures Copying(c, at, f, d, bt, g, pos) && (err == Ok ==> pos == |f|) && err == Outcome(at, bt, 0, 0)
  {
    var to: Pbuf?, from: Pbuf? := to0, from0;
    var offTo: nat, offFrom: nat := 0, 0;
    ghost var k: nat, m: nat := 0, 0;
    pos := 0;
    while from != null
      invariant Copying(c, at, f, d, bt, g, pos)
      invariant Place(c, at, from, offFrom, k, pos) && Place(d, bt, to, offTo, m, pos)
      invariant if from == null then pos == |f| && Outcome(at, bt, 0, 0) == Ok
                else to != null && Outcome(at, bt, 0, 0) == Outcome(at, bt, k, m)
      decreases |c| - k + |d| - m
    {
      err, to, from, offTo, offFrom, k, m, pos := CopyRound(to, from, offTo, offFrom, c, at, f, k, d, bt, g, m, pos);
      if err != Ok { return; }
    }
    return Ok, pos;
  }

  method CopyRound(to: Pbuf, from: Pbuf, offTo: nat, offFrom: nat, ghost c: seq<Pbuf>, ghost at: seq<int>,
                   ghost f: Bytes,
                   ghost k: nat, ghost d: seq<Pbuf>, ghost bt: seq<int>, ghost g: Bytes, ghost m: nat, ghost pos: nat)
    returns (err: Err, to': Pbuf?, from': Pbuf?, offTo': nat, offFrom': nat, ghost k': nat, ghost m': nat,
             ghost pos': nat)
    requires Copying(c, at, f, d, bt, g, pos) && Place(c, at, from, offFrom, k, pos) && Place(d, bt, to, offTo, m, pos)
    modifies Arrays(d)
    ensures Copying(c, at, f, d, bt, g, pos')
    ensures Place(c, at, from', offFrom', k', pos') && Place(d, bt, to', offTo', m', pos')
    ensures if err != Ok || from' == null then err == Outcome(at, bt, k, m)
            else to' != null && Outcome(at, bt, k, m) == Outcome(at, bt, k', m')
    ensures from' == null ==> pos' == |f|
    ensures k <= k' && m <= m' && (k < k' || m < m')
  {
    to', from', offTo', offFrom', k', m', pos' := CopyPart(to, from, offTo, offFrom, c, at, f, k, d, bt, g, m, pos);
    err := Verdict(to', from', c, at, f, k', d, bt, g, m', pos');
  }

  // ----- releasing

  /** How many pbufs at the head nobody else refers to. */
  function Leading(refs: seq<int>): (k: nat)
    ensures k <= |refs| && (forall i :: 0 <= i < k ==> refs[i] == 1) && (k < |refs| ==> refs[k] != 1)
  {
    if refs == [] || refs[0] != 1 then 0 else 1 + Leading(refs[1..])
  }

  ghost predicate Refs(c: seq<Pbuf>, refs: seq<int>)
    reads c`ref
  {
    |refs| == |c| && (forall i {:trigger refs[i]} :: 0 <= i < |c| ==> c[i].ref == refs[i])
  }

  /** The references once the caller's is given up: the leading run of pbufs that nobody
      else refers to is released, and the next one loses a reference. */
  function Dropped(refs: seq<int>): (r: seq<int>)
    ensures |r| == |refs|
    ensures forall i :: 0 <= i < |refs| ==>
      r[i] == if i < Leading(refs) then 0 else if i == Leading(refs) then refs[i] - 1 else refs[i]
  {
    seq(|refs|, i requires 0 <= i < |refs| =>
      if i < Leading(refs) then 0 else if i == Leading(refs) then refs[i] - 1 else refs[i])
  }

  /** --(p->ref) */
  method Decrement(p: Pbuf, ghost c: seq<Pbuf>, ghost refs: seq<int>, ghost k: nat)
    requires Linked(c) && Refs(c, refs) && k < |c| && p == c[k] && refs[k] > 0
    modifies p`ref
    ensures Linked(c) && Refs(c, refs[k := refs[k] - 1]) && p.ref == refs[k] - 1
  {
    assert p.ref == refs[k];
    p.ref := p.ref - 1;
    forall i | 0 <= i < |c| && i != k ensures c[i].ref == refs[i] {
      if i < k { assert c[i] != c[k]; } else { assert c[k] != c[i]; }
      assert old(c[i].ref) == refs[i];
    }
  }

  /** The k-th pbuf loses a reference. */
  method DropOne(p: Pbuf, ghost c: seq<Pbuf>, ghost refs: seq<int>, ghost now: seq<int>, ghost k: nat)
    returns (ghost after: seq<int>)
    requires Linked(c) && Refs(c, now) && k < |c| && p == c[k] && Dropping(refs, now, k) && refs[k] > 0
    modifies p`ref
    ensures Linked(c) && Refs(c, after)
    ensures if p.ref == 0 then Dropping(refs, after, k + 1) else Leading(refs) == k && after == Dropped(refs)
  {
    DroppingStep(refs, now, k);
    Decrement(p, c, now, k);
    after := now[k := refs[k] - 1];
  }

  /** pbuf_free.  The count of released pbufs is kept in 8 bits. */
  method Free(p0: Pbuf?, ghost c: seq<Pbuf>, ghost refs: seq<int>) returns (count: nat)
    requires Linked(c) && p0 == At(c, 0) && Refs(c, refs) && (forall i :: 0 <= i < |refs| ==> refs[i] > 0)
    modifies c`ref
    ensures Linked(c) && Refs(c, Dropped(refs)) && count == Leading(refs) % 0x100
  {
    var p := p0;
    ghost var i: nat, now := 0, refs;
    count := 0;
    while p != null
      invariant i <= |c| && Linked(c) && p == At(c, i) && Refs(c, now)
      invariant Dropping(refs, now, i) && count == i % 0x100
      decreases |c| - i
    {
      now := DropOne(p, c, refs, now, i);
      if p.ref != 0 { return; }
      count := (count + 1) % 0x100;
      p, i := p.next, i + 1;
    }
    DroppedIs(refs, now, i);
  }

  lemma DroppingStep(refs: seq<int>, was: seq<int>, k: nat)
    requires k < |refs| == |was| && Dropping(refs, was, k)
    ensures was[k] == refs[k]
    ensures var now := was[k := refs[k] - 1];
            if refs[k] == 1 then Dropping(refs, now, k + 1) else Leading(refs) == k && now == Dropped(refs)
  {
    if refs[k] != 1 { DroppedIs(refs, was[k := refs[k] - 1], k); }
  }

  lemma DroppedIs(refs: seq<int>, now: seq<int>, k: nat)
    requires k <= |refs| == |now| && (forall j :: 0 <= j < k ==> refs[j] == 1 && now[j] == 0)
    requires k < |refs| ==> refs[k] != 1 && now[k] == refs[k] - 1
    requires forall j :: k < j < |refs| ==> now[j] == refs[j]
    ensures Leading(refs) == k && now == Dropped(refs)
  {
    LeadingIs(refs, k);
  }

  /** The first k pbufs are released, the others still untouched. */
  predicate Dropping(refs: seq<int>, now: seq<int>, k: nat) {
    && k <= |refs| == |now|
    && (forall j :: 0 <= j < k ==> refs[j] == 1 && now[j] == 0)
    && (forall j :: k <= j < |refs| ==> now[j] == refs[j])
  }

  lemma LeadingIs(refs: seq<int>, k: nat)
    requires k <= |refs| && (forall j :: 0 <= j < k ==> refs[j] == 1) && (k < |refs| ==> refs[k] != 1)
    ensures Leading(refs) == k
  {
  }

  // ----- appending

  ghost predicate Lens(c: seq<Pbuf>, tots: seq<int>)
    reads c`totLen
  {
    |tots| == |c| && (forall i {:trigger tots[i]} :: 0 <= i < |c| ==> c[i].totLen == tots[i])
  }

  method SetTotal(p: Pbuf, totLen: int, ghost c: seq<Pbuf>, ghost tots: seq<int>, ghost k: nat)
    requires Linked(c) && Lens(c, tots) && k < |c| && p == c[k]
    modifies p`totLen
    ensures Lens(c, tots[k := totLen])
  {
    p.totLen := totLen;
    forall i | 0 <= i < |c| && i != k ensures c[i].totLen == tots[i] {
      if i < k { assert c[i] != c[k]; } else { assert c[k] != c[i]; }
      assert old(c[i].totLen) == tots[i];
    }
  }

  /** The places of two chains, one behind the other. */
  function JoinCuts(at: seq<int>, bt: seq<int>): (r: seq<int>)
    requires at != []
    ensures |r| == |at| - 1 + |bt|
    ensures forall i :: 0 <= i < |r| ==> r[i] == if i < |at| - 1 then at[i] else at[|at| - 1] + bt[i - (|at| - 1)]
  {
    seq(|at| - 1 + |bt|, i requires 0 <= i < |at| - 1 + |bt| =>
      if i < |at| - 1 then at[i] else at[|at| - 1] + bt[i - (|at| - 1)])
  }

  /** The two chains share nothing. */
  ghost predicate Disjoint(c: seq<Pbuf>, d: seq<Pbuf>) {
    forall i, j :: 0 <= i < |c| && 0 <= j < |d| ==> c[i] != d[j] && c[i].payload != d[j].payload
  }

  /** The total lengths of the first chain once k of its pbufs know of the bytes behind. */
  function Raised(tots: seq<int>, more: int, k: nat): (r: seq<int>)
    ensures |r| == |tots| && (forall i :: 0 <= i < |r| ==> r[i] == if i < k then Low16(tots[i] + more) else tots[i])
  {
    seq(|tots|, i requires 0 <= i < |tots| => if i < k then Low16(tots[i] + more) else tots[i])
  }

  /** The k-th pbuf counts the bytes behind as well. */
  method RaiseTotal(p: Pbuf, more: int, ghost c: seq<Pbuf>, ghost tots: seq<int>, ghost k: nat)
    requires Linked(c) && k < |c| && p == c[k] && Lens(c, Raised(tots, more, k))
    modifies p`totLen
    ensures Linked(c) && Lens(c, Raised(tots, more, k + 1))
  {
    assert c[k].totLen == Raised(tots, more, k)[k];
    SetTotal(p, Low16(p.totLen + more), c, Raised(tots, more, k), k);
    assert Raised(tots, more, k)[k := Low16(tots[k] + more)] == Raised(tots, more, k + 1);
  }

  /** pbuf_cat: the chain t behind the chain h holds the bytes of both, one after the other. */
  method Cat(h: Pbuf?, t: Pbuf?, ghost c: seq<Pbuf>, ghost d: seq<Pbuf>, ghost tots: seq<int>)
    requires Linked(c) && Linked(d) && Disjoint(c, d) && h == At(c, 0) && t == At(d, 0) && Lens(c, tots)
    modifies c`totLen, c`next
    ensures c != [] && d != [] ==> Linked(c + d) && Lens(c, Raised(tots, d[0].totLen, |c|))
    ensures c == [] || d == [] ==> Linked(c) && Linked(d) && Lens(c, tots)
  {
    if h == null || t == null { return; }
    var p, more := h, t.totLen;
    ghost var k: nat := 0;
    while p.next != null
      invariant k < |c| && p == c[k] && Linked(c) && Linked(d) && Lens(c, Raised(tots, more, k))
      decreases |c| - k
    {
      RaiseTotal(p, more, c, tots, k);
      p, k := p.next, k + 1;
    }
    RaiseTotal(p, more, c, tots, k);
    p.next := t;
    LinkedJoined(c, d);
  }

  lemma LinkedJoined(c: seq<Pbuf>, d: seq<Pbuf>)
    requires c != [] && d != [] && Linked(d) && Disjoint(c, d)
    requires forall i {:trigger c[i].next} :: 0 <= i < |c| ==> c[i].next == if i + 1 < |c| then c[i + 1] else d[0]
    requires forall i, j :: 0 <= i < j < |c| ==> c[i] != c[j] && c[i].payload != c[j].payload
    ensures Linked(c + d)
  {
    forall i | 0 <= i < |c + d| ensures (c + d)[i].next == At(c + d, i + 1) {
      if i >= |c| { assert d[i - |c|].next == At(d, i - |c| + 1); } else { assert c[i].next == At(c + d, i + 1); }
    }
  }

  lemma JoinedCuts(at: seq<int>, n: int, bt: seq<int>, m: int)
    requires Cuts(at, n) && Cuts(bt, m)
    ensures Cuts(JoinCuts(at, bt), n + m)
  {
  }

  lemma SliceBefore(f: Bytes, g: Bytes, x: nat, y: nat)
    requires x <= y <= |f|
    ensures (f + g)[x..y] == f[x..y]
  {
  }

  lemma SliceBehind(f: Bytes, g: Bytes, x: nat, y: nat)
    requires x <= y <= |g|
    ensures (f + g)[|f| + x..|f| + y] == g[x..y]
  {
    assert (f + g)[|f|..] == g;
    assert (f + g)[|f| + x..|f| + y] == (f + g)[|f|..][x..y];
  }

  /** The joined chain holds the bytes of both. */
  lemma CatHolds(c: seq<Pbuf>, at: seq<int>, f: Bytes, d: seq<Pbuf>, bt: seq<int>, g: Bytes)
    requires Holds(c, at, f) && Holds(d, bt, g)
    ensures Holds(c + d, JoinCuts(at, bt), f + g)
  {
    var r, both := JoinCuts(at, bt), f + g;
    JoinedCuts(at, |f|, bt, |g|);
    forall i | 0 <= i < |c + d| ensures PieceAt((c + d)[i], r, i, both) {
      if i < |c| {
        PieceIs(c, at, f, i);
        SliceBefore(f, g, at[i], at[i + 1]);
      } else {
        var j := i - |c|;
        PieceIs(d, bt, g, j);
        SliceBehind(f, g, bt[j], bt[j + 1]);
      }
    }
  }

  lemma Low16Sum(x: int, y: int)
    ensures Low16(Low16(x) + Low16(y)) == Low16(x + y)
  {
  }

  /** Its total lengths are right again. */
  lemma CatTotals(c: seq<Pbuf>, at: seq<int>, f: Bytes, tots: seq<int>, d: seq<Pbuf>, bt: seq<int>, g: Bytes)
    requires |at| == |c| + 1 && Cuts(at, |f|) && |bt| == |d| + 1 && Cuts(bt, |g|) && d != []
    requires |tots| == |c| && (forall i :: 0 <= i < |c| ==> tots[i] == Low16(|f| - at[i]))
    requires Totals(d, bt, g) && Lens(c, Raised(tots, d[0].totLen, |c|))
    ensures Totals(c + d, JoinCuts(at, bt), f + g)
  {
    var r := JoinCuts(at, bt);
    assert d[0].totLen == Low16(|g| - bt[0]);
    forall i | 0 <= i < |c + d| ensures (c + d)[i].totLen == Low16(|f + g| - r[i]) {
      if i < |c| {
        TotalRaised(c, at, f, tots, d[0].totLen, |g|, i);
      } else {
        TotalBehind(d, bt, g, i - |c|);
      }
    }
  }

  lemma TotalRaised(c: seq<Pbuf>, at: seq<int>, f: Bytes, tots: seq<int>, more: int, n: nat, i: nat)
    requires |at| == |c| + 1 && Cuts(at, |f|) && i < |c| == |tots| && tots[i] == Low16(|f| - at[i])
    requires Lens(c, Raised(tots, more, |c|)) && more == Low16(n)
    ensures c[i].totLen == Low16(|f| + n - at[i])
  {
    assert c[i].totLen == Raised(tots, more, |c|)[i];
    Low16Sum(|f| - at[i], n);
  }

  lemma TotalBehind(d: seq<Pbuf>, bt: seq<int>, g: Bytes, j: nat)
    requires |bt| == |d| + 1 && Totals(d, bt, g) && j < |d|
    ensures d[j].totLen == Low16(|g| - bt[j])
  {
    assert bt[j] == bt[j];
  }

  // ----- shrinking

  /** The total lengths once the first k pbufs count `less` bytes less. */
  function Shrunk(tots: seq<int>, less: int, k: nat): (r: seq<int>)
    ensures |r| == |tots| && (forall i :: 0 <= i < |r| ==> r[i] == if i < k then Low16(tots[i] - less) else tots[i])
  {
    seq(|tots|, i requires 0 <= i < |tots| => if i < k then Low16(tots[i] - less) else tots[i])
  }

  /** The loop of pbuf_realloc: to the pbuf that holds the last byte to be kept. */
  method WalkTo(p: Pbuf, newLen: nat, shrink: int, ghost c: seq<Pbuf>, ghost at: seq<int>, ghost f: Bytes,
                ghost tots: seq<int>)
    returns (q: Pbuf, rem: nat, ghost k: nat)
    requires Linked(c) && Holds(c, at, f) && Lens(c, tots) && p == At(c, 0) && newLen < |f|
    modifies c`totLen
    ensures Linked(c) && Holds(c, at, f) && Lens(c, Shrunk(tots, shrink, k)) && k < |c| && q == c[k]
    ensures at[k] + rem == newLen <= at[k + 1] && (0 < k ==> 0 < rem)
  {
    q, rem, k := p, newLen, 0;
    while rem > q.len
      invariant k < |c| && q == c[k] && Linked(c) && Holds(c, at, f)
      invariant at[k] + rem == newLen && (0 < k ==> 0 < rem)
      invariant Lens(c, Shrunk(tots, shrink, k))
      decreases |c| - k
    {
      PieceIs(c, at, f, k);
      assert c[k].totLen == Shrunk(tots, shrink, k)[k];
      SetTotal(q, Low16(q.totLen - shrink), c, Shrunk(tots, shrink, k), k);
      assert Shrunk(tots, shrink, k)[k := Low16(tots[k] - shrink)] == Shrunk(tots, shrink, k + 1);
      assert c[k].next == At(c, k + 1);
      rem, q, k := rem - q.len, q.next, k + 1;
    }
    PieceIs(c, at, f, k);
  }

  lemma LinkedFrom(c: seq<Pbuf>, k: nat)
    requires Linked(c) && k <= |c|
    ensures Linked(c[k..]) && At(c[k..], 0) == At(c, k)
  {
    forall i | 0 <= i < |c| - k ensures c[k..][i].next == At(c[k..], i + 1) {
      assert c[k + i].next == At(c, k + i + 1);
    }
  }

  lemma RefsFrom(c: seq<Pbuf>, refs: seq<int>, k: nat)
    requires Refs(c, refs) && k <= |c|
    ensures Refs(c[k..], refs[k..])
  {
    var d, r := c[k..], refs[k..];
    forall i | 0 <= i < |d| ensures d[i].ref == r[i] { assert c[k + i].ref == refs[k + i]; }
  }

  /** A chain cut off behind the k-th pbuf. */
  lemma LinkedUpTo(c: seq<Pbuf>, k: nat)
    requires k < |c| && c[k].next == null
    requires forall i {:trigger c[i].next} :: 0 <= i < k ==> c[i].next == c[i + 1]
    requires forall i, j :: 0 <= i < j < |c| ==> c[i] != c[j] && c[i].payload != c[j].payload
    ensures Linked(c[..k + 1])
  {
    var d := c[..k + 1];
    forall i | 0 <= i < |d| ensures d[i].next == At(d, i + 1) { assert i < k ==> c[i].next == c[i + 1]; }
  }

  /** The chain ends behind the k-th pbuf; the rest loses the reference from it. */
  method Truncate(q: Pbuf, rem: nat, ghost c: seq<Pbuf>, ghost k: nat, ghost refs: seq<int>)
    requires Linked(c) && k < |c| && q == c[k] && Refs(c, refs) && (forall i :: 0 <= i < |refs| ==> refs[i] > 0)
    modifies q`len, q`totLen, q`next, c[k + 1..]`ref
    ensures q.len == rem && q.totLen == rem
    ensures Linked(c[..k + 1]) && Refs(c[k + 1..], Dropped(refs[k + 1..]))
  {
    q.len := rem;
    q.totLen := q.len;
    assert c[k].next == At(c, k + 1);
    LinkedFrom(c, k + 1);
    RefsFrom(c, refs, k + 1);
    if q.next != null {
      var gone := Free(q.next, c[k + 1..], refs[k + 1..]);
    }
    q.next := null;
    LinkedUpTo(c, k);
  }

  /** What the shortened chain holds. */
  lemma CutHolds(c: seq<Pbuf>, at: seq<int>, f: Bytes, k: nat, n: nat, tots: seq<int>)
    requires |at| == |c| + 1 && Cuts(at, |f|) && k < |c| && at[k] <= n <= at[k + 1] && n <= |f|
    requires forall i {:trigger PieceAt(c[i], at, i, f)} :: 0 <= i < k ==> PieceAt(c[i], at, i, f)
    requires Piece(c[k], at[k], n, f) && c[k].totLen == n - at[k]
    requires |tots| == |c| && (forall i :: 0 <= i < |c| ==> tots[i] == Low16(|f| - at[i])) && |f| < 0x1_0000
    requires forall i {:trigger tots[i]} :: 0 <= i < k ==> c[i].totLen == Low16(tots[i] - (|f| - n))
    ensures Holds(c[..k + 1], at[..k + 1] + [n], f[..n]) && Totals(c[..k + 1], at[..k + 1] + [n], f[..n])
  {
    var d, bt, g := c[..k + 1], at[..k + 1] + [n], f[..n];
    forall i | 0 <= i < |d| ensures PieceAt(d[i], bt, i, g) && d[i].totLen == Low16(|g| - bt[i]) {
      if i < k {
        var holds := PieceAt(c[i], at, i, f);
        assert holds && tots[i] == Low16(|f| - at[i]);
        PieceStays(c[i], at[i], at[i + 1], f, n);
      } else {
        PieceStays(c[k], at[k], n, f, n);
      }
    }
  }

  lemma PieceStays(p: Pbuf, from: nat, to: nat, f: Bytes, n: nat)
    requires Piece(p, from, to, f) && from <= to <= n <= |f|
    ensures Piece(p, from, to, f[..n])
  {
    SubSlice(f, from, to, n);
  }

  /** pbuf_realloc: the chain keeps its first newLen bytes, in the pbufs up to the k-th, and
      gives up its reference to the rest. */
  method Realloc(p: Pbuf, newLen: nat, ghost c: seq<Pbuf>, ghost at: seq<int>, ghost f: Bytes, ghost refs: seq<int>)
    returns (ghost k: nat)
    requires Linked(c) && Holds(c, at, f) && Totals(c, at, f) && p == At(c, 0) && |f| < 0x1_0000
    requires Refs(c, refs) && (forall i :: 0 <= i < |refs| ==> refs[i] > 0)
    modifies c`len, c`totLen, c`next, c`ref
    ensures newLen >= |f| ==> Linked(c) && Holds(c, at, f) && Totals(c, at, f) && Refs(c, refs)
    ensures newLen < |f| ==>
              && k < |c| && at[k] <= newLen <= at[k + 1] && (0 < k ==> at[k] < newLen)
              && Linked(c[..k + 1]) && Holds(c[..k + 1], at[..k + 1] + [newLen], f[..newLen])
              && Totals(c[..k + 1], at[..k + 1] + [newLen], f[..newLen])
              && Refs(c[k + 1..], Dropped(refs[k + 1..]))
  {
    k := 0;
    assert p.totLen == Low16(|f| - at[0]);
    if newLen >= p.totLen { return; }
    ghost var tots := TotalsOf(c, at, f);
    k := Shorten(p, newLen, c, at, f, tots, refs);
  }

  method Shorten(p: Pbuf, newLen: nat, ghost c: seq<Pbuf>, ghost at: seq<int>, ghost f: Bytes, ghost tots: seq<int>,
                 ghost refs: seq<int>)
    returns (ghost k: nat)
    requires Linked(c) && Holds(c, at, f) && p == At(c, 0) && newLen < |f| == p.totLen < 0x1_0000
    requires |tots| == |c| && (forall i :: 0 <= i < |c| ==> tots[i] == Low16(|f| - at[i])) && Lens(c, tots)
    requires Refs(c, refs) && (forall i :: 0 <= i < |refs| ==> refs[i] > 0)
    modifies c`len, c`totLen, c`next, c`ref
    ensures k < |c| && at[k] <= newLen <= at[k + 1] && (0 < k ==> at[k] < newLen)
    ensures Linked(c[..k + 1]) && Holds(c[..k + 1], at[..k + 1] + [newLen], f[..newLen])
    ensures Totals(c[..k + 1], at[..k + 1] + [newLen], f[..newLen]) && Refs(c[k + 1..], Dropped(refs[k + 1..]))
  {
    var q, rem;
    q, rem, k := WalkTo(p, newLen, p.totLen - newLen, c, at, f, tots);
    assert Refs(c, refs);
    ReallocRest(q, rem, c, at, f, k, newLen, tots, refs);
  }

  lemma TotalsOf(c: seq<Pbuf>, at: seq<int>, f: Bytes) returns (tots: seq<int>)
    requires |at| == |c| + 1 && Totals(c, at, f)
    ensures |tots| == |c| && (forall i :: 0 <= i < |c| ==> tots[i] == Low16(|f| - at[i])) && Lens(c, tots)
  {
    tots := seq(|c|, i requires 0 <= i < |c| => Low16(|f| - at[i]));
    forall i | 0 <= i < |c| ensures c[i].totLen == tots[i] { assert c[i].totLen == Low16(|f| - at[i]); }
  }

  method ReallocRest(q: Pbuf, rem: nat, ghost c: seq<Pbuf>, ghost at: seq<int>, ghost f: Bytes, ghost k: nat,
                     ghost n: nat, ghost tots: seq<int>, ghost refs: seq<int>)
    requires Linked(c) && Holds(c, at, f) && k < |c| && q == c[k]
    requires Refs(c, refs) && (forall i :: 0 <= i < |refs| ==> refs[i] > 0)
    requires at[k] + rem == n <= at[k + 1] && |f| < 0x1_0000
    requires |tots| == |c| && (forall i :: 0 <= i < |c| ==> tots[i] == Low16(|f| - at[i]))
    requires Lens(c, Shrunk(tots, |f| - n, k))
    modifies q`len, q`totLen, q`next, c[k + 1..]`ref
    ensures Linked(c[..k + 1]) && Holds(c[..k + 1], at[..k + 1] + [n], f[..n])
    ensures Totals(c[..k + 1], at[..k + 1] + [n], f[..n]) && Refs(c[k + 1..], Dropped(refs[k + 1..]))
  {
    PieceIs(c, at, f, k);
    HeadPiece(q, at[k], at[k + 1], f, rem);
    TruncateKept(q, rem, c, at, f, k, n, tots, refs);
    CutHolds(c, at, f, k, n, tots);
  }

  /** Truncate leaves the pbufs before the k-th alone. */
  method TruncateKept(q: Pbuf, rem: nat, ghost c: seq<Pbuf>, ghost at: seq<int>, ghost f: Bytes, ghost k: nat,
                      ghost n: nat, ghost tots: seq<int>, ghost refs: seq<int>)
    requires Linked(c) && Holds(c, at, f) && k < |c| && q == c[k]
    requires Refs(c, refs) && (forall i :: 0 <= i < |refs| ==> refs[i] > 0)
    requires Lens(c, Shrunk(tots, |f| - n, k)) && |tots| == |c|
    modifies q`len, q`totLen, q`next, c[k + 1..]`ref
    ensures q.len == rem && q.totLen == rem
    ensures Linked(c[..k + 1]) && Refs(c[k + 1..], Dropped(refs[k + 1..]))
    ensures forall i {:trigger PieceAt(c[i], at, i, f)} :: 0 <= i < k ==> PieceAt(c[i], at, i, f)
    ensures forall i {:trigger tots[i]} :: 0 <= i < k ==> c[i].totLen == Low16(tots[i] - (|f| - n))
  {
    Truncate(q, rem, c, k, refs);
    forall i | 0 <= i < k ensures PieceAt(c[i], at, i, f) && c[i].totLen == Low16(tots[i] - (|f| - n)) {
      assert c[i] != c[k];
      assert old(PieceAt(c[i], at, i, f)) && old(c[i].totLen) == Shrunk(tots, |f| - n, k)[i];
    }
  }

  // ----- allocating

  /** How many pool pbufs hold n bytes, if the first has room for `room` and the others for
      `size`. */
  function Needed(n: nat, room: nat, size: nat): (k: nat)
    requires 0 < room && 0 < size
    ensures 1 <= k && (n > room ==> n <= room + (k - 1) * size) && (k > 1 ==> room + (k - 2) * size < n)
    decreases n
  {
    if n <= room then 1 else 1 + Needed(n - room, size, size)
  }

  ghost predicate Pieces(c: seq<Pbuf>, at: seq<int>, f: Bytes)
    reads c`len, Arrays(c)
  {
    |at| == |c| + 1 && forall i {:trigger PieceAt(c[i], at, i, f)} :: 0 <= i < |c| ==> PieceAt(c[i], at, i, f)
  }

  /** Nobody else knows of the pbufs. */
  ghost predicate Own(c: seq<Pbuf>)
    reads c`ref
  {
    forall i {:trigger c[i].ref} :: 0 <= i < |c| ==> c[i].ref == 1
  }

  /** What the pbufs are that pbuf_alloc has taken so far. */
  ghost predicate Filled(c: seq<Pbuf>, at: seq<int>, f: Bytes)
    reads c`len, c`totLen, c`ref, Arrays(c)
  {
    |at| == |c| + 1 && at[|c|] <= |f| && Cuts(at, at[|c|]) && Totals(c, at, f) && Pieces(c, at, f) && Own(c)
  }

  lemma FilledOneMore(c: seq<Pbuf>, q: Pbuf, at: seq<int>, f: Bytes)
    requires Filled(c, at, f) && at[|c|] + q.len <= |f|
    requires q.ref == 1 && q.totLen == Low16(|f| - at[|c|]) && Piece(q, at[|c|], at[|c|] + q.len, f)
    ensures Filled(c + [q], at + [at[|c|] + q.len], f)
  {
    var n := at[|c|] + q.len;
    PiecesOneMore(c, q, at, f, n);
    TotalsOneMore(c, q, at, f, n);
    OwnOneMore(c, q);
  }

  lemma PiecesOneMore(c: seq<Pbuf>, q: Pbuf, at: seq<int>, f: Bytes, n: int)
    requires Pieces(c, at, f) && Piece(q, at[|c|], n, f)
    ensures Pieces(c + [q], at + [n], f)
  {
    var d, bt := c + [q], at + [n];
    forall i | 0 <= i < |d| ensures PieceAt(d[i], bt, i, f) {
      if i < |c| {
        var holds := PieceAt(c[i], at, i, f);
        assert holds;
      }
    }
  }

  lemma TotalsOneMore(c: seq<Pbuf>, q: Pbuf, at: seq<int>, f: Bytes, n: int)
    requires |at| == |c| + 1 && Totals(c, at, f) && q.totLen == Low16(|f| - at[|c|])
    ensures Totals(c + [q], at + [n], f)
  {
    var d, bt := c + [q], at + [n];
    forall i | 0 <= i < |d| ensures d[i].totLen == Low16(|f| - bt[i]) {
      assert i < |c| ==> c[i].totLen == Low16(|f| - at[i]);
    }
  }

  lemma OwnOneMore(c: seq<Pbuf>, q: Pbuf)
    requires Own(c) && q.ref == 1
    ensures Own(c + [q])
  {
    var d := c + [q];
    forall i | 0 <= i < |d| ensures d[i].ref == 1 { assert i < |c| ==> c[i].ref == 1; }
  }

  /** One more pbuf at the end of the chain. */
  method Append(last: Pbuf?, q: Pbuf, ghost c: seq<Pbuf>)
    requires Linked(c) && last == (if c == [] then null else c[|c| - 1]) && Disjoint(c, [q]) && q.next == null
    modifies c`next
    ensures Linked(c + [q])
  {
    assert [q][0] == q;
    if last == null {
      assert c + [q] == [q];
    } else {
      last.next := q;
      forall i | 0 <= i < |c| ensures c[i].next == if i + 1 < |c| then c[i + 1] else q {
        if i + 1 < |c| { assert c[i] != c[|c| - 1] && old(c[i].next) == At(c, i + 1); }
      }
      LinkedJoined(c, [q]);
    }
  }

  /** One pbuf from the pool, with room for `space` bytes, for what remains. */
  method AddPbuf(last: Pbuf?, rem: nat, space: nat, ghost c: seq<Pbuf>, ghost at: seq<int>, ghost f: Bytes)
    returns (q: Pbuf, ghost g: Bytes)
    requires Linked(c) && Filled(c, at, f) && last == (if c == [] then null else c[|c| - 1])
    requires at[|c|] + rem == |f| < 0x1_0000
    modifies c`next
    ensures fresh(q) && fresh(q.payload) && q.len == Min(rem, space) && |g| == |f|
    ensures Linked(c + [q]) && Filled(c + [q], at + [at[|c|] + q.len], g)
  {
    q := new Pbuf(space, rem, Min(rem, space));
    Append(last, q, c);
    g := FilledWith(c, q, at, f);
  }

  lemma FilledWith(c: seq<Pbuf>, q: Pbuf, at: seq<int>, f: Bytes) returns (g: Bytes)
    requires Filled(c, at, f) && q.len <= q.payload.Length && at[|c|] + q.len <= |f|
    requires q.ref == 1 && q.totLen == Low16(|f| - at[|c|])
    ensures |g| == |f| && Filled(c + [q], at + [at[|c|] + q.len], g)
  {
    var n, to := at[|c|], at[|c|] + q.len;
    g := f[..n] + q.payload[..q.len] + f[to..];
    assert g[n..to] == q.payload[..q.len] && g[..n] == f[..n];
    FilledElse(c, at, f, g);
    FilledOneMore(c, q, at, g);
  }

  /** pbuf_alloc from a pool that has `avail` pbufs left, with room for `room` bytes in the
      first and `size` in the others.  It gives a chain of exactly as many pbufs as are
      needed; or none, if the pool runs out, and then every pbuf taken is released. */
  method AllocPool(length: nat, room: nat, size: nat, avail: nat)
    returns (p: Pbuf?, ghost c: seq<Pbuf>, ghost at: seq<int>, ghost f: Bytes)
    requires 0 < room && 0 < size && length < 0x1_0000
    ensures fresh(c) && (p == null <==> avail < Needed(length, room, size))
    ensures p != null ==> p == At(c, 0) && |f| == length && |c| == Needed(length, room, size)
    ensures p != null ==> Linked(c) && Holds(c, at, f) && Filled(c, at, f)
    ensures p == null ==> |c| == avail && (forall i :: 0 <= i < |c| ==> c[i].ref == 0)
  {
    var last: Pbuf?, rem, space, left := null, length, room, avail;
    p, c, at, f := null, [], [0], seq(length, _ => 0);
    while true
      invariant Linked(c) && Filled(c, at, f) && fresh(c) && p == At(c, 0)
      invariant last == (if c == [] then null else c[|c| - 1])
      invariant at[|c|] + rem == length == |f| && 0 < space && (c != [] ==> 0 < rem)
      invariant left == avail - |c|
      invariant Needed(length, room, size) == |c| + Needed(rem, space, size)
      decreases rem + (if c == [] then 1 else 0)
    {
      if left == 0 {
        if p != null { DropAll(p, c, at, f); }
        p := null;
        return;
      }
      var q;
      q, f := AddPbuf(last, rem, space, c, at, f);
      if p == null { p := q; }
      last, at, c := q, at + [at[|c|] + q.len], c + [q];
      rem, space, left := rem - q.len, size, left - 1;
      if rem == 0 { break; }
    }
  }

  /** Only the bytes in the pbufs so far matter. */
  lemma FilledElse(c: seq<Pbuf>, at: seq<int>, f: Bytes, g: Bytes)
    requires Filled(c, at, f) && |g| == |f| && g[..at[|c|]] == f[..at[|c|]]
    ensures Filled(c, at, g)
  {
    forall i | 0 <= i < |c| ensures PieceAt(c[i], at, i, g) {
      var holds := PieceAt(c[i], at, i, f);
      assert holds;
      SubSlice(f, at[i], at[i + 1], at[|c|]);
      SubSlice(g, at[i], at[i + 1], at[|c|]);
    }
  }

  /** A chain nobody else knows of is released as a whole. */
  method DropAll(p: Pbuf, ghost c: seq<Pbuf>, ghost at: seq<int>, ghost f: Bytes)
    requires Linked(c) && Filled(c, at, f) && p == At(c, 0)
    modifies c`ref
    ensures forall i :: 0 <= i < |c| ==> c[i].ref == 0
  {
    ghost var ones := seq(|c|, i => 1);
    LeadingIs(ones, |c|);
    var gone := Free(p, c, ones);
    forall i | 0 <= i < |c| ensures c[i].ref == 0 { assert c[i].ref == Dropped(ones)[i]; }
  }
}
