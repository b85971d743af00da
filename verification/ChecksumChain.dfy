/** Checksums over chains of buffers, with a pseudo-header, and kept while data is
    copied into a segment.  The reference is always the sum over the flat bytes. */
module ChecksumChain {
  import opened SeqNum
  import opened Checksum

  /** The bytes of a chain, cut into pieces in any way. */
  function Flat(chain: seq<seq<Byte>>): seq<Byte> {
    if chain == [] then [] else chain[0] + Flat(chain[1..])
  }

  lemma {:induction false} FlatSnoc(chain: seq<seq<Byte>>, k: nat)
    requires k < |chain|
    ensures Flat(chain[..k + 1]) == Flat(chain[..k]) + chain[k]
    decreases k
  {
    if k == 0 {
      assert chain[..1] == [chain[0]] && chain[..1][1..] == [];
      assert chain[0] + [] == [] + chain[0];
    } else {
      FlatSnoc(chain[1..], k - 1);
      assert chain[..k + 1][1..] == chain[1..][..k] && chain[..k][1..] == chain[1..][..k - 1];
      assert chain[1..][k - 1] == chain[k];
      assert chain[0] + (Flat(chain[1..][..k - 1]) + chain[k]) == chain[0] + Flat(chain[1..][..k - 1]) + chain[k];
    }
  }

  /** A sum in the byte order of an odd or an even offset. */
  function Facing(swapped: bool, n: nat): nat {
    if swapped then 0x100 * n else n
  }

  /** Adding the next piece: its checksum is folded in, in the order of its offset. */
  lemma NextPiece(acc: nat, base: nat, done: seq<Byte>, piece: seq<Byte>, s: bool)
    requires s == (|done| % 2 == 1) && acc == Canon(Facing(s, base + Words(done)))
    ensures FoldU32(acc + Canon(Words(piece))) == Canon(Facing(s, base + Words(done + piece)))
  {
    ConcatBase(base, done, piece, s);
    NextSum(acc, s, base + Words(done), Words(piece), base + Words(done + piece));
  }

  lemma NextSum(acc: nat, s: bool, x: nat, v: nat, y: nat)
    requires acc == Canon(Facing(s, x)) && Canon(x + Facing(s, v)) == Canon(y)
    ensures FoldU32(acc + Canon(v)) == Canon(Facing(s, y))
  {
    AddFacing(acc, s, x, v);
    FacingSame(s, x + Facing(s, v), y);
  }

  lemma FoldSum(x: nat, y: nat)
    ensures FoldU32(Canon(x) + Canon(y)) == Canon(x + y)
  {
    FoldCanon(Canon(x) + Canon(y));
    CanonAdd(x, Canon(y));
    CanonAdd(x, y);
  }

  lemma ConcatBase(base: nat, done: seq<Byte>, piece: seq<Byte>, s: bool)
    requires s == (|done| % 2 == 1)
    ensures Canon(base + Words(done) + Facing(s, Words(piece))) == Canon(base + Words(done + piece))
  {
    var y: nat := Words(done) + Facing(s, Words(piece));
    WordsConcat(done, piece);
    CanonPrefix(base, Words(done + piece), y);
    assert base + Words(done) + Facing(s, Words(piece)) == base + y;
  }

  lemma AddFacing(acc: nat, s: bool, x: nat, v: nat)
    requires acc == Canon(Facing(s, x))
    ensures FoldU32(acc + Canon(v)) == Canon(Facing(s, x + Facing(s, v)))
  {
    FoldSum(Facing(s, x), v);
    FacingSum(s, x, v);
  }

  lemma FacingSame(s: bool, x: nat, y: nat)
    requires Canon(x) == Canon(y)
    ensures Canon(Facing(s, x)) == Canon(Facing(s, y))
  {
    CanonSwap(x);
    CanonSwap(y);
  }

  lemma FacingFlip(s: bool, x: nat)
    ensures Swap(Canon(Facing(s, x))) == Canon(Facing(!s, x))
  {
    CanonSwap(x);
    CanonSwap(0x100 * x);
  }

  /** In swapped order, a piece at an odd offset counts as it stands. */
  lemma FacingSum(s: bool, x: nat, v: nat)
    ensures Canon(Facing(s, x + Facing(s, v))) == Canon(Facing(s, x) + v)
  {
    if s {
      ModWrap(0x100 * x + v, v);
      CanonSame(0x100 * (x + 0x100 * v), 0x100 * x + v);
    }
  }

  // ----- chains

  /** One round of the loops over a chain; `flip` tells that the buffer has an odd
      length. */
  method AddPiece(acc: U16, piece: seq<Byte>, flip: bool, ghost swapped: bool, ghost base: nat, ghost done: seq<Byte>)
      returns (r: U16)
    requires |piece| <= 0x20000
    requires swapped == (|done| % 2 == 1) && acc == Canon(Facing(swapped, base + Words(done)))
    ensures r == Canon(Facing(if flip then !swapped else swapped, base + Words(done + piece)))
  {
    NextPiece(acc, base, done, piece, swapped);
    FacingFlip(swapped, base + Words(done + piece));
    var sum := Chksum2(piece, 0);
    r := FoldU32(acc + sum);
    if flip {
      r := Swap(r);
    }
  }

  /** The loop of inet_chksum_pbuf, inet_cksum_pseudo_base and
      inet_cksum_pseudo_partial_base: the first `limit` bytes of a chain are summed up
      from `init` on. */
  method SumChain(chain: seq<seq<Byte>>, limit: nat, init: U16) returns (acc: U16)
    requires forall i :: 0 <= i < |chain| ==> |chain[i]| < 0x1_0000
    ensures acc == Canon(init + Words(Flat(chain)[..Min(limit, |Flat(chain)|)]))
  {
    acc := init;
    var swapped, left := false, limit;
    var i := 0;
    ghost var done: seq<Byte> := [];
    while i < |chain| && left > 0
      invariant 0 <= i <= |chain| && 0 <= left
      invariant if left > 0 then done == Flat(chain[..i]) && |done| == limit - left && swapped == (|done| % 2 == 1)
                else done == Flat(chain)[..Min(limit, |Flat(chain)|)]
      invariant acc == Canon(Facing(swapped, init + Words(done)))
    {
      var chklen := Min(|chain[i]|, left);
      Prefix(chain, i, done, chklen, limit);
      acc := AddPiece(acc, chain[i][..chklen], |chain[i]| % 2 != 0, swapped, init, done);
      if |chain[i]| % 2 != 0 {
        swapped := !swapped;
      }
      OddTogether(done, chain[i][..chklen]);
      left := left - chklen;
      done := done + chain[i][..chklen];
      i := i + 1;
    }
    assert done == Flat(chain)[..Min(limit, |Flat(chain)|)] by {
      if left > 0 { assert chain[..i] == chain; }
    }
    acc := Unswap(acc, swapped, init + Words(done));
  }

  /** The byte order is put right at the end. */
  method Unswap(acc: U16, swapped: bool, ghost n: nat) returns (r: U16)
    requires acc == Canon(Facing(swapped, n))
    ensures r == Canon(n)
  {
    FacingFlip(swapped, n);
    r := if swapped then Swap(acc) else acc;
  }

  /** The bytes summed up are a prefix of the flat chain. */
  lemma Prefix(chain: seq<seq<Byte>>, i: nat, done: seq<Byte>, n: nat, limit: nat)
    requires i < |chain| && done == Flat(chain[..i]) && |done| < limit && n == Min(|chain[i]|, limit - |done|)
    ensures |done| + n < limit ==> done + chain[i][..n] == Flat(chain[..i + 1])
    ensures |done| + n == limit ==> done + chain[i][..n] == Flat(chain)[..Min(limit, |Flat(chain)|)]
  {
    FlatSnoc(chain, i);
    FlatSplit(chain, i + 1);
  }

  lemma {:induction false} FlatSplit(chain: seq<seq<Byte>>, k: nat)
    requires k <= |chain|
    ensures Flat(chain) == Flat(chain[..k]) + Flat(chain[k..])
    decreases k
  {
    if k == 0 {
      assert chain[..0] == [] && chain[0..] == chain;
    } else {
      FlatSplit(chain[1..], k - 1);
      assert chain[..k][1..] == chain[1..][..k - 1] && chain[1..][k - 1..] == chain[k..];
      assert chain[0] + (Flat(chain[1..][..k - 1]) + Flat(chain[k..]))
          == chain[0] + Flat(chain[1..][..k - 1]) + Flat(chain[k..]);
    }
  }

  /** The same loop over a whole chain. */
  method SumAll(chain: seq<seq<Byte>>, init: U16) returns (acc: U16)
    requires forall i :: 0 <= i < |chain| ==> |chain[i]| < 0x1_0000
    ensures acc == Canon(init + Words(Flat(chain)))
  {
    acc := init;
    var swapped := false;
    ghost var done: seq<Byte> := [];
    assert chain[..0] == [];
    for i := 0 to |chain|
      invariant done == Flat(chain[..i]) && swapped == (|done| % 2 == 1)
      invariant acc == Canon(Facing(swapped, init + Words(done)))
    {
      FlatSnoc(chain, i);
      acc := AddPiece(acc, chain[i], |chain[i]| % 2 != 0, swapped, init, done);
      if |chain[i]| % 2 != 0 {
        swapped := !swapped;
      }
      OddTogether(done, chain[i]);
      done := done + chain[i];
    }
    assert chain[..|chain|] == chain;
    acc := Unswap(acc, swapped, init + Words(done));
  }

  /** inet_chksum_pbuf: however the bytes are cut, the checksum is that of all of
      them. */
  method InetChksumPbuf(chain: seq<seq<Byte>>) returns (r: U16)
    requires forall i :: 0 <= i < |chain| ==> |chain[i]| < 0x1_0000
    ensures r == 0xffff - Canon(Words(Flat(chain)))
  {
    var acc := SumAll(chain, 0);
    r := 0xffff - acc;
  }

  // ----- pseudo-headers

  /** What a checksum with pseudo-header covers in front of the data; `addrs` holds
      the addresses in network byte order. */
  function PseudoHeader(addrs: seq<Byte>, proto: Byte, len: U16): seq<Byte> {
    addrs + ([0, proto] + [len / 0x100, len % 0x100])
  }

  lemma PseudoHeaderWords(addrs: seq<Byte>, proto: Byte, len: U16, d: seq<Byte>)
    requires |addrs| % 2 == 0
    ensures Words(PseudoHeader(addrs, proto, len) + d) == Words(addrs) + Swap(proto) + Swap(len) + Words(d)
  {
    var p: seq<Byte> := [0, proto] + [len / 0x100, len % 0x100];
    ProtoWords(proto, len);
    WordsAfterEven(addrs, p);
    WordsAfterEven(addrs + p, d);
  }

  lemma ProtoWords(proto: Byte, len: U16)
    ensures Words([0, proto] + [len / 0x100, len % 0x100]) == Swap(proto) + Swap(len)
  {
    var p: seq<Byte>, l: seq<Byte> := [0, proto], [len / 0x100, len % 0x100];
    assert p[2..] == [] && l[2..] == [];
    WordsAfterEven(p, l);
  }

  method AddHalves(acc: U32, addr: U32) returns (r: U32)
    requires acc + addr % 0x1_0000 + addr / 0x1_0000 < TWO_32
    ensures r == acc + addr % 0x1_0000 + addr / 0x1_0000
  {
    r := Plus(acc, addr % 0x1_0000);
    r := Plus(r, addr / 0x1_0000);
  }

  /** The addresses of a pseudo-header, 32 bits at a time, folded to 16. */
  method FoldAddresses(addrs: seq<Byte>) returns (r: U16)
    requires |addrs| % 4 == 0 && |addrs| <= 32
    ensures r == Canon(Words(addrs))
  {
    var acc: U32, k: nat, n := 0, 0, |addrs| / 4;
    assert addrs[0..] == addrs && 4 * n == |addrs|;
    WordBounds(addrs);
    while k < n
      invariant k <= n && acc + Words(addrs[4 * k..]) == Words(addrs)
    {
      Halves(addrs, 4 * k);
      var addr := LongWord(addrs, 4 * k);
      acc := AddHalves(acc, addr);
      k := k + 1;
    }
    r := Fold(acc);
  }

  lemma Halves(b: seq<Byte>, i: nat)
    requires i + 3 < |b|
    ensures var a: nat := LongWord(b, i); a % 0x1_0000 + a / 0x1_0000 + Words(b[i + 4..]) == Words(b[i..])
  {
    NextWord(b, i);
    NextWord(b, i + 2);
  }

  /** inet_chksum_pseudo and ip6_chksum_pseudo. */
  method ChksumPseudo(chain: seq<seq<Byte>>, proto: Byte, len: U16, addrs: seq<Byte>) returns (r: U16)
    requires forall i :: 0 <= i < |chain| ==> |chain[i]| < 0x1_0000
    requires |addrs| % 4 == 0 && |addrs| <= 32
    ensures r == 0xffff - Canon(Words(PseudoHeader(addrs, proto, len) + Flat(chain)))
  {
    var acc := FoldAddresses(addrs);
    acc := SumAll(chain, acc);
    PseudoHeaderWords(addrs, proto, len, Flat(chain));
    r := AddProto(acc, proto, len, Words(addrs), Words(Flat(chain)));
  }

  /** The partial form: only the first `limit` bytes of the chain count. */
  method ChksumPseudoPartial(chain: seq<seq<Byte>>, proto: Byte, len: U16, limit: nat, addrs: seq<Byte>)
    returns (r: U16)
    requires forall i :: 0 <= i < |chain| ==> |chain[i]| < 0x1_0000
    requires |addrs| % 4 == 0 && |addrs| <= 32
    ensures var d := Flat(chain)[..Min(limit, |Flat(chain)|)];
      r == 0xffff - Canon(Words(PseudoHeader(addrs, proto, len) + d))
  {
    ghost var d := Flat(chain)[..Min(limit, |Flat(chain)|)];
    var acc := FoldAddresses(addrs);
    acc := SumChain(chain, limit, acc);
    PseudoHeaderWords(addrs, proto, len, d);
    r := AddProto(acc, proto, len, Words(addrs), Words(d));
  }

  /** Protocol and length are added last. */
  method AddProto(acc: U16, proto: Byte, len: U16, ghost a: nat, ghost d: nat) returns (r: U16)
    requires acc == Canon(Canon(a) + d)
    ensures r == 0xffff - Canon(a + Swap(proto) + Swap(len) + d)
  {
    var sum: U32 := acc + Swap(proto) + Swap(len);
    CanonAdd(a, d);
    CanonAdd(a + d, Swap(proto) + Swap(len));
    r := Fold(sum);
    r := 0xffff - r;
  }

  // ----- the checksum field

  /** Writing the checksum into a zeroed field at an even offset makes the checksum of
      the whole 0. */
  lemma FieldMakesZero(b: seq<Byte>, k: nat)
    requires k % 2 == 0 && k + 1 < |b| && b[k] == 0 && b[k + 1] == 0
    ensures 0xffff - Canon(Words(WithField(b, k, 0xffff - Canon(Words(b))))) == 0
  {
    var c: nat := 0xffff - Canon(Words(b));
    FieldWords(b, k, 0xffff - Canon(Words(b)));
    CanonAdd(Words(b), c);
    assert Canon(Words(b)) as int + c == 0xffff;
  }

  /** A 16-bit value stored in host order. */
  function WithField(b: seq<Byte>, k: nat, c: U16): seq<Byte>
    requires k + 1 < |b|
  {
    b[k := c % 0x100][k + 1 := c / 0x100]
  }

  lemma {:induction false} FieldWords(b: seq<Byte>, k: nat, c: U16)
    requires k % 2 == 0 && k + 1 < |b| && b[k] == 0 && b[k + 1] == 0
    ensures Words(WithField(b, k, c)) == Words(b) + c as int
    decreases k
  {
    if k == 0 {
      assert WithField(b, k, c)[2..] == b[2..];
    } else {
      FieldWords(b[2..], k - 2, c);
      assert WithField(b, k, c)[2..] == WithField(b[2..], k - 2, c);
    }
  }

  // ----- checksum on copy

  /** The running sum of a segment's data and its byte order. */
  datatype SegSum = SegSum(chksum: U16, swapped: bool)

  predicate Holds(s: SegSum, data: seq<Byte>) {
    s.swapped == (|data| % 2 == 1) && s.chksum == Canon(Facing(s.swapped, Words(data)))
  }

  /** tcp_seg_add_chksum */
  method SegAddChksum(chksum: U16, len: nat, s: SegSum, ghost data: seq<Byte>, ghost piece: seq<Byte>)
    returns (r: SegSum)
    requires Holds(s, data) && chksum == Canon(Words(piece)) && len == |piece|
    ensures Holds(r, data + piece)
  {
    NextSegPiece(s, data, piece);
    var helper := FoldU32(s.chksum + chksum);
    if len % 2 != 0 {
      FacingFlip(s.swapped, Words(data + piece));
      r := SegSum(Swap(helper), !s.swapped);
    } else {
      r := SegSum(helper, s.swapped);
    }
  }

  lemma NextSegPiece(s: SegSum, data: seq<Byte>, piece: seq<Byte>)
    requires Holds(s, data)
    ensures FoldU32(s.chksum + Canon(Words(piece))) == Canon(Facing(s.swapped, Words(data + piece)))
    ensures (|data + piece| % 2 == 1) == (s.swapped != (|piece| % 2 == 1))
  {
    OddTogether(data, piece);
    NextPiece(s.chksum, 0, data, piece, s.swapped);
  }

  lemma OddTogether(a: seq<Byte>, b: seq<Byte>)
    ensures (|a + b| % 2 == 1) <==> ((|a| % 2 == 1) != (|b| % 2 == 1))
  {
  }

  /** Data chained to a segment: its own sum is built first, turned back, and added. */
  method SegConcatChksum(piece: seq<Byte>, s: SegSum, ghost data: seq<Byte>) returns (r: SegSum)
    requires Holds(s, data) && |piece| <= 0x20000
    ensures Holds(r, data + piece)
  {
    var chksum := Chksum2(piece, 0);
    assert [] + piece == piece;
    var c := SegAddChksum(chksum, |piece|, SegSum(0, false), [], piece);
    var plain := Unswap(c.chksum, c.swapped, Words(piece));
    r := SegAddChksum(plain, |piece|, s, data, piece);
  }

  /** A segment filled by any sequence of appends, directly or chained. */
  method BuildSegment(pieces: seq<seq<Byte>>, chained: seq<bool>) returns (s: SegSum)
    requires |chained| == |pieces| && forall i :: 0 <= i < |pieces| ==> |pieces[i]| < 0x1_0000
    ensures Holds(s, Flat(pieces))
  {
    s := SegSum(0, false);
    assert pieces[..0] == [];
    for i := 0 to |pieces|
      invariant Holds(s, Flat(pieces[..i]))
    {
      FlatSnoc(pieces, i);
      if chained[i] {
        s := SegConcatChksum(pieces[i], s, Flat(pieces[..i]));
      } else {
        var chksum := Chksum2(pieces[i], 0);
        s := SegAddChksum(chksum, |pieces[i]|, s, Flat(pieces[..i]), pieces[i]);
      }
    }
    assert pieces[..|pieces|] == pieces;
  }

  /** tcp_output_segment: the sum kept for the data and the partial checksum of the
      header give exactly what the slow path computes over header and data. */
  method OutputChksum(header: seq<Byte>, pieces: seq<seq<Byte>>, s: SegSum, proto: Byte, len: U16, addrs: seq<Byte>)
      returns (fast: U16, slow: U16)
    requires |header| < 0x1_0000 && |header| % 2 == 0 && |addrs| % 4 == 0 && |addrs| <= 32
    requires forall i :: 0 <= i < |pieces| ==> |pieces[i]| < 0x1_0000
    requires Holds(s, Flat(pieces))
    ensures fast == slow == 0xffff - Canon(Words(PseudoHeader(addrs, proto, len) + (header + Flat(pieces))))
  {
    var chain := [header] + pieces;
    HeaderFirst(header, pieces);
    slow := ChksumPseudo(chain, proto, len, addrs);
    var partial := ChksumPseudoPartial(chain, proto, len, |header|, addrs);
    var chksum := Unswap(s.chksum, s.swapped, Words(Flat(pieces)));
    fast := AddPartial(partial, chksum, PseudoHeader(addrs, proto, len), header, Flat(pieces));
  }

  lemma HeaderFirst(header: seq<Byte>, pieces: seq<seq<Byte>>)
    ensures var f := Flat([header] + pieces);
      f == header + Flat(pieces) && |header| <= |f| && f[..|header|] == header
  {
    assert ([header] + pieces)[1..] == pieces;
  }

  /** The partial checksum of the header and the sum of the data put together. */
  method AddPartial(partial: U16, chksum: U16, ghost pseudo: seq<Byte>, ghost header: seq<Byte>, ghost d: seq<Byte>)
    returns (fast: U16)
    requires |pseudo + header| % 2 == 0
    requires partial == 0xffff - Canon(Words(pseudo + header)) && chksum == Canon(Words(d))
    ensures fast == 0xffff - Canon(Words(pseudo + (header + d)))
  {
    var acc: U32 := (0xffff - partial) as int + chksum as int;
    HeaderPlusData(pseudo + header, d);
    assert pseudo + header + d == pseudo + (header + d);
    fast := 0xffff - FoldU32(acc);
  }

  lemma HeaderPlusData(h: seq<Byte>, d: seq<Byte>)
    requires |h| % 2 == 0
    ensures FoldU32(Canon(Words(h)) + Canon(Words(d))) == Canon(Words(h + d))
  {
    WordsAfterEven(h, d);
    FoldSum(Words(h), Words(d));
  }
}
