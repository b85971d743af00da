/** The Internet checksum (RFC 1071) on a little-endian host: the sum that it stands for, and
    that the three ways to compute it agree. */
module Checksum {
  import opened SeqNum

  // ----- the reference: a sum of words with end-around carry

  /** The 16-bit words of `b` in host order, summed up; an odd byte at the end is
      padded with zero. */
  function Words(b: seq<Byte>): nat {
    if |b| == 0 then 0
    else if |b| == 1 then b[0]
    else b[0] + 0x100 * b[1] + Words(b[2..])
  }

  /** The one's complement value of a sum: every carry out of 16 bits comes back as
      a one, so that only an empty sum is 0. */
  function Canon(n: nat): (r: U16)
    ensures r == 0 <==> n == 0
  {
    if n <= 0xffff then n else Canon(n - 0xffff)
  }

  function FoldU32(x: nat): nat {
    x / 0x1_0000 + x % 0x1_0000
  }

  /** SWAP_BYTES_IN_WORD, and lwip_htons. */
  function Swap(x: U16): U16 {
    x % 0x100 * 0x100 + x / 0x100
  }

  // ----- arithmetic of canonical values

  /** The canonical value is the residue modulo 65535. */
  lemma {:induction false} CanonMod(n: nat)
    ensures Canon(n) % 0xffff == n % 0xffff
  {
    if n > 0xffff { CanonMod(n - 0xffff); }
  }

  /** A 16-bit value is the canonical one if it has the residue and the zero. */
  lemma CanonIs(v: nat, n: nat)
    requires v <= 0xffff && v % 0xffff == n % 0xffff && (v == 0 <==> n == 0)
    ensures v == Canon(n)
  {
    CanonMod(n);
  }

  lemma CanonSame(a: nat, b: nat)
    requires a % 0xffff == b % 0xffff && (a == 0 <==> b == 0)
    ensures Canon(a) == Canon(b)
  {
    CanonMod(b);
    CanonIs(Canon(b), a);
  }

  lemma ModIs(x: int, q: int, r: int)
    requires x == q * 0xffff + r && 0 <= r < 0xffff
    ensures x % 0xffff == r
  {
  }

  lemma ModAdd(a: nat, b: nat, c: nat)
    requires a % 0xffff == b % 0xffff
    ensures (a + c) % 0xffff == (b + c) % 0xffff
  {
    var r := a % 0xffff + c;
    ModIs(a + c, a / 0xffff + r / 0xffff, r % 0xffff);
    ModIs(b + c, b / 0xffff + r / 0xffff, r % 0xffff);
  }

  lemma ModScale(a: nat, b: nat)
    requires a % 0xffff == b % 0xffff
    ensures (0x100 * a) % 0xffff == (0x100 * b) % 0xffff
  {
    var r := 0x100 * (a % 0xffff);
    ModIs(0x100 * a, 0x100 * (a / 0xffff) + r / 0xffff, r % 0xffff);
    ModIs(0x100 * b, 0x100 * (b / 0xffff) + r / 0xffff, r % 0xffff);
  }

  /** 65536 counts for 1. */
  lemma ModWrap(n: nat, k: nat)
    ensures (n + 0xffff * k) % 0xffff == n % 0xffff
  {
    ModIs(n + 0xffff * k, n / 0xffff + k, n % 0xffff);
  }

  /** Canonical values may be added at any point. */
  lemma CanonAdd(a: nat, b: nat)
    ensures Canon(Canon(a) + b) == Canon(a + b)
    ensures Canon(a + Canon(b)) == Canon(a + b)
  {
    CanonMod(a);
    CanonMod(b);
    ModAdd(Canon(a), a, b);
    CanonSame(Canon(a) + b, a + b);
    ModAdd(Canon(b), b, a);
    CanonSame(a + Canon(b), a + b);
  }

  lemma CanonPrefix(h: nat, u: nat, v: nat)
    requires Canon(u) == Canon(v)
    ensures Canon(h + u) == Canon(h + v)
  {
    CanonAdd(h, u);
    CanonAdd(h, v);
  }

  lemma CanonSwap(n: nat)
    ensures Swap(Canon(n)) == Canon(0x100 * n)
    ensures Canon(0x100 * (0x100 * n)) == Canon(n)
    ensures Canon(0x100 * Canon(n)) == Canon(0x100 * n)
  {
    CanonMod(n);
    var v: nat := Canon(n);
    var s: nat := Swap(Canon(n));
    assert 0x100 * v == s + 0xffff * (v / 0x100);
    ModWrap(s, v / 0x100);
    ModScale(v, n);
    CanonIs(s, 0x100 * n);
    ModWrap(n, n);
    CanonSame(0x100 * (0x100 * n), n);
    CanonSame(0x100 * v, 0x100 * n);
  }

  lemma FoldCanon(x: nat)
    ensures x <= 0x1_fffe ==> FoldU32(x) == Canon(x)
    ensures x < TWO_32 ==> FoldU32(x) <= 0x1_fffe && FoldU32(FoldU32(x)) == Canon(x)
    ensures Canon(FoldU32(x)) == Canon(x)
  {
    FoldMod(x);
    FoldMod(FoldU32(x));
    CanonSame(FoldU32(x), x);
    if x <= 0x1_fffe { CanonIs(FoldU32(x), x); }
    if x < TWO_32 { CanonIs(FoldU32(FoldU32(x)), x); }
  }

  lemma FoldMod(x: nat)
    ensures FoldU32(x) % 0xffff == x % 0xffff && (FoldU32(x) == 0 <==> x == 0)
  {
    ModWrap(FoldU32(x), x / 0x1_0000);
  }

  // ----- sums of pieces

  /** What a sum counts for behind `n` bytes: an odd offset swaps its bytes. */
  function Shifted(n: nat, v: nat): nat {
    if n % 2 == 0 then v else 0x100 * v
  }

  /** A byte in front shifts the words behind it. */
  lemma {:induction false} WordsShift(x: Byte, r: seq<Byte>)
    ensures Canon(Words([x] + r)) == Canon(x + 0x100 * Words(r))
    decreases |r|
  {
    if r == [] {
      assert [x] + r == [x];
    } else {
      var t := r[1..];
      assert ([x] + r)[2..] == t && r == [r[0]] + t;
      WordsShift(r[0], t);
      var x0: nat, r0: nat, y, w := x, r[0], Words(r), Words(t);
      assert Words([x] + r) == x0 + 0x100 * r0 + w;
      ShiftTwice(x0, r0, y, w);
    }
  }

  lemma ShiftTwice(x: nat, r: nat, y: nat, w: nat)
    requires Canon(y) == Canon(r + 0x100 * w)
    ensures Canon(x + 0x100 * r + w) == Canon(x + 0x100 * y)
  {
    CanonSwap(y);
    CanonSwap(r + 0x100 * w);
    CanonAdd(x, 0x100 * y);
    CanonAdd(x, 0x100 * (r + 0x100 * w));
    ModWrap(x + 0x100 * r + w, w);
    CanonSame(x + 0x100 * (r + 0x100 * w), x + 0x100 * r + w);
  }

  /** The sum of a concatenation, whatever the length of its first part. */
  lemma {:induction false} WordsConcat(a: seq<Byte>, b: seq<Byte>)
    ensures Canon(Words(a + b)) == Canon(Words(a) + Shifted(|a|, Words(b)))
    decreases |a|
  {
    if |a| == 0 {
      assert a + b == b;
    } else if |a| == 1 {
      assert a + b == [a[0]] + b;
      WordsShift(a[0], b);
    } else {
      WordsConcat(a[2..], b);
      WordsFront(a, b);
      CanonPrefix(a[0] as int + 0x100 * a[1] as int, Words(a[2..] + b), Words(a[2..]) + Shifted(|a|, Words(b)));
    }
  }

  lemma WordsFront(a: seq<Byte>, b: seq<Byte>)
    requires |a| > 1
    ensures Words(a + b) == a[0] as int + 0x100 * a[1] as int + Words(a[2..] + b)
  {
    assert (a + b)[2..] == a[2..] + b;
  }

  /** Behind whole words the sum simply goes on. */
  lemma {:induction false} WordsAfterEven(a: seq<Byte>, b: seq<Byte>)
    requires |a| % 2 == 0
    ensures Words(a + b) == Words(a) + Words(b)
    decreases |a|
  {
    if |a| == 0 {
      assert a + b == b;
    } else {
      WordsAfterEven(a[2..], b);
      WordsFront(a, b);
    }
  }

  // ----- the three algorithms of lwip_standard_chksum

  /** The words in network order, as the first algorithm reads them. */
  function NetWords(b: seq<Byte>): nat {
    if |b| == 0 then 0
    else if |b| == 1 then 0x100 * b[0]
    else 0x100 * b[0] + b[1] + NetWords(b[2..])
  }

  lemma {:induction false} WordBounds(b: seq<Byte>)
    ensures Words(b) <= 0xffff * ((|b| + 1) / 2) && NetWords(b) <= 0xffff * ((|b| + 1) / 2)
    ensures |b| % 2 == 1 ==> NetWords(b) <= 0xffff * (|b| / 2) + 0xff00
    decreases |b|
  {
    if |b| > 1 { WordBounds(b[2..]); }
  }

  /** The first algorithm never overflows its 32-bit sum on any buffer of a given
      length exactly up to 0x20002 bytes. */
  lemma NoOverflowIff(len: nat)
    ensures (forall b: seq<Byte> :: |b| == len ==> NetWords(b) < TWO_32) <==> len <= 0x20002
  {
    if len <= 0x20002 {
      forall b: seq<Byte> | |b| == len ensures NetWords(b) < TWO_32 { WordBounds(b); }
    } else {
      var b := seq(len, i => 0xff);
      AllOnes(b);
      assert |b| == len && NetWords(b) >= TWO_32;
    }
  }

  lemma {:induction false} AllOnes(b: seq<Byte>)
    requires forall i :: 0 <= i < |b| ==> b[i] == 0xff
    ensures NetWords(b) == 0xffff * (|b| / 2) + if |b| % 2 == 1 then 0xff00 else 0
    decreases |b|
  {
    if |b| > 1 { AllOnes(b[2..]); }
  }

  /** Swapping a word twice around the end-around carry. */
  lemma CanonTwist(x: nat, y: nat, w: nat)
    ensures Canon(0x100 * (0x100 * x + y + w)) == Canon(x + 0x100 * y + 0x100 * w)
  {
    ModWrap(x + 0x100 * y + 0x100 * w, x);
    CanonSame(0x100 * (0x100 * x + y + w), x + 0x100 * y + 0x100 * w);
  }

  /** Byte order does not matter, up to a swap (RFC 1071, section 2 (B)). */
  lemma {:induction false} NetWordsSwap(b: seq<Byte>)
    ensures Canon(0x100 * NetWords(b)) == Canon(Words(b))
    decreases |b|
  {
    if |b| == 1 {
      CanonTwist(b[0], 0, 0);
    } else if |b| > 1 {
      NetWordsSwap(b[2..]);
      CanonTwist(b[0], b[1], NetWords(b[2..]));
      CanonPrefix(Word(b, 0), 0x100 * NetWords(b[2..]), Words(b[2..]));
    }
  }

  /** A 16-bit load. */
  function Word(b: seq<Byte>, i: nat): nat
    requires i + 1 < |b|
  {
    b[i] as int + 0x100 * b[i + 1] as int
  }

  lemma NextWord(b: seq<Byte>, i: nat)
    requires i < |b|
    ensures i + 1 < |b| ==> Words(b[i..]) == Word(b, i) + Words(b[i + 2..])
    ensures i + 1 < |b| ==> NetWords(b[i..]) == 0x100 * b[i] as int + b[i + 1] as int + NetWords(b[i + 2..])
    ensures i + 1 == |b| ==> Words(b[i..]) == b[i] && NetWords(b[i..]) == 0x100 * b[i] as int
  {
    if i + 1 < |b| { assert b[i..][2..] == b[i + 2..]; }
  }

  /** Two folds make a 32-bit sum canonical. */
  method Fold(sum: U32) returns (r: U16)
    ensures r == Canon(sum)
  {
    FoldCanon(sum);
    r := FoldU32(FoldU32(sum));
  }

  /** A 32-bit addition that does not overflow. */
  method Plus(sum: U32, n: nat) returns (r: U32)
    requires sum + n < TWO_32
    ensures r == sum + n
  {
    r := Add32(sum, n);
  }

  /** Version 1: bytes in network order, two folds, and a swap at the end. */
  method Chksum1(b: seq<Byte>) returns (r: U16)
    requires |b| <= 0x20000
    ensures r == Canon(Words(b))
  {
    var acc: U32, i := 0, 0;
    WordBounds(b);
    assert b[0..] == b;
    while |b| - i > 1
      invariant 0 <= i <= |b| && acc + NetWords(b[i..]) == NetWords(b)
    {
      NextWord(b, i);
      acc := Plus(acc, 0x100 * b[i] as int + b[i + 1] as int);
      i := i + 2;
    }
    if |b| - i > 0 {
      NextWord(b, i);
      acc := Plus(acc, 0x100 * b[i] as int);
    }
    assert acc == NetWords(b);
    SwapOfNetWords(b);
    r := FoldOnDemand(acc);
    r := Swap(r);
  }

  lemma SwapOfNetWords(b: seq<Byte>)
    ensures Swap(Canon(NetWords(b))) == Canon(Words(b))
  {
    NetWordsSwap(b);
    CanonSwap(NetWords(b));
  }

  /** The deferred carries of version 1: the second fold only if it is needed. */
  method FoldOnDemand(sum: U32) returns (r: U16)
    ensures r == Canon(sum)
  {
    FoldCanon(sum);
    FoldCanon(FoldU32(sum));
    var acc := FoldU32(sum);
    if acc >= 0x1_0000 {
      acc := FoldU32(acc);
    }
    r := acc;
  }

  /** What the algorithms that align themselves add up at an odd address: the first
      byte counts as the high half of a word. */
  function Aligned(b: seq<Byte>, odd: bool): nat {
    if odd && |b| > 0 then 0x100 * b[0] as int + Words(b[1..]) else Words(b)
  }

  lemma AlignedStart(b: seq<Byte>, odd: bool, i: nat, head: nat)
    requires if odd && |b| > 0 then i == 1 && head == 0x100 * b[0] as int else i == head == 0
    ensures head + Words(b[i..]) == Aligned(b, odd)
  {
    assert i == 0 ==> b[i..] == b;
  }

  lemma AlignedSwap(b: seq<Byte>, odd: bool)
    ensures Canon(Words(b)) == if odd then Swap(Canon(Aligned(b, odd))) else Canon(Aligned(b, odd))
  {
    if odd && |b| > 0 {
      CanonSwap(Aligned(b, odd));
      AlignedShift(b);
    }
  }

  lemma AlignedShift(b: seq<Byte>)
    requires |b| > 0
    ensures Canon(0x100 * Aligned(b, true)) == Canon(Words(b))
  {
    var n: nat := b[0] as int + 0x100 * Words(b[1..]);
    WordsHead(b, n);
    TwistHigh(Aligned(b, true), b[0], Words(b[1..]), n);
  }

  lemma WordsHead(b: seq<Byte>, n: nat)
    requires |b| > 0 && n == b[0] as int + 0x100 * Words(b[1..])
    ensures Canon(Words(b)) == Canon(n)
  {
    WordsShift(b[0], b[1..]);
    assert [b[0]] + b[1..] == b;
  }

  lemma TwistHigh(a: nat, x: nat, w: nat, n: nat)
    requires a == 0x100 * x + w && n == x + 0x100 * w
    ensures Canon(0x100 * a) == Canon(n)
  {
    CanonTwist(x, 0, w);
  }

  lemma AlignedBound(b: seq<Byte>, odd: bool)
    ensures Aligned(b, odd) <= 0xffff * ((|b| + 2) / 2)
  {
    WordBounds(if odd && |b| > 0 then b[1..] else b);
  }

  /** Version 2: words at even addresses, the odd bytes of both ends in `t`. */
  method Chksum2(b: seq<Byte>, addr: nat) returns (r: U16)
    requires |b| <= 0x20000
    ensures r == Canon(Words(b))
  {
    var odd := addr % 2 == 1;
    var t: nat, sum: U32, i: nat, len: nat := 0, 0, 0, |b|;
    if odd && len > 0 {
      t := 0x100 * b[0] as int;
      i, len := 1, len - 1;
    }
    AlignedBound(b, odd);
    ghost var head := t;
    AlignedStart(b, odd, i, head);
    while len > 1
      invariant i + len == |b| && head + sum + Words(b[i..]) == Aligned(b, odd)
    {
      NextWord(b, i);
      sum := Plus(sum, Word(b, i));
      i, len := i + 2, len - 2;
    }
    if len > 0 {
      NextWord(b, i);
      t := t + b[i] as int;
    }
    sum := Plus(sum, t);
    assert sum == Aligned(b, odd);
    AlignedSwap(b, odd);
    r := Fold(sum);
    if odd {
      r := Swap(r);
    }
  }

  /** A 32-bit load. */
  function LongWord(b: seq<Byte>, i: nat): U32
    requires i + 3 < |b|
  {
    Word(b, i) + 0x1_0000 * Word(b, i + 2)
  }

  /** A 32-bit addition with end-around carry. */
  function AddCarry(sum: U32, w: U32): U32 {
    var tmp := Add32(sum, w);
    if tmp < sum then tmp + 1 else tmp
  }

  lemma AddCarryCanon(sum: U32, w: U32, rest: nat)
    ensures Canon(AddCarry(sum, w) + rest) == Canon(sum + w + rest)
  {
    var s: nat := sum + w + rest;
    if sum + w >= TWO_32 {
      ModWrap(s - 0xffff * 0x1_0001, 0x1_0001);
    }
    CanonSame(AddCarry(sum, w) + rest, s);
  }

  lemma LongWordCanon(b: seq<Byte>, i: nat, sum: U32, rest: nat)
    requires i + 3 < |b|
    ensures Canon(AddCarry(sum, LongWord(b, i)) + rest) == Canon(sum + Word(b, i) + Word(b, i + 2) + rest)
  {
    AddCarryCanon(sum, LongWord(b, i), rest);
    ModWrap(sum + Word(b, i) + Word(b, i + 2) + rest, Word(b, i + 2));
    CanonSame(sum + LongWord(b, i) + rest, sum + Word(b, i) + Word(b, i + 2) + rest);
  }

  /** The unrolled inner loop of version 3: eight bytes at a time, carries added back. */
  method SumLong(b: seq<Byte>, start: nat, init: U32, ghost rest: nat, ghost total: nat) returns (sum: U32, i: nat)
    requires start <= |b| && Canon(rest + init + Words(b[start..])) == Canon(total)
    ensures start <= i <= |b| && |b| - i <= 7 && Canon(rest + sum + Words(b[i..])) == Canon(total)
  {
    sum, i := init, start;
    while |b| - i > 7
      invariant start <= i <= |b| && Canon(rest + sum + Words(b[i..])) == Canon(total)
    {
      EightBytes(b, i, sum, rest);
      var tmp := AddCarry(sum, LongWord(b, i));
      sum := AddCarry(tmp, LongWord(b, i + 4));
      i := i + 8;
    }
  }

  lemma FourWords(b: seq<Byte>, i: nat)
    requires i + 7 < |b|
    ensures Words(b[i..]) == Word(b, i) + Word(b, i + 2) + Word(b, i + 4) + Word(b, i + 6) + Words(b[i + 8..])
  {
    NextWord(b, i);
    NextWord(b, i + 2);
    NextWord(b, i + 4);
    NextWord(b, i + 6);
  }

  lemma EightBytes(b: seq<Byte>, i: nat, sum: U32, rest: nat)
    requires i + 7 < |b|
    ensures var s := AddCarry(AddCarry(sum, LongWord(b, i)), LongWord(b, i + 4));
      Canon(rest + s + Words(b[i + 8..])) == Canon(rest + sum + Words(b[i..]))
  {
    FourWords(b, i);
    var tmp, r: nat := AddCarry(sum, LongWord(b, i)), rest + Words(b[i + 8..]);
    LongWordCanon(b, i + 4, tmp, r);
    LongWordCanon(b, i, sum, Word(b, i + 4) + Word(b, i + 6) + r);
  }

  /** A word in front of those that are aligned to four bytes. */
  method FirstWord(b: seq<Byte>, start: nat, unaligned: bool) returns (sum: U32, i: nat)
    requires start <= |b|
    ensures i <= |b| && sum + Words(b[i..]) == Words(b[start..])
  {
    sum, i := 0, start;
    if unaligned && |b| - i > 1 {
      NextWord(b, i);
      sum, i := Word(b, i), i + 2;
    }
  }

  /** Version 3: aligned to four bytes, then unrolled. */
  method Chksum3(b: seq<Byte>, addr: nat) returns (r: U16)
    ensures r == Canon(Words(b))
  {
    var odd := addr % 2 == 1;
    var t: nat, sum: U32, i: nat := 0, 0, 0;
    if odd && |b| > 0 {
      t, i := 0x100 * b[0] as int, 1;
    }
    ghost var head, total := t, Aligned(b, odd);
    AlignedStart(b, odd, i, head);
    sum, i := FirstWord(b, i, (addr + i) % 4 != 0);
    sum, i := SumLong(b, i, sum, head, total);
    FoldMid(sum, head, Words(b[i..]));
    sum := FoldU32(sum);
    sum := SumShort(b, i, sum, t, total);
    AlignedSwap(b, odd);
    r := Fold(sum);
    if odd {
      r := Swap(r);
    }
  }

  lemma FoldMid(sum: U32, a: nat, c: nat)
    ensures FoldU32(sum) <= 0x1_fffe && Canon(a + FoldU32(sum) + c) == Canon(a + sum + c)
  {
    FoldCanon(sum);
    CanonPrefix(a + c, FoldU32(sum), sum);
  }

  /** The words left at the end of version 3. */
  method SumWords(b: seq<Byte>, start: nat, init: U32) returns (sum: U32, i: nat)
    requires start <= |b| && init + Words(b[start..]) < TWO_32
    ensures start <= i <= |b| <= i + 1 && sum + Words(b[i..]) == init + Words(b[start..])
  {
    sum, i := init, start;
    while |b| - i > 1
      invariant start <= i <= |b| && sum + Words(b[i..]) == init + Words(b[start..])
    {
      NextWord(b, i);
      sum := Plus(sum, Word(b, i));
      i := i + 2;
    }
  }

  /** The last words and the dangling bytes of version 3. */
  method SumShort(b: seq<Byte>, start: nat, init: U32, head: nat, ghost total: nat) returns (sum: U32)
    requires start <= |b| && |b| - start <= 7 && init <= 0x1_fffe && head <= 0xff00
    requires Canon(head + init + Words(b[start..])) == Canon(total)
    ensures Canon(sum) == Canon(total)
  {
    var t, i := head, start;
    WordBounds(b[start..]);
    sum, i := SumWords(b, start, init);
    if |b| - i > 0 {
      NextWord(b, i);
      t := t + b[i] as int;
    }
    sum := Plus(sum, t);
    assert sum == head + init + Words(b[start..]);
  }

  /** All three versions give the same value, at every address and on every buffer
      that the documentation allows. */
  method AllAgree(b: seq<Byte>, addr: nat) returns (r1: U16, r2: U16, r3: U16)
    requires |b| <= 0x20000
    ensures r1 == r2 == r3 == Canon(Words(b))
  {
    r1 := Chksum1(b);
    r2 := Chksum2(b, addr);
    r3 := Chksum3(b, addr);
  }
}
