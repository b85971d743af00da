/** Sequence numbers and times are 32-bit values that wrap.  The comparison
    macros of the stack look at the sign of the 32-bit difference; this module
    defines them once and relates them to the order of the unwrapped integers. */
module SeqNum {

  const TWO_31: int := 0x8000_0000
  const TWO_32: int := 0x1_0000_0000

  type U32 = x: int | 0 <= x < 0x1_0000_0000
  type U16 = x: int | 0 <= x < 0x1_0000
  type Byte = x: int | 0 <= x < 0x100

  /** The 32-bit value that stands for position `x`. */
  function Wrap(x: int): U32 {
    x % TWO_32
  }

  /** (u32_t)(a + b) */
  function Add32(a: int, b: int): U32 {
    (a + b) % TWO_32
  }

  /** (u32_t)(a - b) */
  function Sub32(a: int, b: int): U32 {
    (a - b) % TWO_32
  }

  /** (s32_t)((u32_t)(a) - (u32_t)(b)) */
  function SignedDiff(a: U32, b: U32): int {
    var d := Sub32(a, b);
    if d < TWO_31 then d else d - TWO_32
  }

  /** TCP_SEQ_LT and its companions. */
  predicate SeqLt(a: U32, b: U32) {
    SignedDiff(a, b) < 0
  }

  predicate SeqLeq(a: U32, b: U32) {
    SignedDiff(a, b) <= 0
  }

  predicate SeqGt(a: U32, b: U32) {
    SignedDiff(a, b) > 0
  }

  predicate SeqGeq(a: U32, b: U32) {
    SignedDiff(a, b) >= 0
  }

  predicate SeqBetween(a: U32, b: U32, c: U32) {
    SeqGeq(a, b) && SeqLeq(a, c)
  }

  /** TIME_LESS_THAN(t, u): the unsigned difference exceeds 0x7fffffff. */
  predicate TimeLessThan(t: U32, u: U32) {
    Sub32(t, u) > 0x7fff_ffff
  }

  function Min(a: int, b: int): int {
    if a <= b then a else b
  }

  function Max(a: int, b: int): int {
    if a <= b then b else a
  }

  /** Adding to a wrapped position is wrapping the sum. */
  lemma WrapAdd(x: int, n: int)
    ensures Add32(Wrap(x), n) == Wrap(x + n)
    ensures Sub32(Wrap(x), n) == Wrap(x - n)
  {
  }

  lemma WrapSum(x: int, y: int)
    ensures Add32(Wrap(x), Wrap(y)) == Wrap(x + y)
  {
    WrapAdd(x, Wrap(y));
    WrapAdd(y, x);
    assert x + Wrap(y) == Wrap(y) + x && x + y == y + x;
  }

  lemma WrapSub(x: int, y: int)
    ensures Sub32(Wrap(x), Wrap(y)) == Wrap(x - y)
  {
  }

  /** The wrapped difference is the difference, as long as the positions are
      less than half of the sequence space apart. */
  lemma WrappedDifference(x: int, y: int)
    ensures -TWO_31 <= x - y < TWO_31 ==> SignedDiff(Wrap(x), Wrap(y)) == x - y
    ensures 0 <= x - y < TWO_32 ==> Sub32(Wrap(x), Wrap(y)) == x - y
  {
    assert Sub32(Wrap(x), Wrap(y)) == (x - y) % TWO_32;
  }

  /** Every wrapped comparison agrees with integer order exactly as long as the
      span allows it: at a span of half the space the verdict is reversed. */
  lemma WrappedOrder(x: int, y: int)
    requires -TWO_31 <= x - y <= TWO_31
    ensures (SeqLt(Wrap(x), Wrap(y)) <==> x < y) <==> x - y != TWO_31
    ensures (SeqLeq(Wrap(x), Wrap(y)) <==> x <= y) <==> x - y != TWO_31
    ensures (SeqGt(Wrap(x), Wrap(y)) <==> x > y) <==> x - y != TWO_31
    ensures (SeqGeq(Wrap(x), Wrap(y)) <==> x >= y) <==> x - y != TWO_31
    ensures (TimeLessThan(Wrap(x), Wrap(y)) <==> x < y) <==> x - y != TWO_31
    ensures -TWO_31 < x - y < TWO_31 ==> (Wrap(x) == Wrap(y) <==> x == y)
  {
    assert Sub32(Wrap(x), Wrap(y)) == (x - y) % TWO_32;
  }
}
