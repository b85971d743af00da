/** tcp_new_port: the search for a free local port. */
module LocalPort {
  import opened SeqNum

  /** TCP_LOCAL_PORT_RANGE_START and TCP_LOCAL_PORT_RANGE_END; the end is never given out. */
  const FIRST: nat := 0xc000
  const END: nat := 0xffff

  predicate InRange(p: int) {
    FIRST <= p < END
  }

  /** The port tried after p. */
  function Next(p: U16): U16 {
    var q := (p + 1) % 0x1_0000;
    if q == END then FIRST else q
  }

  /** Does a control block in one of the lists use the port. */
  predicate Used(lists: seq<seq<U16>>, p: U16) {
    exists i :: 0 <= i < |lists| && p in lists[i]
  }

  method IsUsed(lists: seq<seq<U16>>, p: U16) returns (used: bool)
    ensures used <==> Used(lists, p)
  {
    for i := 0 to |lists|
      invariant forall j :: 0 <= j < i ==> p !in lists[j]
    {
      for k := 0 to |lists[i]|
        invariant forall j :: 0 <= j < k ==> lists[i][j] != p
      {
        if lists[i][k] == p { return true; }
      }
    }
    used := false;
  }

  // ----- the search

  /** The port found from `p` on in at most `left` more tries, and the port tried last. */
  function Search(lists: seq<seq<U16>>, p: U16, left: nat): (U16, U16)
    decreases left
  {
    if !Used(lists, p) then (p, p) else if left == 0 then (0, p) else Search(lists, Next(p), left - 1)
  }

  /** tcp_new_port; `last` is the port tried last, at first what tcp_init chose. */
  method NewPort(lists: seq<seq<U16>>, last: U16) returns (r: U16, port: U16)
    ensures (r, port) == Search(lists, Next(last), END - FIRST)
  {
    var n := 0;
    port := Next(last);
    while true
      invariant 0 <= n <= END - FIRST
      invariant Search(lists, Next(last), END - FIRST) == Search(lists, port, END - FIRST - n)
      decreases END - FIRST - n
    {
      var used := IsUsed(lists, port);
      if !used {
        return port, port;
      }
      n := n + 1;
      if n > END - FIRST {
        return 0, port;
      }
      port := Next(port);
    }
  }

  // ----- what it finds

  /** The port tried after k more steps. */
  function After(p: U16, k: nat): U16 {
    if k == 0 then p else Next(After(p, k - 1))
  }

  lemma {:induction false} AfterNext(p: U16, k: nat)
    ensures After(Next(p), k) == After(p, k + 1)
  {
    if k > 0 { AfterNext(p, k - 1); }
  }

  /** The first port that is free in the order of the search, or none. */
  lemma {:induction false} SearchIsFirst(lists: seq<seq<U16>>, p: U16, left: nat) returns (k: nat)
    ensures var (r, port) := Search(lists, p, left);
      && k <= left && port == After(p, k) && (forall j :: 0 <= j < k ==> Used(lists, After(p, j)))
      && (if Used(lists, port) then r == 0 && k == left else r == port)
    decreases left
  {
    if !Used(lists, p) || left == 0 {
      k := 0;
    } else {
      k := SearchIsFirst(lists, Next(p), left - 1);
      k := k + 1;
      forall j | 0 <= j < k ensures Used(lists, After(p, j)) {
        if j > 0 { AfterNext(p, j - 1); }
      }
      AfterNext(p, k - 1);
    }
  }

  /** As many tries as there are ports go round once. */
  lemma {:induction false} AfterIs(p: U16, k: nat)
    requires InRange(p) && k <= END - FIRST
    ensures After(p, k) == if p + k < END then p + k else p + k - (END - FIRST)
  {
    if k > 0 { AfterIs(p, k - 1); }
  }

  /** Ports are tried upwards; from outside of the range as well. */
  lemma {:induction false} AfterBelow(p: U16, k: nat)
    requires p + k < END
    ensures After(p, k) == p + k
  {
    if k > 0 { AfterBelow(p, k - 1); }
  }

  predicate AllUsed(lists: seq<seq<U16>>) {
    forall p: U16 :: InRange(p) ==> Used(lists, p)
  }

  /** What a caller relies on: a free port of the range, and none exactly if all are used. */
  predicate Promise(lists: seq<seq<U16>>, r: U16) {
    (r == 0 <==> AllUsed(lists)) && (r != 0 ==> InRange(r) && !Used(lists, r))
  }

  /** A search that starts in the range keeps the promise and ends in the range. */
  lemma InRangeFinds(lists: seq<seq<U16>>, p: U16)
    requires InRange(p)
    ensures var (r, port) := Search(lists, p, END - FIRST); Promise(lists, r) && InRange(port)
  {
    var (r, port) := Search(lists, p, END - FIRST);
    var k := SearchIsFirst(lists, p, END - FIRST);
    AfterIs(p, k);
    if r == 0 {
      forall q: U16 | InRange(q) ensures Used(lists, q) {
        var j: nat := if q >= p then q - p else q - p + (END - FIRST);
        AfterIs(p, j);
        assert j < k;
      }
    }
  }

  /** A call after `last` keeps the promise. */
  predicate Kept(lists: seq<seq<U16>>, last: U16) {
    Promise(lists, Search(lists, Next(last), END - FIRST).0)
  }

  /** For all lists of control blocks the search keeps the promise if and only if the port
      it tries first lies in the range. */
  lemma PromiseIff(last: U16)
    ensures (forall lists :: Kept(lists, last)) <==> InRange(Next(last))
    ensures InRange(Next(last)) <==> FIRST - 1 <= last < END
  {
    if InRange(Next(last)) {
      forall lists ensures Kept(lists, last) { InRangeFinds(lists, Next(last)); }
    } else {
      var none: seq<seq<U16>> := [];
      assert !Used(none, Next(last)) && InRange(FIRST) && !Used(none, FIRST);
      assert !Kept(none, last);
    }
  }

  /** TCP_ENSURE_LOCAL_PORT_RANGE. */
  function Ensured(rand: nat): (p: U16)
    ensures FIRST <= p <= END
    ensures FIRST <= rand <= END ==> p == rand
  {
    rand % 0x4000 + FIRST
  }

  /** tcp_init can choose the end of the range, where the search wraps to port 0: with all
      ports free the first call finds none, and the next one hands out port 1. */
  lemma EndFindsNothing()
    ensures Ensured(0x3fff) == END
    ensures !Used([], FIRST) && Search([], Next(END), END - FIRST) == (0, 0)
    ensures Search([], Next(0), END - FIRST) == (1, 1)
  {
  }
}
