/** The selective acknowledgements of a receiver. */
module Sack {
  import opened SeqNum

  // The array of at most MAX ranges, newest first, compacted and shifted in place
  // (tcp_add_sack, tcp_remove_sacks_lt).

  /** LWIP_TCP_MAX_SACK_NUM. */
  const MAX: nat := 4

  datatype Range = Range(left: U32, right: U32) {
    /** LWIP_TCP_SACK_VALID. */
    predicate Valid() { left != right }
  }

  const NONE: Range := Range(0, 0)

  // ----- what the two operations compute

  /** The entries before the first invalid one. */
  function Prefix(s: seq<Range>): seq<Range> {
    if s == [] || !s[0].Valid() then [] else [s[0]] + Prefix(s[1..])
  }

  /** The range x, unless it overlaps left..right. */
  function IfApart(x: Range, left: U32, right: U32): (r: seq<Range>)
    ensures |r| <= 1
  {
    if SeqLeq(x.right, left) || SeqLeq(right, x.left) then [x] else []
  }

  /** The entries that do not overlap left..right, in order. */
  function Apart(s: seq<Range>, left: U32, right: U32): (r: seq<Range>)
    ensures |r| <= |s|
  {
    if s == [] then [] else IfApart(s[0], left, right) + Apart(s[1..], left, right)
  }

  /** What the range x covers from q on, if anything. */
  function IfAbove(x: Range, q: U32): (r: seq<Range>)
    ensures |r| <= 1
  {
    if SeqGt(x.right, q) then [x.(left := if SeqLt(x.left, q) then q else x.left)] else []
  }

  /** The entries that reach past q, cut off below it. */
  function Above(s: seq<Range>, q: U32): (r: seq<Range>)
    ensures |r| <= |s|
  {
    if s == [] then [] else IfAbove(s[0], q) + Above(s[1..], q)
  }

  /** The first MAX entries, filled up with invalid ones. */
  function Fill(s: seq<Range>): (r: seq<Range>)
    ensures |r| == MAX
    ensures forall i :: 0 <= i < MAX ==> r[i] == if i < |s| then s[i] else NONE
  {
    seq(MAX, i requires 0 <= i => if i < |s| then s[i] else NONE)
  }

  function Added(s: seq<Range>, left: U32, right: U32): seq<Range> {
    Fill([Range(left, right)] + Apart(Prefix(s), left, right))
  }

  function RemovedLt(s: seq<Range>, q: U32): seq<Range> {
    Fill(Above(Prefix(s), q))
  }

  // ----- the loops over the array

  lemma {:induction false} ApartLast(s: seq<Range>, x: Range, left: U32, right: U32)
    ensures Apart(s + [x], left, right) == Apart(s, left, right) + IfApart(x, left, right)
  {
    if s == [] {
      assert s + [x] == [x] && [x][1..] == [];
    } else {
      assert (s + [x])[1..] == s[1..] + [x];
      ApartLast(s[1..], x, left, right);
    }
  }

  lemma {:induction false} AboveLast(s: seq<Range>, x: Range, q: U32)
    ensures Above(s + [x], q) == Above(s, q) + IfAbove(x, q)
  {
    if s == [] {
      assert s + [x] == [x] && [x][1..] == [];
    } else {
      assert (s + [x])[1..] == s[1..] + [x];
      AboveLast(s[1..], x, q);
    }
  }

  lemma {:induction false} PrefixIs(s: seq<Range>, n: nat)
    requires n <= |s| && (forall i :: 0 <= i < n ==> s[i].Valid()) && (n < |s| ==> !s[n].Valid())
    ensures Prefix(s) == s[..n]
  {
    if n > 0 {
      PrefixIs(s[1..], n - 1);
      assert s[..n] == [s[0]] + s[1..][..n - 1];
    }
  }

  /** Drops the entries that overlap left..right; `unused` entries are left. */
  method Compact(a: array<Range>, left: U32, right: U32) returns (unused: nat)
    requires a.Length == MAX
    modifies a
    ensures unused <= MAX && a[..unused] == Apart(Prefix(old(a[..])), left, right)
  {
    ghost var s := a[..];
    var i := 0;
    unused := 0;
    while i < MAX && a[i].Valid()
      invariant unused <= i <= MAX && a[..unused] == Apart(s[..i], left, right)
      invariant forall j :: i <= j < MAX ==> a[j] == s[j]
      invariant forall j :: 0 <= j < i ==> s[j].Valid()
    {
      unused := KeepApart(a, i, unused, left, right, s);
      i := i + 1;
    }
    PrefixIs(s, i);
  }

  /** Keeps entry i if it does not overlap left..right. */
  method KeepApart(a: array<Range>, i: nat, unused: nat, left: U32, right: U32, ghost s: seq<Range>) returns (n: nat)
    requires unused <= i < MAX == a.Length == |s| && a[..unused] == Apart(s[..i], left, right)
    requires forall j :: i <= j < MAX ==> a[j] == s[j]
    modifies a
    ensures n <= i + 1 && a[..n] == Apart(s[..i + 1], left, right)
    ensures forall j :: i + 1 <= j < MAX ==> a[j] == s[j]
  {
    assert s[..i + 1] == s[..i] + [s[i]];
    ApartLast(s[..i], s[i], left, right);
    ghost var kept := a[..unused];
    n := unused;
    if SeqLeq(a[i].right, left) || SeqLeq(right, a[i].left) {
      if unused != i {
        a[unused] := a[i];
      }
      assert a[..unused + 1] == kept + [s[i]];
      n := unused + 1;
    }
  }

  /** tcp_add_sack. */
  method AddSack(a: array<Range>, sackOk: bool, left: U32, right: U32)
    requires a.Length == MAX
    modifies a
    ensures a[..] == if !sackOk || !SeqLt(left, right) then old(a[..]) else Added(old(a[..]), left, right)
  {
    if !sackOk || !SeqLt(left, right) { return; }
    var unused := Compact(a, left, right);
    ghost var kept := a[..unused];
    var i := MAX - 1;
    while i > 0
      invariant 0 <= i < MAX
      invariant forall j :: 0 <= j <= i && j < unused ==> a[j] == kept[j]
      invariant forall j :: i < j < MAX ==> a[j] == if j - 1 < unused then kept[j - 1] else NONE
    {
      if i - 1 >= unused {
        a[i] := NONE;
      } else {
        a[i] := a[i - 1];
      }
      i := i - 1;
    }
    a[0] := Range(left, right);
  }

  /** The array cleared. */
  method Wipe(a: array<Range>)
    requires a.Length == MAX
    modifies a
    ensures a[..] == Fill([])
  {
    for i := 0 to MAX
      invariant forall j :: 0 <= j < i ==> a[j] == NONE
    {
      a[i] := NONE;
    }
  }

  /** Keeps what the entries cover from q on; `unused` entries are left. */
  method CompactAbove(a: array<Range>, q: U32) returns (unused: nat)
    requires a.Length == MAX
    modifies a
    ensures unused <= MAX && a[..unused] == Above(Prefix(old(a[..])), q)
  {
    ghost var s := a[..];
    var i := 0;
    unused := 0;
    while i < MAX && a[i].Valid()
      invariant unused <= i <= MAX && a[..unused] == Above(s[..i], q)
      invariant forall j :: i <= j < MAX ==> a[j] == s[j]
      invariant forall j :: 0 <= j < i ==> s[j].Valid()
    {
      unused := KeepAbove(a, i, unused, q, s);
      i := i + 1;
    }
    PrefixIs(s, i);
  }

  /** Keeps what entry i covers from q on. */
  method KeepAbove(a: array<Range>, i: nat, unused: nat, q: U32, ghost s: seq<Range>) returns (n: nat)
    requires unused <= i < MAX == a.Length == |s| && a[..unused] == Above(s[..i], q)
    requires forall j :: i <= j < MAX ==> a[j] == s[j]
    modifies a
    ensures n <= i + 1 && a[..n] == Above(s[..i + 1], q)
    ensures forall j :: i + 1 <= j < MAX ==> a[j] == s[j]
  {
    assert s[..i + 1] == s[..i] + [s[i]];
    AboveLast(s[..i], s[i], q);
    ghost var kept := a[..unused];
    n := unused;
    if SeqGt(a[i].right, q) {
      if unused != i {
        a[unused] := a[i];
      }
      if SeqLt(a[unused].left, q) {
        a[unused] := a[unused].(left := q);
      }
      assert a[..unused + 1] == kept + IfAbove(s[i], q);
      n := unused + 1;
    }
  }

  /** tcp_remove_sacks_lt. */
  method RemoveSacksLt(a: array<Range>, q: U32)
    requires a.Length == MAX
    modifies a
    ensures a[..] == RemovedLt(old(a[..]), q)
  {
    var unused := CompactAbove(a, q);
    ghost var kept := a[..unused];
    var i := unused;
    while i < MAX
      invariant unused <= i <= MAX
      invariant forall j :: 0 <= j < unused ==> a[j] == kept[j]
      invariant forall j :: unused <= j < i ==> a[j] == NONE
    {
      a[i] := NONE;
      i := i + 1;
    }
  }

  // ----- what the ranges report

  /** How far behind `base` a sequence number is. */
  function Off(base: U32, x: U32): (o: nat) {
    Sub32(x, base)
  }

  /** A range that lies in the half of sequence space behind `base`. */
  predicate Good(base: U32, x: Range) {
    Off(base, x.left) < Off(base, x.right) < TWO_31
  }

  predicate Covers(base: U32, x: Range, p: nat) {
    Off(base, x.left) <= p < Off(base, x.right)
  }

  /** Is the byte p behind base reported by one of the ranges. */
  predicate Reported(base: U32, s: seq<Range>, p: nat) {
    s != [] && (Covers(base, s[0], p) || Reported(base, s[1..], p))
  }

  /** All ranges good, and no byte reported twice. */
  ghost predicate Tidy(base: U32, s: seq<Range>) {
    s == [] || (Good(base, s[0]) && Tidy(base, s[1..]) && forall y :: y in s[1..] ==> Clear(base, s[0], y))
  }

  predicate Clear(base: U32, x: Range, y: Range) {
    Off(base, x.right) <= Off(base, y.left) || Off(base, y.right) <= Off(base, x.left)
  }

  /** The array: a tidy list of ranges, then invalid entries. */
  ghost predicate Inv(base: U32, s: seq<Range>) {
    |s| == MAX && Tidy(base, Prefix(s)) && s == Fill(Prefix(s))
  }

  /** Wrapped comparison is comparison of distances from the base. */
  lemma OffOrder(base: U32, x: U32, y: U32)
    requires Off(base, x) < TWO_31 && Off(base, y) < TWO_31
    ensures SignedDiff(x, y) == Off(base, x) - Off(base, y)
    ensures Off(base, x) == Off(base, y) <==> x == y
  {
  }

  lemma {:induction false} TidyMember(base: U32, s: seq<Range>, x: Range)
    requires Tidy(base, s) && x in s
    ensures Good(base, x) && x.Valid()
  {
    if x != s[0] { TidyMember(base, s[1..], x); }
  }

  /** The array that holds a tidy list, cut off at MAX. */
  lemma FillTidy(base: U32, s: seq<Range>, p: nat)
    requires Tidy(base, s)
    ensures Inv(base, Fill(s)) && Prefix(Fill(s)) == s[..if |s| < MAX then |s| else MAX]
    ensures Reported(base, Prefix(Fill(s)), p) ==> Reported(base, s, p)
  {
    var n := if |s| < MAX then |s| else MAX;
    forall i | 0 <= i < |s| ensures s[i].Valid() { TidyMember(base, s, s[i]); }
    PrefixIs(Fill(s), n);
    assert Fill(s)[..n] == s[..n];
    TidyTake(base, s, n);
    if Reported(base, s[..n], p) { ReportedTake(base, s, n, p); }
  }

  lemma {:induction false} TidyTake(base: U32, s: seq<Range>, n: nat)
    requires Tidy(base, s) && n <= |s|
    ensures Tidy(base, s[..n])
  {
    if n > 0 {
      TidyTake(base, s[1..], n - 1);
      assert s[..n][1..] == s[1..][..n - 1];
    }
  }

  lemma {:induction false} ReportedTake(base: U32, s: seq<Range>, n: nat, p: nat)
    requires n <= |s| && Reported(base, s[..n], p)
    ensures Reported(base, s, p)
  {
    if !Covers(base, s[0], p) {
      assert s[..n][1..] == s[1..][..n - 1];
      ReportedTake(base, s[1..], n - 1, p);
    }
  }

  // ----- adding

  /** What stays lies apart from the new range, and stays tidy. */
  lemma {:induction false} ApartTidy(base: U32, s: seq<Range>, n: Range)
    requires Tidy(base, s) && Good(base, n)
    ensures Tidy(base, Apart(s, n.left, n.right))
    ensures forall y :: y in Apart(s, n.left, n.right) ==> y in s && Clear(base, n, y)
  {
    if s != [] {
      ApartTidy(base, s[1..], n);
      OffOrder(base, s[0].right, n.left);
      OffOrder(base, n.right, s[0].left);
      var rest := Apart(s[1..], n.left, n.right);
      assert ([s[0]] + rest)[1..] == rest && [] + rest == rest;
    }
  }

  /** Which bytes stay reported: those of ranges that lie apart. */
  lemma {:induction false} ApartReports(base: U32, s: seq<Range>, n: Range, p: nat)
    requires Tidy(base, s) && Good(base, n)
    ensures Reported(base, Apart(s, n.left, n.right), p) ==> Reported(base, s, p)
    ensures Reported(base, s, p) && !Covers(base, n, p) && Absorbs(base, s, n) ==>
              Reported(base, Apart(s, n.left, n.right), p)
  {
    if s != [] {
      ApartReports(base, s[1..], n, p);
      OffOrder(base, s[0].right, n.left);
      OffOrder(base, n.right, s[0].left);
      var rest := Apart(s[1..], n.left, n.right);
      assert ([s[0]] + rest)[1..] == rest && [] + rest == rest;
    }
  }

  /** The new range takes in every range it meets. */
  predicate Absorbs(base: U32, s: seq<Range>, n: Range) {
    s == [] || (&& (|| Clear(base, n, s[0])
                    || (Off(base, n.left) <= Off(base, s[0].left) && Off(base, s[0].right) <= Off(base, n.right)))
                && Absorbs(base, s[1..], n))
  }

  /** A range added: it comes first, everything in it is reported, and nothing else that
      was not; whatever it was the order of the others stays. */
  lemma AddKeeps(base: U32, s: seq<Range>, n: Range, p: nat)
    requires Inv(base, s) && Good(base, n)
    ensures var r := Added(s, n.left, n.right);
            && Inv(base, r) && r[0] == n
            && (Covers(base, n, p) ==> Reported(base, Prefix(r), p))
            && (Reported(base, Prefix(r), p) ==> Covers(base, n, p) || Reported(base, Prefix(s), p))
  {
    var rest := Apart(Prefix(s), n.left, n.right);
    ApartTidy(base, Prefix(s), n);
    ApartReports(base, Prefix(s), n, p);
    assert ([n] + rest)[1..] == rest;
    FillTidy(base, [n] + rest, p);
  }

  /** A range added to fewer than MAX others, that takes in those it meets: the bytes
      reported are exactly the old ones and the new.  AddIsUnionIff has the converse. */
  lemma AddIsUnion(base: U32, s: seq<Range>, n: Range, p: nat)
    requires Inv(base, s) && Good(base, n) && Absorbs(base, Prefix(s), n)
    requires |Apart(Prefix(s), n.left, n.right)| < MAX
    ensures Reported(base, Prefix(Added(s, n.left, n.right)), p) <==> Covers(base, n, p) || Reported(base, Prefix(s), p)
  {
    var rest := Apart(Prefix(s), n.left, n.right);
    ApartTidy(base, Prefix(s), n);
    ApartReports(base, Prefix(s), n, p);
    assert ([n] + rest)[1..] == rest;
    FillTidy(base, [n] + rest, p);
    assert ([n] + rest)[..|rest| + 1] == [n] + rest;
  }

  lemma {:induction false} NotOthers(base: U32, s: seq<Range>, x: Range, p: nat)
    requires (forall y :: y in s ==> Clear(base, x, y)) && Covers(base, x, p)
    ensures !Reported(base, s, p)
  {
    if s != [] {
      assert Clear(base, x, s[0]);
      NotOthers(base, s[1..], x, p);
    }
  }

  /** A range that the new one meets and does not take in: a byte of it is lost. */
  lemma {:induction false} Lost(base: U32, s: seq<Range>, n: Range) returns (p: nat)
    requires Tidy(base, s) && Good(base, n) && !Absorbs(base, s, n)
    ensures Reported(base, s, p) && !Covers(base, n, p) && !Reported(base, Apart(s, n.left, n.right), p)
  {
    var x, t := s[0], s[1..];
    var rest := Apart(t, n.left, n.right);
    ApartTidy(base, t, n);
    OffOrder(base, x.right, n.left);
    OffOrder(base, n.right, x.left);
    assert ([x] + rest)[1..] == rest && [] + rest == rest;
    if Absorbs(base, t, n) {
      p := if Off(base, x.left) < Off(base, n.left) then Off(base, x.left) else Off(base, n.right);
      NotOthers(base, rest, x, p);
    } else {
      p := Lost(base, t, n);
      if Covers(base, x, p) { NotOthers(base, t, x, p); }
    }
  }

  /** A full array: the oldest of the ranges that stay falls out. */
  lemma {:induction false} FallsOut(base: U32, s: seq<Range>, k: nat) returns (p: nat)
    requires Tidy(base, s) && k < |s|
    ensures Reported(base, s, p) && !Reported(base, s[..k], p) && Covers(base, s[k], p) && p == Off(base, s[k].left)
  {
    if k == 0 {
      p := Off(base, s[0].left);
    } else {
      p := FallsOut(base, s[1..], k - 1);
      assert s[..k][1..] == s[1..][..k - 1] && s[k] in s[1..];
      assert Clear(base, s[0], s[k]);
    }
  }

  /** After adding, the byte p is reported exactly if it was or is new. */
  predicate AddsAt(base: U32, s: seq<Range>, n: Range, p: nat) {
    Reported(base, Prefix(Added(s, n.left, n.right)), p) <==> Covers(base, n, p) || Reported(base, Prefix(s), p)
  }

  /** What is reported beside the new range: what the first MAX - 1 ranges apart from it do. */
  lemma AddedReports(base: U32, s: seq<Range>, n: Range, p: nat)
    requires Inv(base, s) && Good(base, n) && !Covers(base, n, p)
    ensures var rest := Apart(Prefix(s), n.left, n.right);
      var kept := rest[..if |rest| < MAX then |rest| else MAX - 1];
      && (Reported(base, Prefix(Added(s, n.left, n.right)), p) <==> Reported(base, kept, p))
      && (Reported(base, kept, p) ==> Reported(base, rest, p))
  {
    var rest := Apart(Prefix(s), n.left, n.right);
    var k := if |rest| < MAX then |rest| else MAX - 1;
    ApartTidy(base, Prefix(s), n);
    assert ([n] + rest)[1..] == rest;
    FillTidy(base, [n] + rest, p);
    assert ([n] + rest)[..k + 1] == [n] + rest[..k];
    assert ([n] + rest[..k])[1..] == rest[..k];
    if Reported(base, rest[..k], p) { ReportedTake(base, rest, k, p); }
  }

  lemma AddLosesMet(base: U32, s: seq<Range>, n: Range) returns (p: nat)
    requires Inv(base, s) && Good(base, n) && !Absorbs(base, Prefix(s), n)
    ensures !AddsAt(base, s, n, p)
  {
    p := Lost(base, Prefix(s), n);
    AddedReports(base, s, n, p);
  }

  /** A full array: the oldest of the ranges apart from the new one goes. */
  lemma OldestGoes(base: U32, s: seq<Range>, n: Range) returns (x: Range, p: nat)
    requires Inv(base, s) && Good(base, n) && |Apart(Prefix(s), n.left, n.right)| >= MAX
    ensures x in Prefix(s) && Clear(base, n, x) && Covers(base, x, p) && !Covers(base, n, p)
    ensures x == Apart(Prefix(s), n.left, n.right)[MAX - 1] && p == Off(base, x.left)
    ensures !Reported(base, Prefix(Added(s, n.left, n.right)), p)
  {
    x, p := OldestApart(base, Prefix(s), n);
    AddedReports(base, s, n, p);
  }

  lemma OldestApart(base: U32, s: seq<Range>, n: Range) returns (x: Range, p: nat)
    requires Tidy(base, s) && Good(base, n) && |Apart(s, n.left, n.right)| >= MAX
    ensures x in s && Clear(base, n, x) && Covers(base, x, p) && !Covers(base, n, p)
    ensures x == Apart(s, n.left, n.right)[MAX - 1] && p == Off(base, x.left)
    ensures !Reported(base, Apart(s, n.left, n.right)[..MAX - 1], p)
  {
    var rest := Apart(s, n.left, n.right);
    ApartTidy(base, s, n);
    p := FallsOut(base, rest, MAX - 1);
    x := rest[MAX - 1];
    assert x in rest;
  }

  lemma AddLosesOldest(base: U32, s: seq<Range>, n: Range) returns (p: nat)
    requires Inv(base, s) && Good(base, n) && |Apart(Prefix(s), n.left, n.right)| >= MAX
    ensures !AddsAt(base, s, n, p)
  {
    var x: Range;
    x, p := OldestGoes(base, s, n);
    MemberTells(base, Prefix(s), x, p);
  }

  /** Exactly when adding a range reports the old bytes and the new ones: it takes in
      every range it meets, and the others leave room for it. */
  lemma AddIsUnionIff(base: U32, s: seq<Range>, n: Range)
    requires Inv(base, s) && Good(base, n)
    ensures ((forall p: nat :: AddsAt(base, s, n, p)) <==>
             (Absorbs(base, Prefix(s), n) && |Apart(Prefix(s), n.left, n.right)| < MAX))
  {
    if !Absorbs(base, Prefix(s), n) {
      var p := AddLosesMet(base, s, n);
    } else if |Apart(Prefix(s), n.left, n.right)| >= MAX {
      var p := AddLosesOldest(base, s, n);
    } else {
      forall p: nat ensures AddsAt(base, s, n, p) { AddIsUnion(base, s, n, p); }
    }
  }

  lemma {:induction false} Holder(base: U32, s: seq<Range>, p: nat) returns (x: Range)
    requires Reported(base, s, p)
    ensures x in s && Covers(base, x, p)
  {
    x := s[0];
    if !Covers(base, x, p) { x := Holder(base, s[1..], p); }
  }

  lemma {:induction false} MemberTells(base: U32, s: seq<Range>, x: Range, p: nat)
    requires x in s && Covers(base, x, p)
    ensures Reported(base, s, p)
  {
    if x != s[0] { MemberTells(base, s[1..], x, p); }
  }

  /** A byte reported after adding, but not in the new range, is reported by an old one
      that has nothing in common with it. */
  lemma AddedFrom(base: U32, s: seq<Range>, n: Range, p: nat) returns (x: Range)
    requires Inv(base, s) && Good(base, n)
    requires Reported(base, Prefix(Added(s, n.left, n.right)), p) && !Covers(base, n, p)
    ensures x in Prefix(s) && Clear(base, n, x) && Covers(base, x, p) && Reported(base, Prefix(s), p)
  {
    AddedReports(base, s, n, p);
    ApartTidy(base, Prefix(s), n);
    x := Holder(base, Apart(Prefix(s), n.left, n.right), p);
    MemberTells(base, Prefix(s), x, p);
  }

  /** A range apart from the new one stays among the first, if there is room. */
  lemma {:induction false} ApartHas(base: U32, s: seq<Range>, n: Range, x: Range)
    requires Tidy(base, s) && Good(base, n) && x in s && Clear(base, n, x)
    ensures x in Apart(s, n.left, n.right)
  {
    if x == s[0] {
      OffOrder(base, x.right, n.left);
      OffOrder(base, n.right, x.left);
    } else {
      ApartHas(base, s[1..], n, x);
    }
  }

  lemma AddedStays(base: U32, s: seq<Range>, n: Range, x: Range, p: nat)
    requires Inv(base, s) && Good(base, n) && x in Prefix(s) && Clear(base, n, x) && Covers(base, x, p)
    requires |Apart(Prefix(s), n.left, n.right)| < MAX
    ensures Reported(base, Prefix(Added(s, n.left, n.right)), p)
  {
    var rest := Apart(Prefix(s), n.left, n.right);
    ApartHas(base, Prefix(s), n, x);
    MemberTells(base, rest, x, p);
    AddedReports(base, s, n, p);
    assert rest[..|rest|] == rest;
  }

  /** Only one range of a tidy list covers a byte. */
  lemma {:induction false} TidyUnique(base: U32, s: seq<Range>, x: Range, y: Range, p: nat)
    requires Tidy(base, s) && x in s && y in s && Covers(base, x, p) && Covers(base, y, p)
    ensures x == y
  {
    if x != s[0] && y != s[0] {
      TidyUnique(base, s[1..], x, y, p);
    } else {
      assert y in s[1..] ==> Clear(base, s[0], y);
      assert x in s[1..] ==> Clear(base, s[0], x);
    }
  }

  /** Ascending places in a list of `n`. */
  predicate Places(at: seq<nat>, n: nat) {
    && (forall j :: 0 <= j < |at| ==> at[j] < n)
    && (forall j, k :: 0 <= j < k < |at| ==> at[j] < at[k])
  }

  /** The entries of `s` at the places `at` are those of `r`. */
  predicate Picks(s: seq<Range>, at: seq<nat>, r: seq<Range>) {
    Places(at, |s|) && |at| == |r| && forall j :: 0 <= j < |r| ==> r[j] == s[at[j]]
  }

  /** The ranges apart from the new one, in the order they had. */
  lemma {:induction false} ApartPlaces(base: U32, s: seq<Range>, n: Range) returns (at: seq<nat>)
    requires Tidy(base, s) && Good(base, n)
    ensures Picks(s, at, Apart(s, n.left, n.right))
  {
    if s == [] {
      at := [];
    } else {
      var js := ApartPlaces(base, s[1..], n);
      at := Shifted(s, Apart(s[1..], n.left, n.right), js, Clear(base, n, s[0]));
      HeadApart(base, s, n);
    }
  }

  /** The same places behind one entry more, which may be picked as well. */
  lemma Shifted(s: seq<Range>, r: seq<Range>, js: seq<nat>, first: bool) returns (at: seq<nat>)
    requires s != [] && Picks(s[1..], js, r)
    ensures Picks(s, at, if first then [s[0]] + r else r)
  {
    at := seq(|js|, j requires 0 <= j < |js| => js[j] + 1);
    assert Picks(s, at, r);
    if first { at := [0] + at; }
  }

  lemma HeadApart(base: U32, s: seq<Range>, n: Range)
    requires s != [] && Tidy(base, s) && Good(base, n)
    ensures var rest := Apart(s[1..], n.left, n.right);
      Apart(s, n.left, n.right) == if Clear(base, n, s[0]) then [s[0]] + rest else rest
  {
    OffOrder(base, s[0].right, n.left);
    OffOrder(base, n.right, s[0].left);
    assert [] + Apart(s[1..], n.left, n.right) == Apart(s[1..], n.left, n.right);
  }

  /** After adding: the new range, then those apart from it in the order they had; the oldest
      of them is dropped if there are MAX. */
  lemma AddedPlaces(base: U32, s: seq<Range>, n: Range, x: Range) returns (at: seq<nat>)
    requires Inv(base, s) && Good(base, n)
    ensures var old', r := Prefix(s), Prefix(Added(s, n.left, n.right));
      && Places(at, |old'|) && |r| == Min(|at| + 1, MAX)
      && r[0] == n && (forall j :: 0 < j < |r| ==> r[j] == old'[at[j - 1]])
      && ((exists j :: 0 <= j < |at| && old'[at[j]] == x) <==> x in old' && Clear(base, n, x))
  {
    at := ApartPlaces(base, Prefix(s), n);
    var rest := Apart(Prefix(s), n.left, n.right);
    ApartTidy(base, Prefix(s), n);
    if x in Prefix(s) && Clear(base, n, x) { ApartHas(base, Prefix(s), n, x); }
    assert ([n] + rest)[1..] == rest;
    FillTidy(base, [n] + rest, 0);
  }

  /** A range that the new one meets goes, and with it what it reported outside. */
  lemma MetGoes(base: U32, s: seq<Range>, n: Range, x: Range, p: nat)
    requires Inv(base, s) && Good(base, n) && x in Prefix(s) && !Clear(base, n, x)
    requires Covers(base, x, p) && !Covers(base, n, p)
    ensures !Reported(base, Prefix(Added(s, n.left, n.right)), p)
  {
    if Reported(base, Prefix(Added(s, n.left, n.right)), p) {
      var y := AddedFrom(base, s, n, p);
      TidyUnique(base, Prefix(s), x, y, p);
    }
  }

  /** The entries after adding: the new one, and old ones that have nothing in common with it. */
  lemma AddedMember(base: U32, s: seq<Range>, n: Range, x: Range)
    requires Inv(base, s) && Good(base, n) && x in Prefix(Added(s, n.left, n.right))
    ensures x == n || (&& x in Prefix(s) && Clear(base, n, x) && Good(base, x)
                       && Reported(base, Prefix(s), Off(base, x.left)))
  {
    var rest := Apart(Prefix(s), n.left, n.right);
    ApartTidy(base, Prefix(s), n);
    assert ([n] + rest)[1..] == rest;
    FillTidy(base, [n] + rest, 0);
    assert x in [n] + rest;
    if x != n {
      TidyMember(base, Prefix(s), x);
      MemberTells(base, Prefix(s), x, Off(base, x.left));
    }
  }

  // ----- removing

  /** Distances from a base moved forward. */
  lemma OffMoved(base: U32, base': U32, x: U32)
    requires Off(base, base') <= Off(base, x)
    ensures Off(base', x) == Off(base, x) - Off(base, base')
  {
  }

  lemma {:induction false} Rebased(base: U32, base': U32, s: seq<Range>, p: nat)
    requires Tidy(base, s) && forall x :: x in s ==> Off(base, base') <= Off(base, x.left)
    ensures Tidy(base', s) && (Reported(base', s, p) <==> Reported(base, s, p + Off(base, base')))
  {
    if s != [] {
      Rebased(base, base', s[1..], p);
      OffMoved(base, base', s[0].left);
      OffMoved(base, base', s[0].right);
      forall y | y in s[1..] ensures Clear(base', s[0], y) {
        TidyMember(base, s[1..], y);
        OffMoved(base, base', y.left);
        OffMoved(base, base', y.right);
      }
    }
  }

  /** One range cut off below q: what it covers from there on. */
  lemma OneAbove(base: U32, x: Range, q: U32, p: nat)
    requires Good(base, x) && Off(base, q) < TWO_31
    ensures IfAbove(x, q) != [] ==>
              var y := IfAbove(x, q)[0];
              && Good(base, y) && y.right == x.right
              && Off(base, q) <= Off(base, y.left) && Off(base, x.left) <= Off(base, y.left)
    ensures Reported(base, IfAbove(x, q), p) <==> Covers(base, x, p) && Off(base, q) <= p
  {
    OffOrder(base, x.right, q);
    OffOrder(base, x.left, q);
  }

  lemma {:induction false} AboveMember(base: U32, s: seq<Range>, q: U32, c: Range, y: Range)
    requires Tidy(base, s) && Off(base, q) < TWO_31 && (forall x :: x in s ==> Clear(base, c, x))
    requires y in Above(s, q)
    ensures Clear(base, c, y)
  {
    if y in Above(s[1..], q) {
      AboveMember(base, s[1..], q, c, y);
    } else {
      OneAbove(base, s[0], q, 0);
      assert Clear(base, c, s[0]);
    }
  }

  /** What is left of a tidy list is tidy and covers what it covered from q on. */
  lemma {:induction false} AboveTidy(base: U32, s: seq<Range>, q: U32, p: nat)
    requires Tidy(base, s) && Off(base, q) < TWO_31
    ensures Tidy(base, Above(s, q)) && (forall y :: y in Above(s, q) ==> Off(base, q) <= Off(base, y.left))
    ensures Reported(base, Above(s, q), p) <==> Reported(base, s, p) && Off(base, q) <= p
  {
    if s != [] {
      var one, rest := IfAbove(s[0], q), Above(s[1..], q);
      OneAbove(base, s[0], q, p);
      AboveTidy(base, s[1..], q, p);
      forall y | y in rest ensures Clear(base, s[0], y) { AboveMember(base, s[1..], q, s[0], y); }
      if one != [] { assert (one + rest)[1..] == rest && one[1..] == []; } else { assert one + rest == rest; }
    }
  }

  /** Ranges removed below q, with the base moved up to q or less: the bytes reported are
      exactly those from q on. */
  lemma RemoveKeeps(base: U32, s: seq<Range>, q: U32, base': U32, p: nat)
    requires Inv(base, s) && Off(base, base') <= Off(base, q) < TWO_31
    ensures Inv(base', RemovedLt(s, q))
    ensures (Reported(base', Prefix(RemovedLt(s, q)), p) <==>
             Reported(base, Prefix(s), p + Off(base, base')) && Off(base, q) <= p + Off(base, base'))
  {
    var k := Above(Prefix(s), q);
    AboveTidy(base, Prefix(s), q, p + Off(base, base'));
    Rebased(base, base', k, p);
    PrefixShort(s);
    FillTidy(base', k, p);
    assert k[..|k|] == k;
  }

  lemma {:induction false} AboveFrom(s: seq<Range>, q: U32, x: Range) returns (y: Range)
    requires x in Above(s, q)
    ensures y in s && (x.left == y.left || x.left == q)
  {
    y := s[0];
    if x !in IfAbove(s[0], q) { y := AboveFrom(s[1..], q, x); }
  }

  /** The entries after removing: they start at q, or where an old one did. */
  lemma RemovedMember(base: U32, s: seq<Range>, q: U32, x: Range) returns (y: Range)
    requires Inv(base, s) && Off(base, q) < TWO_31 && x in Prefix(RemovedLt(s, q))
    ensures y in Prefix(s) && Off(base, q) <= Off(base, x.left) && (x.left == y.left || x.left == q)
  {
    AboveTidy(base, Prefix(s), q, 0);
    FillTidy(base, Above(Prefix(s), q), 0);
    y := AboveFrom(Prefix(s), q, x);
  }

  lemma {:induction false} PrefixShort(s: seq<Range>)
    ensures |Prefix(s)| <= |s|
  {
    if s != [] { PrefixShort(s[1..]); }
  }

  // ----- runs

  /** The array, and the unwrapped sequence number expected next. */
  datatype State = State(base: int, s: seq<Range>)

  /** Out-of-order data at left..right; or data delivered, so that base is expected and
      the queue starts at q. */
  datatype Event = Add(left: int, right: int) | Remove(q: int, base: int)

  predicate Legal(st: State, e: Event) {
    match e
    case Add(l, r) => st.base <= l < r < st.base + TWO_31
    case Remove(q, b) => st.base <= b <= q < st.base + TWO_31
  }

  function Step(st: State, e: Event): State {
    match e
    case Add(l, r) => st.(s := if SeqLt(Wrap(l), Wrap(r)) then Added(st.s, Wrap(l), Wrap(r)) else st.s)
    case Remove(q, b) => State(b, RemovedLt(st.s, Wrap(q)))
  }

  ghost predicate Run(sts: seq<State>, evs: seq<Event>) {
    && |sts| == |evs| + 1 && sts[0].s == Fill([])
    && (forall i {:trigger evs[i]} :: 0 <= i < |evs| ==> Legal(sts[i], evs[i]) && sts[i + 1] == Step(sts[i], evs[i]))
  }

  /** Was position x in a range that was added. */
  predicate WasAdded(evs: seq<Event>, x: int) {
    exists i :: 0 <= i < |evs| && evs[i].Add? && evs[i].left <= x < evs[i].right
  }

  ghost predicate Holds(st: State, x: int)
    requires st.base <= x
  {
    Reported(Wrap(st.base), Prefix(st.s), x - st.base)
  }

  lemma OffWrap(base: int, x: int)
    requires base <= x < base + TWO_31
    ensures Off(Wrap(base), Wrap(x)) == x - base
  {
    WrappedDifference(x, base);
  }

  lemma StepKeeps(st: State, e: Event, x: int)
    requires Inv(Wrap(st.base), st.s) && Legal(st, e) && Step(st, e).base <= x
    ensures Inv(Wrap(Step(st, e).base), Step(st, e).s)
    ensures Holds(Step(st, e), x) ==> Holds(st, x) || (e.Add? && e.left <= x < e.right)
  {
    match e
    case Add(l, r) =>
      OffWrap(st.base, l);
      OffWrap(st.base, r);
      OffOrder(Wrap(st.base), Wrap(l), Wrap(r));
      AddKeeps(Wrap(st.base), st.s, Range(Wrap(l), Wrap(r)), x - st.base);
    case Remove(q, b) =>
      OffWrap(st.base, q);
      OffWrap(st.base, b);
      RemoveKeeps(Wrap(st.base), st.s, Wrap(q), Wrap(b), x - b);
  }

  /** In every state of every run the valid entries come first and are disjoint, and what
      they report was in a range that was added.  (Module SackQueue says which are added.) */
  lemma {:induction false} RunKeeps(sts: seq<State>, evs: seq<Event>, i: nat, x: int)
    requires Run(sts, evs) && i < |sts| && sts[i].base <= x
    ensures Inv(Wrap(sts[i].base), sts[i].s)
    ensures Holds(sts[i], x) ==> WasAdded(evs[..i], x)
  {
    if i == 0 {
      PrefixIs(Fill([]), 0);
    } else {
      assert Legal(sts[i - 1], evs[i - 1]);
      RunKeeps(sts, evs, i - 1, x);
      StepKeeps(sts[i - 1], evs[i - 1], x);
      var early, now := evs[..i - 1], evs[..i];
      assert now[i - 1] == evs[i - 1] && forall j :: 0 <= j < i - 1 ==> now[j] == early[j];
    }
  }
}
