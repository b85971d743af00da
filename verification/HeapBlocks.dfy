/** The heap as a list of blocks in address order: what allocating, freeing and
    trimming do to it, and what every sequence of them keeps.  Module Heap ties the
    linked list inside the memory to it. */
module HeapBlocks {
  import opened SeqNum

  /** MEM_ALIGNMENT: everything below holds for each of these. */
  type Alignment = a: nat | a == 1 || a == 2 || a == 4 witness 4
  const ALIGN: Alignment

  /** MIN_SIZE_ALIGNED, SIZEOF_STRUCT_MEM and MEM_SIZE_ALIGNED: any aligned sizes, and room
      for one allocation at least. */
  type Size = n: nat | 0 < n < 0x1_0000 && Aligned(n) witness 4
  const MIN: Size
  const HDR: Size
  type HeapSize = n: nat | HDR + MIN <= n < TWO_31 && Aligned(n) witness HDR + MIN
  const SIZE: HeapSize

  predicate Aligned(n: int) {
    if ALIGN == 4 then n % 4 == 0 else if ALIGN == 2 then n % 2 == 0 else true
  }

  /** LWIP_MEM_ALIGN_SIZE in 32 bits. */
  function AlignSize(n: U32): (r: U32)
    ensures n < TWO_31 ==> n <= r < n + 4 && (forall m :: Aligned(m) && n <= m ==> r <= m)
    ensures Aligned(r)
  {
    if ALIGN == 4 then (n + 3) / 4 * 4 % TWO_32 else if ALIGN == 2 then (n + 1) / 2 * 2 % TWO_32 else n
  }

  /** The size a request is rounded up to; 0 if no heap can meet it. */
  function Rounded(n: U32): (r: nat)
    ensures r == 0 <==> n > SIZE
    ensures r != 0 ==> n <= r && MIN <= r <= SIZE && Aligned(r)
    ensures r > MIN ==> r < n + 4
  {
    var s := Max(AlignSize(n), MIN);
    if s > SIZE || s < n then 0 else s
  }

  /** A block from `start` on, header included. */
  datatype Block = Block(start: nat, span: nat, used: bool) {
    function End(): nat { start + span }

    /** The bytes behind the header. */
    function Room(): int { span - HDR }
  }

  predicate Sound(b: Block) {
    Aligned(b.start) && Aligned(b.span) && HDR + MIN <= b.span
  }

  // ----- the invariant

  /** The blocks lie end to end from x to y; each is aligned and holds a header and data. */
  predicate Tiles(bs: seq<Block>, x: nat, y: nat) {
    if bs == [] then x == y else bs[0].start == x && Sound(bs[0]) && Tiles(bs[1..], bs[0].End(), y)
  }

  /** No two neighbours are both free; `used` is the state of what lies before. */
  predicate Coalesced(bs: seq<Block>, used: bool) {
    bs == [] || ((used || bs[0].used) && Coalesced(bs[1..], bs[0].used))
  }

  predicate Inv(bs: seq<Block>) {
    Tiles(bs, 0, SIZE) && Coalesced(bs, true)
  }

  function EndOf(bs: seq<Block>, x: nat): nat {
    if bs == [] then x else bs[|bs| - 1].End()
  }

  function LastUsed(bs: seq<Block>, used: bool): bool {
    if bs == [] then used else bs[|bs| - 1].used
  }

  lemma {:induction false} TilesSplit(a: seq<Block>, b: seq<Block>, x: nat, y: nat)
    ensures Tiles(a + b, x, y) <==> Tiles(a, x, EndOf(a, x)) && Tiles(b, EndOf(a, x), y)
  {
    if a == [] {
      assert a + b == b;
    } else {
      assert (a + b)[1..] == a[1..] + b;
      TilesSplit(a[1..], b, a[0].End(), y);
    }
  }

  lemma {:induction false} CoalescedSplit(a: seq<Block>, b: seq<Block>, used: bool)
    ensures Coalesced(a + b, used) <==> Coalesced(a, used) && Coalesced(b, LastUsed(a, used))
  {
    if a == [] {
      assert a + b == b;
    } else {
      assert (a + b)[1..] == a[1..] + b;
      CoalescedSplit(a[1..], b, a[0].used);
    }
  }

  lemma {:induction false} TilesGrow(bs: seq<Block>, x: nat, y: nat)
    requires Tiles(bs, x, y)
    ensures x <= y && (Aligned(x) ==> Aligned(y))
    ensures bs != [] ==> x + HDR + MIN <= y
  {
    if bs != [] {
      if Aligned(x) { SumIsAligned(x, bs[0].span); }
      TilesGrow(bs[1..], bs[0].End(), y);
    }
  }

  lemma SumIsAligned(x: nat, y: nat)
    requires Aligned(x) && Aligned(y)
    ensures Aligned(x + y)
  {
  }

  // ----- what the blocks mean to the user

  /** The used blocks: where each starts and the room in it. */
  function UsedBlocks(bs: seq<Block>): map<nat, int> {
    if bs == [] then map[]
    else if bs[0].used then map[bs[0].start := bs[0].Room()] + UsedBlocks(bs[1..])
    else UsedBlocks(bs[1..])
  }

  /** The bytes taken by used blocks: the statistic `used`. */
  function UsedSpan(bs: seq<Block>): nat {
    if bs == [] then 0 else (if bs[0].used then bs[0].span else 0) + UsedSpan(bs[1..])
  }

  lemma {:induction false} UsedSplit(a: seq<Block>, b: seq<Block>)
    ensures UsedSpan(a + b) == UsedSpan(a) + UsedSpan(b)
    ensures UsedBlocks(a + b) == UsedBlocks(a) + UsedBlocks(b)
  {
    if a == [] {
      assert a + b == b;
    } else {
      UsedSplit(a[1..], b);
      assert (a + b)[1..] == a[1..] + b;
    }
  }

  /** A used block lies between the ends and is aligned. */
  lemma {:induction false} UsedWithin(bs: seq<Block>, x: nat, y: nat, s: nat)
    requires Tiles(bs, x, y) && s in UsedBlocks(bs)
    ensures x <= s && s + HDR + UsedBlocks(bs)[s] <= y
    ensures Aligned(s) && UsedBlocks(bs)[s] >= MIN && Aligned(UsedBlocks(bs)[s])
  {
    TilesGrow(bs[1..], bs[0].End(), y);
    if s in UsedBlocks(bs[1..]) {
      UsedWithin(bs[1..], bs[0].End(), y, s);
    } else {
      RoomHolds(bs[0]);
    }
  }

  lemma RoomHolds(b: Block)
    requires Sound(b)
    ensures MIN <= b.Room() && Aligned(b.Room())
  {
    DiffAligned(HDR, b.span);
  }

  /** Two used blocks do not overlap. */
  lemma {:induction false} UsedDisjoint(bs: seq<Block>, x: nat, y: nat, s: nat, t: nat)
    requires Tiles(bs, x, y) && s in UsedBlocks(bs) && t in UsedBlocks(bs) && s < t
    ensures s + HDR + UsedBlocks(bs)[s] <= t
  {
    if t in UsedBlocks(bs[1..]) { UsedWithin(bs[1..], bs[0].End(), y, t); }
    if s in UsedBlocks(bs[1..]) {
      UsedWithin(bs[1..], bs[0].End(), y, s);
      UsedDisjoint(bs[1..], bs[0].End(), y, s, t);
    }
  }

  lemma HeadIsListed(bs: seq<Block>)
    requires bs != [] && bs[0].used
    ensures bs[0].start in UsedBlocks(bs)
  {
    assert UsedBlocks(bs) == map[bs[0].start := bs[0].Room()] + UsedBlocks(bs[1..]);
  }

  /** When nothing is in use the heap is one free block again: freeing leaves no trace. */
  lemma EmptyIsWhole(bs: seq<Block>)
    requires Inv(bs) && UsedBlocks(bs) == map[]
    ensures bs == [Block(0, SIZE, false)]
  {
    if bs[0].used { HeadIsListed(bs); }
    if |bs| > 1 {
      assert Coalesced(bs[1..], false);
      HeadIsListed(bs[1..]);
    }
    assert Tiles(bs[1..], bs[0].End(), SIZE);
  }

  // ----- searching

  predicate Fits(b: Block, size: nat) {
    !b.used && b.Room() >= size
  }

  /** The lowest free block that is big enough; the number of blocks if there is none. */
  function FirstFit(bs: seq<Block>, size: nat): (k: nat)
    ensures k <= |bs|
    ensures k < |bs| ==> Fits(bs[k], size)
    ensures forall i :: 0 <= i < k ==> !Fits(bs[i], size)
  {
    if bs == [] || Fits(bs[0], size) then 0 else 1 + FirstFit(bs[1..], size)
  }

  /** The lowest free block, whatever its size. */
  function LowestFree(bs: seq<Block>): (k: nat)
    ensures k <= |bs|
    ensures k < |bs| ==> !bs[k].used
    ensures forall i :: 0 <= i < k ==> bs[i].used
  {
    if bs == [] || !bs[0].used then 0 else 1 + LowestFree(bs[1..])
  }

  // ----- the operations

  /** Block b is given out; it is cut behind `size` bytes of data if a block fits in
      the rest. */
  function Carved(b: Block, size: nat): seq<Block> {
    if b.Room() >= size + HDR + MIN then
      [Block(b.start, HDR + size, true), Block(b.start + HDR + size, b.span - HDR - size, false)]
    else [b.(used := true)]
  }

  function Allocated(bs: seq<Block>, i: nat, size: nat): seq<Block>
    requires i < |bs|
  {
    bs[..i] + Carved(bs[i], size) + bs[i + 1..]
  }

  /** The first and the last block the free block i is merged with. */
  function MergeFrom(bs: seq<Block>, i: nat): (k: nat)
    requires i < |bs|
    ensures k <= i
  {
    if 0 < i && !bs[i - 1].used then i - 1 else i
  }

  function MergeTo(bs: seq<Block>, i: nat): (k: nat)
    requires i < |bs|
    ensures i <= k < |bs|
  {
    if i + 1 < |bs| && !bs[i + 1].used then i + 1 else i
  }

  /** One free block in place of bs[p..n + 1]. */
  function Merged(bs: seq<Block>, p: nat, n: nat): Block
    requires p <= n < |bs|
  {
    Block(bs[p].start, if bs[p].start <= bs[n].End() then bs[n].End() - bs[p].start else 0, false)
  }

  /** Block i becomes free and is merged with its free neighbours. */
  function Freed(bs: seq<Block>, i: nat): seq<Block>
    requires i < |bs|
  {
    var p, n := MergeFrom(bs, i), MergeTo(bs, i);
    bs[..p] + [Merged(bs, p, n)] + bs[n + 1..]
  }

  /** Does trimming block i to `size` give memory back: either the next block is free,
      or a block fits in what is cut off. */
  predicate Cuts(bs: seq<Block>, i: nat, size: nat)
    requires i < |bs|
  {
    size < bs[i].Room() && ((i + 1 < |bs| && !bs[i + 1].used) || size + HDR + MIN <= bs[i].Room())
  }

  /** What is left of block i, and what is cut off: with the free block behind, if any. */
  function TrimmedLeft(bs: seq<Block>, i: nat, size: nat): Block
    requires i < |bs|
  {
    bs[i].(span := HDR + size)
  }

  function TrimmedRest(bs: seq<Block>, i: nat, size: nat): Block
    requires i < |bs| && size <= bs[i].Room()
  {
    var n := MergeTo(bs, i);
    Block(bs[i].start + HDR + size, bs[i].Room() - size + (if i < n then bs[n].span else 0), false)
  }

  /** What is cut off block i joins a free neighbour, or becomes a block; otherwise the
      block stays. */
  function Trimmed(bs: seq<Block>, i: nat, size: nat): seq<Block>
    requires i < |bs|
  {
    if !Cuts(bs, i, size) then bs
    else bs[..i] + [TrimmedLeft(bs, i, size), TrimmedRest(bs, i, size)] + bs[MergeTo(bs, i) + 1..]
  }

  // ----- they keep the invariant

  lemma {:induction false} EndOfTiles(bs: seq<Block>, x: nat, y: nat)
    requires Tiles(bs, x, y)
    ensures EndOf(bs, x) == y
  {
    if bs != [] { EndOfTiles(bs[1..], bs[0].End(), y); }
  }

  /** The three parts of a tiled heap. */
  lemma TilesSplit3(a: seq<Block>, b: seq<Block>, c: seq<Block>, y: nat)
    requires b != []
    ensures (Tiles(a + b + c, 0, y) <==>
             Tiles(a, 0, EndOf(a, 0)) && Tiles(b, EndOf(a, 0), EndOf(b, 0)) && Tiles(c, EndOf(b, 0), y))
  {
    TilesSplit(a + b, c, 0, y);
    TilesSplit(a, b, 0, EndOf(b, 0));
  }

  lemma CoalescedSplit3(a: seq<Block>, b: seq<Block>, c: seq<Block>)
    requires b != []
    ensures (Coalesced(a + b + c, true) <==>
             Coalesced(a, true) && Coalesced(b, LastUsed(a, true)) && Coalesced(c, LastUsed(b, true)))
  {
    CoalescedSplit(a + b, c, true);
    CoalescedSplit(a, b, true);
  }

  lemma UsedSplit3(a: seq<Block>, b: seq<Block>, c: seq<Block>)
    ensures UsedSpan(a + b + c) == UsedSpan(a) + UsedSpan(b) + UsedSpan(c)
    ensures UsedBlocks(a + b + c) == UsedBlocks(a) + UsedBlocks(b) + UsedBlocks(c)
  {
    UsedSplit(a + b, c);
    UsedSplit(a, b);
  }

  /** Blocks in the middle are replaced by blocks over the same bytes. */
  lemma Splice(pre: seq<Block>, mid: seq<Block>, repl: seq<Block>, post: seq<Block>)
    requires Inv(pre + mid + post) && mid != [] && repl != []
    requires Tiles(repl, mid[0].start, EndOf(mid, 0))
    requires Coalesced(repl, LastUsed(pre, true))
    requires post == [] || post[0].used || LastUsed(repl, true)
    ensures Inv(pre + repl + post)
    ensures UsedSpan(pre + repl + post) == UsedSpan(pre + mid + post) - UsedSpan(mid) + UsedSpan(repl)
  {
    TilesSplit3(pre, mid, post, SIZE);
    CoalescedSplit3(pre, mid, post);
    EndOfTiles(repl, mid[0].start, EndOf(mid, 0));
    TilesSplit3(pre, repl, post, SIZE);
    CoalescedSplit3(pre, repl, post);
    UsedSplit3(pre, mid, post);
    UsedSplit3(pre, repl, post);
  }

  /** The blocks that hold data behind a splice, but for those in the middle, are those
      that held data before it. */
  lemma SpliceUsed(pre: seq<Block>, mid: seq<Block>, repl: seq<Block>, post: seq<Block>, t: nat)
    requires Inv(pre + mid + post) && mid != [] && repl != []
    requires Tiles(repl, mid[0].start, EndOf(mid, 0))
    ensures t in UsedBlocks(pre + repl + post) <==>
            t in UsedBlocks(repl) || (t in UsedBlocks(pre + mid + post) && t !in UsedBlocks(mid))
    ensures t in UsedBlocks(repl) ==> UsedBlocks(pre + repl + post)[t] == UsedBlocks(repl)[t]
    ensures t in UsedBlocks(pre + mid + post) && t !in UsedBlocks(mid) && t !in UsedBlocks(repl) ==>
              UsedBlocks(pre + repl + post)[t] == UsedBlocks(pre + mid + post)[t]
  {
    var x, y := mid[0].start, EndOf(mid, 0);
    TilesSplit3(pre, mid, post, SIZE);
    UsedSplit3(pre, mid, post);
    UsedSplit3(pre, repl, post);
    if t in UsedBlocks(pre) { UsedWithin(pre, 0, x, t); }
    if t in UsedBlocks(mid) { UsedWithin(mid, x, y, t); }
    if t in UsedBlocks(repl) { UsedWithin(repl, x, y, t); }
    if t in UsedBlocks(post) { UsedWithin(post, y, SIZE, t); }
  }

  /** What a splice does to the used blocks, given that of the middle. */
  lemma SpliceMap(pre: seq<Block>, mid: seq<Block>, repl: seq<Block>, post: seq<Block>)
    requires Inv(pre + mid + post) && mid != [] && repl != []
    requires Tiles(repl, mid[0].start, EndOf(mid, 0))
    ensures UsedBlocks(pre + repl + post) == UsedBlocks(pre + mid + post) - UsedBlocks(mid).Keys + UsedBlocks(repl)
  {
    forall t ensures t in UsedBlocks(pre + repl + post) <==>
                     t in UsedBlocks(pre + mid + post) - UsedBlocks(mid).Keys + UsedBlocks(repl) {
      SpliceUsed(pre, mid, repl, post, t);
    }
    forall t | t in UsedBlocks(pre + repl + post)
      ensures UsedBlocks(pre + repl + post)[t] ==
              (UsedBlocks(pre + mid + post) - UsedBlocks(mid).Keys + UsedBlocks(repl))[t] {
      SpliceUsed(pre, mid, repl, post, t);
    }
  }

  lemma Parts(bs: seq<Block>, p: nat, n: nat)
    requires p <= n < |bs|
    ensures bs == bs[..p] + bs[p..n + 1] + bs[n + 1..]
  {
  }

  /** The blocks before, from and behind a stretch bs[p..n + 1]. */
  lemma CutTiles(bs: seq<Block>, p: nat, n: nat)
    requires Tiles(bs, 0, SIZE) && p <= n < |bs|
    ensures bs == bs[..p] + bs[p..n + 1] + bs[n + 1..]
    ensures Tiles(bs[..p], 0, bs[p].start) && Tiles(bs[p..n + 1], bs[p].start, bs[n].End())
    ensures Tiles(bs[n + 1..], bs[n].End(), SIZE) && bs[p].start < bs[n].End() <= SIZE
  {
    Parts(bs, p, n);
    TilesSplit3(bs[..p], bs[p..n + 1], bs[n + 1..], SIZE);
    TilesGrow(bs[p..n + 1], bs[p].start, bs[n].End());
    TilesGrow(bs[n + 1..], bs[n].End(), SIZE);
  }

  lemma Cut(bs: seq<Block>, p: nat, n: nat)
    requires Inv(bs) && p <= n < |bs|
    ensures bs == bs[..p] + bs[p..n + 1] + bs[n + 1..]
    ensures Tiles(bs[p..n + 1], bs[p].start, bs[n].End()) && bs[p].start < bs[n].End() <= SIZE
    ensures Coalesced(bs[p..n + 1], LastUsed(bs[..p], true))
    ensures bs[n + 1..] == [] || bs[n].used || bs[n + 1].used
    ensures Tiles(bs[..p], 0, bs[p].start) && Tiles(bs[n + 1..], bs[n].End(), SIZE)
  {
    CutTiles(bs, p, n);
    CoalescedSplit3(bs[..p], bs[p..n + 1], bs[n + 1..]);
  }

  /** The stretch bs[p..n + 1] replaced by blocks over the same bytes, where only the
      block at s may be used. */
  lemma Spliced(bs: seq<Block>, p: nat, n: nat, repl: seq<Block>, s: nat, r: seq<Block>)
    requires Inv(bs) && p <= n < |bs| && repl != [] && r == bs[..p] + repl + bs[n + 1..]
    requires Tiles(repl, bs[p].start, bs[n].End()) && Coalesced(repl, LastUsed(bs[..p], true))
    requires n + 1 == |bs| || bs[n + 1].used || LastUsed(repl, true)
    requires UsedBlocks(bs[p..n + 1]).Keys <= {s} && UsedBlocks(repl).Keys <= {s}
    requires s in UsedBlocks(bs) ==> s in UsedBlocks(bs[p..n + 1])
    ensures Inv(r) && UsedSpan(r) == UsedSpan(bs) - UsedSpan(bs[p..n + 1]) + UsedSpan(repl)
    ensures UsedBlocks(r) ==
      if s in UsedBlocks(repl) then UsedBlocks(bs)[s := UsedBlocks(repl)[s]] else UsedBlocks(bs) - {s}
  {
    Cut(bs, p, n);
    Splice(bs[..p], bs[p..n + 1], repl, bs[n + 1..]);
    SpliceMap(bs[..p], bs[p..n + 1], repl, bs[n + 1..]);
    PutOne(UsedBlocks(bs), UsedBlocks(bs[p..n + 1]).Keys, UsedBlocks(repl), s);
  }

  lemma PutOne(m: map<nat, int>, out: set<nat>, put: map<nat, int>, s: nat)
    requires out <= {s} && put.Keys <= {s} && (s in m ==> s in out)
    ensures m - out + put == if s in put then m[s := put[s]] else m - {s}
  {
  }

  lemma UsedOfOne(b: Block)
    ensures UsedBlocks([b]) == (if b.used then map[b.start := b.Room()] else map[])
    ensures UsedSpan([b]) == if b.used then b.span else 0
  {
  }

  lemma UsedOfTwo(b: Block, c: Block)
    requires !c.used
    ensures UsedBlocks([b, c]) == UsedBlocks([b]) && UsedSpan([b, c]) == UsedSpan([b])
  {
    assert [b, c] == [b] + [c];
    UsedSplit([b], [c]);
    UsedOfOne(c);
  }

  lemma CarvedHolds(b: Block, size: nat, u: bool)
    requires Sound(b) && Fits(b, size) && Aligned(size) && size >= MIN
    ensures var c := Carved(b, size);
            && Tiles(c, b.start, b.End()) && Coalesced(c, u) && c[0].used
            && size <= c[0].Room() < size + HDR + MIN
            && UsedBlocks(c) == map[b.start := c[0].Room()] && UsedSpan(c) == c[0].span
  {
    var c := Carved(b, size);
    if |c| == 2 {
      CutSound(b.(used := true), size, 0);
      PairHolds(c[0], c[1], u);
    } else {
      UsedOfOne(c[0]);
    }
  }

  /** A free block given out: one more used block, big enough and less than one block
      too big; the others are untouched. */
  lemma AllocatedKeeps(bs: seq<Block>, i: nat, size: nat)
    requires Inv(bs) && i < |bs| && Fits(bs[i], size) && Aligned(size) && size >= MIN
    ensures var r, s, room := Allocated(bs, i, size), bs[i].start, Carved(bs[i], size)[0].Room();
            && Inv(r) && size <= room < size + HDR + MIN
            && s !in UsedBlocks(bs) && UsedBlocks(r) == UsedBlocks(bs)[s := room]
            && UsedSpan(r) == UsedSpan(bs) + HDR + room
  {
    var c := Carved(bs[i], size);
    Cut(bs, i, i);
    UsedOfOne(bs[i]);
    assert bs[i..i + 1] == [bs[i]];
    assert Sound(bs[i]) by { assert Tiles([bs[i]], bs[i].start, bs[i].End()); }
    CarvedHolds(bs[i], size, LastUsed(bs[..i], true));
    NotUsed(bs, i);
    Spliced(bs, i, i, c, bs[i].start, Allocated(bs, i, size));
  }

  lemma NotUsed(bs: seq<Block>, i: nat)
    requires Inv(bs) && i < |bs|
    ensures bs[i].start in UsedBlocks(bs) <==> bs[i].used
    ensures bs[i].used ==> UsedBlocks(bs)[bs[i].start] == bs[i].Room()
  {
    Cut(bs, i, i);
    UsedOfOne(bs[i]);
    assert bs[i..i + 1] == [bs[i]];
    SpliceUsed(bs[..i], [bs[i]], [bs[i]], bs[i + 1..], bs[i].start);
    UsedSplit3(bs[..i], [bs[i]], bs[i + 1..]);
    var s := bs[i].start;
    if s in UsedBlocks(bs[..i]) { UsedWithin(bs[..i], 0, s, s); }
    if s in UsedBlocks(bs[i + 1..]) { UsedWithin(bs[i + 1..], bs[i].End(), SIZE, s); }
  }

  lemma Between(bs: seq<Block>, p: nat, i: nat, n: nat)
    requires p <= i <= n < |bs|
    ensures bs[p..n + 1] == bs[p..i] + [bs[i]] + bs[i + 1..n + 1]
  {
  }

  /** The stretch that is merged holds one used block only. */
  lemma MergedStretch(bs: seq<Block>, i: nat)
    requires Inv(bs) && i < |bs| && bs[i].used
    ensures var mid := bs[MergeFrom(bs, i)..MergeTo(bs, i) + 1];
            UsedBlocks(mid) == map[bs[i].start := bs[i].Room()] && UsedSpan(mid) == bs[i].span
  {
    var p, n := MergeFrom(bs, i), MergeTo(bs, i);
    Between(bs, p, i, n);
    UsedSplit3(bs[p..i], [bs[i]], bs[i + 1..n + 1]);
    UsedOfOne(bs[i]);
    UsedOfNone(bs[p..i]);
    UsedOfNone(bs[i + 1..n + 1]);
  }

  lemma DiffAligned(x: nat, y: nat)
    requires Aligned(x) && Aligned(y)
    ensures Aligned(y - x)
  {
  }

  lemma MergedSound(bs: seq<Block>, p: nat, n: nat)
    requires Inv(bs) && p <= n < |bs|
    ensures Tiles([Merged(bs, p, n)], bs[p].start, bs[n].End())
  {
    SoundAt(bs, p);
    SoundAt(bs, n);
    Cut(bs, p, n);
    TilesGrow(bs[p..n + 1], bs[p].start, bs[n].End());
    DiffAligned(bs[p].start, bs[n].End());
    assert [Merged(bs, p, n)][1..] == [];
  }

  lemma UsedOfNone(bs: seq<Block>)
    requires |bs| <= 1 && (bs == [] || !bs[0].used)
    ensures UsedBlocks(bs) == map[] && UsedSpan(bs) == 0
  {
    if bs != [] { UsedOfOne(bs[0]); }
  }

  /** A used block freed: the others are untouched, and no two free blocks are neighbours. */
  lemma FreedKeeps(bs: seq<Block>, i: nat)
    requires Inv(bs) && i < |bs| && bs[i].used
    ensures var r := Freed(bs, i);
            && Inv(r) && UsedSpan(r) == UsedSpan(bs) - bs[i].span
            && bs[i].start in UsedBlocks(bs) && UsedBlocks(r) == UsedBlocks(bs) - {bs[i].start}
  {
    var p, n := MergeFrom(bs, i), MergeTo(bs, i);
    var m := Merged(bs, p, n);
    NotUsed(bs, i);
    MergedStretch(bs, i);
    MergedSound(bs, p, n);
    Cut(bs, p, n);
    UsedOfOne(m);
    Spliced(bs, p, n, [m], bs[i].start, Freed(bs, i));
  }

  lemma PairHolds(b: Block, c: Block, u: bool)
    requires Sound(b) && Sound(c) && b.used && !c.used && c.start == b.End()
    ensures Tiles([b, c], b.start, c.End()) && Coalesced([b, c], u) && !LastUsed([b, c], true)
    ensures UsedBlocks([b, c]) == map[b.start := b.Room()] && UsedSpan([b, c]) == b.span
  {
    assert [b, c][1..] == [c] && [c][1..] == [];
    UsedOfTwo(b, c);
    UsedOfOne(b);
  }

  lemma SoundAt(bs: seq<Block>, i: nat)
    requires Inv(bs) && i < |bs|
    ensures Sound(bs[i]) && bs[i].End() <= SIZE
    ensures i + 1 < |bs| ==> bs[i + 1].start == bs[i].End() && (bs[i].used || bs[i + 1].used)
    ensures i + 1 == |bs| ==> bs[i].End() == SIZE
  {
    Cut(bs, i, i);
    assert bs[i..i + 1] == [bs[i]];
  }

  /** A block cut in two, the second part grown by `more`. */
  lemma CutSound(b: Block, size: nat, more: nat)
    requires Sound(b) && MIN <= size <= b.Room() && Aligned(size) && Aligned(more)
    requires HDR + MIN <= b.Room() - size + more
    ensures Sound(b.(span := HDR + size)) && Sound(Block(b.start + HDR + size, b.Room() - size + more, false))
  {
    SumIsAligned(HDR, size);
    SumIsAligned(b.start, HDR + size);
    DiffAligned(HDR + size, b.span);
    SumIsAligned(b.span - (HDR + size), more);
  }

  /** Block i gives way to a used block and a free one that reaches up to bs[n].End(). */
  lemma TwoForOne(bs: seq<Block>, i: nat, n: nat, left: Block, c: Block, r: seq<Block>)
    requires Inv(bs) && i <= n < |bs| && bs[i].used && n == MergeTo(bs, i)
    requires Sound(left) && Sound(c) && left.used && !c.used
    requires left.start == bs[i].start && left.End() == c.start && c.End() == bs[n].End()
    requires r == bs[..i] + [left, c] + bs[n + 1..]
    ensures Inv(r) && UsedSpan(r) == UsedSpan(bs) - bs[i].span + left.span
    ensures UsedBlocks(r) == UsedBlocks(bs)[bs[i].start := left.Room()]
  {
    Cut(bs, i, n);
    UsedOfOne(bs[i]);
    if i == n {
      assert bs[i..n + 1] == [bs[i]];
    } else {
      assert bs[i..n + 1] == [bs[i], bs[n]];
      UsedOfTwo(bs[i], bs[n]);
    }
    PairHolds(left, c, LastUsed(bs[..i], true));
    if n + 1 < |bs| && n != i { SoundAt(bs, n); }
    Spliced(bs, i, n, [left, c], bs[i].start, r);
  }

  lemma TrimmedParts(bs: seq<Block>, i: nat, size: nat)
    requires Inv(bs) && i < |bs| && bs[i].used && MIN <= size && Aligned(size) && Cuts(bs, i, size)
    ensures var b, c := TrimmedLeft(bs, i, size), TrimmedRest(bs, i, size);
            && Sound(b) && Sound(c) && b.End() == c.start && c.End() == bs[MergeTo(bs, i)].End()
  {
    var n := MergeTo(bs, i);
    SoundAt(bs, i);
    SoundAt(bs, n);
    CutSound(bs[i], size, bs[n].End() - bs[i].End());
  }

  /** A used block trimmed: it keeps the size asked for; the others are untouched. */
  lemma TrimmedKeeps(bs: seq<Block>, i: nat, size: nat, r: seq<Block>)
    requires Inv(bs) && i < |bs| && bs[i].used && MIN <= size && Aligned(size) && Cuts(bs, i, size)
    requires r == Trimmed(bs, i, size)
    ensures Inv(r) && UsedSpan(r) == UsedSpan(bs) - bs[i].Room() + size
    ensures UsedBlocks(r) == UsedBlocks(bs)[bs[i].start := size]
  {
    TrimmedParts(bs, i, size);
    TwoForOne(bs, i, MergeTo(bs, i), TrimmedLeft(bs, i, size), TrimmedRest(bs, i, size), r);
  }
}
