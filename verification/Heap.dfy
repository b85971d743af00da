/** mem.c: the heap as it lies in memory, a list of headers linked by offsets.  The
    header of a block knows where the next one starts and where the previous one does;
    the blocks of module HeapBlocks are the spans between them.  Every operation reads
    and writes headers only, and does to the blocks what module HeapRuns says. */
module Heap {
  import opened SeqNum
  import opened HeapBlocks
  import opened HeapRuns

  /** struct mem. */
  datatype Mem = Mem(next: nat, prev: nat, used: bool)

  /** A user's pointer, as an offset from the start of the heap. */
  datatype Pointer = Null | To(at: int)

  // ----- the headers mirror the blocks

  function LastStart(bs: seq<Block>, p: nat): nat {
    if bs == [] then p else bs[|bs| - 1].start
  }

  /** There is a header at the start of each block; p is the start of the one before. */
  predicate Linked(h: seq<Mem>, bs: seq<Block>, p: nat) {
    bs == [] || (&& bs[0].start < |h| && h[bs[0].start] == Mem(bs[0].End(), p, bs[0].used)
                 && Linked(h, bs[1..], bs[0].start))
  }

  /** The memory holds the blocks, and the end marker behind them; what lies between the
      headers is the users' and does not matter. */
  predicate Mirrors(h: seq<Mem>, bs: seq<Block>) {
    Tiles(bs, 0, SIZE) && |h| == SIZE + 1 && h[SIZE] == Mem(SIZE, SIZE, true) && Linked(h, bs, 0)
  }

  lemma {:induction false} LinkedSplit(h: seq<Mem>, a: seq<Block>, b: seq<Block>, p: nat)
    ensures Linked(h, a + b, p) <==> Linked(h, a, p) && Linked(h, b, LastStart(a, p))
  {
    if a == [] {
      assert a + b == b;
    } else {
      assert (a + b)[1..] == a[1..] + b;
      LinkedSplit(h, a[1..], b, a[0].start);
    }
  }

  ghost predicate Same(h: seq<Mem>, g: seq<Mem>, x: int, y: int) {
    |h| == |g| && (forall o :: 0 <= o < |h| && x <= o < y ==> g[o] == h[o])
  }

  /** Only what lies between the ends matters to the links. */
  lemma {:induction false} LinkedFrame(h: seq<Mem>, g: seq<Mem>, bs: seq<Block>, x: nat, y: nat, p: nat)
    requires Tiles(bs, x, y) && Linked(h, bs, p) && Same(h, g, x, y)
    ensures Linked(g, bs, p)
  {
    if bs != [] {
      TilesGrow(bs[1..], bs[0].End(), y);
      LinkedFrame(h, g, bs[1..], bs[0].End(), y, bs[0].start);
    }
  }

  /** The header of block k. */
  lemma Look(h: seq<Mem>, bs: seq<Block>, k: nat)
    requires Mirrors(h, bs) && k < |bs|
    ensures bs[k].start < SIZE && Sound(bs[k])
    ensures h[bs[k].start] == Mem(bs[k].End(), LastStart(bs[..k], 0), bs[k].used)
    ensures Linked(h, bs[..k], 0) && Linked(h, bs[k..], LastStart(bs[..k], 0))
  {
    CutTiles(bs, k, k);
    assert bs == bs[..k] + bs[k..] && bs[k..][0] == bs[k] && bs[k..k + 1] == [bs[k]];
    LinkedSplit(h, bs[..k], bs[k..], 0);
  }

  /** Where block k starts; the end marker for the number of blocks. */
  function At(bs: seq<Block>, k: nat): nat {
    if k < |bs| then bs[k].start else SIZE
  }

  lemma NextAt(bs: seq<Block>, k: nat)
    requires Tiles(bs, 0, SIZE) && k < |bs|
    ensures bs[k].End() == At(bs, k + 1) && Sound(bs[k])
    ensures bs[k].End() <= SIZE && (bs[k].End() == SIZE <==> k + 1 == |bs|)
  {
    CutTiles(bs, k, k);
    assert bs[k..k + 1] == [bs[k]];
    if k + 1 < |bs| {
      assert bs[k + 1..][0] == bs[k + 1];
      CutTiles(bs, k + 1, k + 1);
    }
  }

  lemma AtAscends(bs: seq<Block>, j: nat, k: nat)
    requires Tiles(bs, 0, SIZE) && j < k <= |bs|
    ensures At(bs, j) < At(bs, k)
  {
    CutTiles(bs, j, k - 1);
    NextAt(bs, k - 1);
  }

  /** Headers rewritten from block p to block n, and the back link behind them: the
      memory holds the blocks in their place. */
  lemma Relinked(h: seq<Mem>, g: seq<Mem>, bs: seq<Block>, p: nat, n: nat, repl: seq<Block>)
    requires Mirrors(h, bs) && p <= n < |bs| && repl != []
    requires Tiles(repl, bs[p].start, bs[n].End()) && Linked(g, repl, LastStart(bs[..p], 0))
    requires Same(h, g, 0, bs[p].start) && Same(h, g, bs[n].End() + 1, SIZE + 1)
    requires bs[n].End() < |h|
    requires g[bs[n].End()] ==
      if bs[n].End() != SIZE then h[bs[n].End()].(prev := LastStart(repl, 0)) else h[bs[n].End()]
    ensures Mirrors(g, bs[..p] + repl + bs[n + 1..])
  {
    var pre, post := bs[..p], bs[n + 1..];
    CutTiles(bs, p, n);
    EndOfTiles(repl, bs[p].start, bs[n].End());
    EndOfTiles(pre, 0, bs[p].start);
    TilesSplit3(pre, repl, post, SIZE);
    Look(h, bs, p);
    LinkedFrame(h, g, pre, 0, bs[p].start, 0);
    NextAt(bs, n);
    if post != [] {
      Look(h, bs, n + 1);
      TilesGrow(post[1..], post[0].End(), SIZE);
      LinkedFrame(h, g, post[1..], post[0].End(), SIZE, post[0].start);
    }
    LinkedSplit(g, pre, repl, 0);
    LinkedSplit(g, pre + repl, post, 0);
  }

  // ----- the three ways in which headers are rewritten

  /** Sets or clears mem->used of block k. */
  method SetUsed(hdr: array<Mem>, ptr: nat, used: bool, ghost bs: seq<Block>, ghost k: nat)
    requires Mirrors(hdr[..], bs) && k < |bs| && ptr == bs[k].start < SIZE
    modifies hdr
    ensures Mirrors(hdr[..], bs[k := bs[k].(used := used)])
    ensures hdr[ptr].used == used
  {
    Look(hdr[..], bs, k);
    NextAt(bs, k);
    ghost var h := hdr[..];
    hdr[ptr] := hdr[ptr].(used := used);
    ghost var b := bs[k].(used := used);
    assert [b][1..] == [];
    Relinked(h, hdr[..], bs, k, k, [b]);
    assert bs[k := b] == bs[..k] + [b] + bs[k + 1..];
  }

  lemma Placed(h: seq<Mem>, g: seq<Mem>, bs: seq<Block>, k: nat, n: nat, b: Block, c: Block)
    requires Mirrors(h, bs) && k <= n < |bs| && bs[n].End() < |h|
    requires Sound(b) && Sound(c) && b.start == bs[k].start && b.End() == c.start && c.End() == bs[n].End()
    requires Same(h, g, 0, b.start) && Same(h, g, c.End() + 1, SIZE + 1)
    requires g[b.start] == Mem(c.start, LastStart(bs[..k], 0), b.used)
    requires g[c.start] == Mem(c.End(), b.start, c.used)
    requires g[c.End()] == if c.End() != SIZE then h[c.End()].(prev := c.start) else h[c.End()]
    ensures Mirrors(g, bs[..k] + [b, c] + bs[n + 1..])
  {
    assert [b, c][1..] == [c] && [c][1..] == [];
    Relinked(h, g, bs, k, n, [b, c]);
  }

  /** A new free block at ptr2 takes what lies between it and `next`, the end of block n. */
  method Place(hdr: array<Mem>, ptr: nat, ptr2: nat, next: nat, ghost bs: seq<Block>, ghost k: nat, ghost n: nat)
    requires Mirrors(hdr[..], bs) && k <= n < |bs| && ptr == bs[k].start && next == bs[n].End() <= SIZE
    requires ptr + HDR + MIN <= ptr2 && ptr2 + HDR + MIN <= next && Aligned(ptr2) && Aligned(next)
    modifies hdr
    ensures Mirrors(hdr[..], bs[..k] + [bs[k].(span := ptr2 - ptr), Block(ptr2, next - ptr2, false)] + bs[n + 1..])
  {
    Look(hdr[..], bs, k);
    NextAt(bs, n);
    ghost var h := hdr[..];
    hdr[ptr2] := Mem(next, ptr, false);
    hdr[ptr] := hdr[ptr].(next := ptr2);
    if next != SIZE {
      hdr[next] := hdr[next].(prev := ptr2);
    }
    DiffAligned(ptr, ptr2);
    DiffAligned(ptr2, next);
    Placed(h, hdr[..], bs, k, n, bs[k].(span := ptr2 - ptr), Block(ptr2, next - ptr2, false));
  }

  /** Block k + 1 is swallowed by block k. */
  function Join(bs: seq<Block>, k: nat): seq<Block>
    requires k + 1 < |bs|
  {
    bs[..k] + [bs[k].(span := bs[k].span + bs[k + 1].span)] + bs[k + 2..]
  }

  lemma Joined(h: seq<Mem>, g: seq<Mem>, bs: seq<Block>, k: nat)
    requires Mirrors(h, bs) && k + 1 < |bs| && bs[k + 1].End() < |h|
    requires Same(h, g, 0, bs[k].start) && Same(h, g, bs[k + 1].End() + 1, SIZE + 1)
    requires bs[k].start < |h| && g[bs[k].start] == Mem(bs[k + 1].End(), LastStart(bs[..k], 0), bs[k].used)
    requires g[bs[k + 1].End()] ==
      if bs[k + 1].End() != SIZE then h[bs[k + 1].End()].(prev := bs[k].start) else h[bs[k + 1].End()]
    ensures Mirrors(g, Join(bs, k))
  {
    NextAt(bs, k);
    NextAt(bs, k + 1);
    OneOfTwo(bs[k], bs[k + 1]);
    OneLinked(g, bs[k].(span := bs[k].span + bs[k + 1].span), LastStart(bs[..k], 0));
    Relinked(h, g, bs, k, k + 1, [bs[k].(span := bs[k].span + bs[k + 1].span)]);
  }

  lemma OneOfTwo(a: Block, b: Block)
    requires Sound(a) && Sound(b) && a.End() == b.start
    ensures Tiles([a.(span := a.span + b.span)], a.start, b.End())
  {
    SumIsAligned(a.span, b.span);
    assert [a.(span := a.span + b.span)][1..] == [];
  }

  lemma OneLinked(g: seq<Mem>, b: Block, p: nat)
    requires b.start < |g| && g[b.start] == Mem(b.End(), p, b.used)
    ensures Linked(g, [b], p) && LastStart([b], 0) == b.start
  {
    assert [b][1..] == [];
  }

  method JoinNext(hdr: array<Mem>, ptr: nat, ghost bs: seq<Block>, ghost k: nat)
    requires Mirrors(hdr[..], bs) && k + 1 < |bs| && ptr == bs[k].start < SIZE
    modifies hdr
    ensures Mirrors(hdr[..], Join(bs, k))
    ensures forall o :: 0 <= o < hdr.Length ==> hdr[o].used == old(hdr[o].used)
  {
    ghost var h := hdr[..];
    Look(h, bs, k);
    Look(h, bs, k + 1);
    NextAt(bs, k);
    NextAt(bs, k + 1);
    var next := hdr[hdr[ptr].next].next;
    hdr[ptr] := hdr[ptr].(next := next);
    if next != SIZE {
      hdr[next] := hdr[next].(prev := ptr);
    }
    Joined(h, hdr[..], bs, k);
  }

  // ----- the heap

  /** mem_link_valid: do the neighbours of the header at i point back to it. */
  predicate LinkValid(h: seq<Mem>, i: nat)
    requires |h| == SIZE + 1 && i < |h|
  {
    var m := h[i];
    && m.next <= SIZE && m.prev <= SIZE
    && (m.prev == i || h[m.prev].next == i)
    && (m.next == SIZE || h[m.next].prev == i)
  }

  class Memory {
    const hdr: array<Mem>
    var lfree: int
    /** MEM_STATS: bytes in used blocks, requests refused, bad pointers seen. */
    var used: int
    var err: nat
    var illegal: nat
    ghost var view: State

    ghost predicate Valid()
      reads this, hdr
    {
      && Held(view) && Mirrors(hdr[..], view.blocks)
      && lfree == At(view.blocks, LowestFree(view.blocks)) && used == UsedSpan(view.blocks)
    }

    /** mem_init. */
    constructor ()
      ensures Valid() && view == Fresh() && illegal == 0
      ensures fresh(hdr)
    {
      hdr := new Mem[SIZE + 1](_ => Mem(0, 0, false));
      lfree, used, err, illegal := 0, 0, 0, 0;
      view := Fresh();
      new;
      hdr[0] := Mem(SIZE, 0, false);
      hdr[SIZE] := Mem(SIZE, SIZE, true);
      assert Fresh().blocks[1..] == [];
      FreshHeld();
    }

    /** The search of mem_malloc: it starts at lfree and stops where no block can be big
        enough, and yet misses none. */
    method FindFit(size: nat) returns (found: bool, ptr: nat)
      requires Valid() && MIN <= size <= SIZE
      ensures found <==> FirstFit(view.blocks, size) < |view.blocks|
      ensures found ==> ptr == At(view.blocks, FirstFit(view.blocks, size))
    {
      ghost var bs, k := view.blocks, LowestFree(view.blocks);
      ptr := lfree;
      while ptr < SIZE - size
        invariant k <= |bs| && ptr == At(bs, k)
        invariant forall i :: 0 <= i < k ==> !Fits(bs[i], size)
        decreases |bs| - k
      {
        Look(hdr[..], bs, k);
        NextAt(bs, k);
        if !hdr[ptr].used && hdr[ptr].next - (ptr + HDR) >= size {
          return true, ptr;
        }
        ptr, k := hdr[ptr].next, k + 1;
      }
      forall i | k <= i < |bs| ensures !Fits(bs[i], size) {
        if k < i { AtAscends(bs, k, i); }
        NextAt(bs, i);
      }
      found := false;
    }
  
    /** The block at ptr is taken, and cut if another fits behind `size` bytes. */
    method Carve(ptr: nat, size: nat, ghost k: nat)
      requires Mirrors(hdr[..], view.blocks) && k < |view.blocks| && ptr == view.blocks[k].start
      requires Fits(view.blocks[k], size) && MIN <= size && Aligned(size)
      modifies hdr, `used
      ensures Mirrors(hdr[..], Allocated(view.blocks, k, size))
      ensures used == old(used) + Allocated(view.blocks, k, size)[k].span
    {
      ghost var bs, f := view.blocks, view.blocks[k := view.blocks[k].(used := true)];
      LookNext(hdr[..], bs, k);
      AllocatedParts(bs, f, k, size);
      SetUsed(hdr, ptr, true, bs, k);
      LookNext(hdr[..], f, k);
      if hdr[ptr].next - (ptr + HDR) >= size + HDR + MIN {
        CutOff(ptr, size, f, k);
        used := used + size + HDR;
      } else {
        used := used + hdr[ptr].next - ptr;
      }
    }

    /** What lies behind `size` bytes of block k becomes a free block. */
    method CutOff(ptr: nat, size: nat, ghost f: seq<Block>, ghost k: nat)
      requires Mirrors(hdr[..], f) && k < |f| && ptr == f[k].start < SIZE
      requires MIN <= size && Aligned(size) && size + HDR + MIN <= f[k].Room()
      modifies hdr
      ensures Mirrors(hdr[..],
        f[..k] + [f[k].(span := HDR + size), Block(ptr + HDR + size, f[k].span - HDR - size, false)] + f[k + 1..])
    {
      LookNext(hdr[..], f, k);
      SumAligned(ptr, size);
      SpanAligned(f[k]);
      Place(hdr, ptr, ptr + HDR + size, hdr[ptr].next, f, k, k);
    }

    /** lfree moves up to the next free block, or to the end marker. */
    method RaiseLfree(ghost bs: seq<Block>, ghost k: nat)
      requires Mirrors(hdr[..], bs) && k <= LowestFree(bs) && lfree == At(bs, k)
      modifies `lfree
      ensures lfree == At(bs, LowestFree(bs))
    {
      var cur := lfree;
      ghost var j := k;
      if k < |bs| { Look(hdr[..], bs, k); }
      while hdr[cur].used && cur != SIZE
        invariant k <= j <= LowestFree(bs) && cur == At(bs, j) && cur <= SIZE
        decreases |bs| - j
      {
        if j < |bs| { Look(hdr[..], bs, j); }
        NextAt(bs, j);
        cur, j := hdr[cur].next, j + 1;
      }
      if j < LowestFree(bs) { Look(hdr[..], bs, j); }
      lfree := cur;
    }

    /** mem_malloc. */
    method Malloc(n: U32) returns (p: Pointer)
      requires Valid()
      modifies hdr, `lfree, `used, `err, `view
      ensures Valid() && view == HeapRuns.Malloc(old(view), n)
      ensures p == Null <==> Choice(old(view).blocks, n) == |old(view).blocks|
      ensures p != Null ==> p == To(At(old(view).blocks, Choice(old(view).blocks, n)) + HDR)
      ensures err == old(err) + if p == Null && 0 < n <= SIZE then 1 else 0
    {
      ghost var st := view;
      if n == 0 { return Null; }
      var size := Rounded(n);
      if size == 0 { return Null; }
      var found, ptr := FindFit(size);
      if !found {
        err := err + 1;
        return Null;
      }
      Serve(ptr, size, FirstFit(view.blocks, size));
      MallocKeeps(st, n);
      view := HeapRuns.Malloc(st, n);
      return To(ptr + HDR);
    }

    /** The block found is given out, and lfree moves on if it was the lowest. */
    method Serve(ptr: nat, size: nat, ghost k: nat)
      requires Valid() && k < |view.blocks| && ptr == At(view.blocks, k)
      requires Fits(view.blocks[k], size) && MIN <= size && Aligned(size)
      modifies hdr, `lfree, `used
      ensures var r := Allocated(view.blocks, k, size);
        Mirrors(hdr[..], r) && lfree == At(r, LowestFree(r)) && used == UsedSpan(r)
    {
      ghost var bs, r := view.blocks, Allocated(view.blocks, k, size);
      Carve(ptr, size, k);
      LowestAfter(bs, k, size);
      AllocatedKeeps(bs, k, size);
      if ptr == lfree {
        RaiseLfree(r, k);
      }
    }

    /** plug_holes: the free block at mem is joined with a free block behind and before it. */
    method PlugHoles(mem: nat, ghost f: seq<Block>, ghost k: nat)
      requires Mirrors(hdr[..], f) && k < |f| && !f[k].used && mem == f[k].start < hdr.Length
      requires lfree == At(f, LowestFree(f))
      modifies hdr, `lfree
      ensures Mirrors(hdr[..], Freed(f, k)) && lfree == At(Freed(f, k), LowestFree(Freed(f, k)))
      ensures forall o :: 0 <= o < hdr.Length ==> hdr[o].used == old(hdr[o].used)
    {
      PlugNext(mem, f, k);
      FreedIsJoined(f, k);
      PlugPrev(mem, JoinedNext(f, k), k);
    }

    method PlugNext(mem: nat, ghost f: seq<Block>, ghost k: nat)
      requires Mirrors(hdr[..], f) && k < |f| && !f[k].used && mem == f[k].start < hdr.Length
      requires lfree == At(f, LowestFree(f))
      modifies hdr, `lfree
      ensures Mirrors(hdr[..], JoinedNext(f, k)) && lfree == At(JoinedNext(f, k), LowestFree(JoinedNext(f, k)))
      ensures forall o :: 0 <= o < hdr.Length ==> hdr[o].used == old(hdr[o].used)
    {
      LookNext(hdr[..], f, k);
      var nmem := hdr[mem].next;
      if mem != nmem && !hdr[nmem].used && nmem != SIZE {
        lfree := if lfree == nmem then mem else lfree;
        LowestPrefix(f, Join(f, k), k);
        JoinNext(hdr, mem, f, k);
      }
    }

    method PlugPrev(mem: nat, ghost f: seq<Block>, ghost k: nat)
      requires Mirrors(hdr[..], f) && k < |f| && !f[k].used && mem == f[k].start < hdr.Length
      requires lfree == At(f, LowestFree(f))
      modifies hdr, `lfree
      ensures Mirrors(hdr[..], JoinedPrev(f, k)) && lfree == At(JoinedPrev(f, k), LowestFree(JoinedPrev(f, k)))
      ensures forall o :: 0 <= o < hdr.Length ==> hdr[o].used == old(hdr[o].used)
    {
      LookPrev(hdr[..], f, k);
      var pmem := hdr[mem].prev;
      if pmem != mem && !hdr[pmem].used {
        lfree := if lfree == mem then pmem else lfree;
        LowestPrefix(f, Join(f, k - 1), k - 1);
        JoinNext(hdr, pmem, f, k - 1);
      }
    }

    /** Would mem_free take p for a block in use. */
    predicate LooksUsed(p: Pointer)
      requires hdr.Length == SIZE + 1
      reads this, hdr
    {
      && p.To? && Aligned(p.at) && HDR <= p.at && p.at + MIN <= SIZE
      && hdr[p.at - HDR].used && LinkValid(hdr[..], p.at - HDR)
    }

    /** mem_free.  A block that is held passes every check; a pointer that fails one changes
        nothing but the count of bad pointers.  Only a stray pointer into memory that
        happens to look like a linked header is excluded. */
    method Free(p: Pointer)
      requires Valid()
      requires LooksUsed(p) ==> p.at - HDR in view.live
      modifies hdr, `lfree, `used, `illegal, `view
      ensures Valid()
      ensures p.To? && p.at - HDR in old(view).live ==>
                view == HeapRuns.Free(old(view), p.at - HDR) && illegal == old(illegal) && !LooksUsed(p)
      ensures !(p.To? && p.at - HDR in old(view).live) ==>
                view == old(view) && hdr[..] == old(hdr[..]) && illegal == old(illegal) + if p == Null then 0 else 1
    {
      if p.To? && p.at - HDR in view.live { HeldLooksUsed(hdr[..], view, p.at - HDR); }
      if p == Null { return; }
      if !Aligned(p.at) {
        illegal := illegal + 1;
        return;
      }
      var mem: int := p.at - HDR;
      if mem < 0 || p.at + MIN > SIZE {
        illegal := illegal + 1;
        return;
      }
      if !hdr[mem].used {
        illegal := illegal + 1;
        return;
      }
      if !LinkValid(hdr[..], mem) {
        illegal := illegal + 1;
        return;
      }
      Release(mem);
    }

    method Release(mem: nat)
      requires Valid() && mem in view.live && mem < SIZE
      modifies hdr, `lfree, `used, `view
      ensures Valid() && view == HeapRuns.Free(old(view), mem) && !hdr[mem].used
    {
      ghost var bs, k := view.blocks, IndexOf(view.blocks, mem);
      Unlink(mem, bs, k);
      FreeKeeps(view, mem);
      NotUsed(bs, k);
      view := HeapRuns.Free(view, mem);
    }

    method Unlink(mem: nat, ghost bs: seq<Block>, ghost k: nat)
      requires Mirrors(hdr[..], bs) && k < |bs| && bs[k].used && mem == bs[k].start < SIZE
      requires lfree == At(bs, LowestFree(bs))
      modifies hdr, `lfree, `used
      ensures Mirrors(hdr[..], Freed(bs, k)) && lfree == At(Freed(bs, k), LowestFree(Freed(bs, k)))
      ensures used == old(used) - bs[k].span && !hdr[mem].used
    {
      SetUsed(hdr, mem, false, bs, k);
      ghost var f := bs[k := bs[k].(used := false)];
      LowestOfFreed(bs, f, k);
      FreedAgain(bs, f, k);
      lfree := if mem < lfree then mem else lfree;
      Look(hdr[..], f, k);
      used := used - (hdr[mem].next - mem);
      PlugHoles(mem, f, k);
    }

    /** mem_trim.  A held block only shrinks; anything else changes nothing. */
    method Trim(p: Pointer, n: U32) returns (r: Pointer)
      requires Valid()
      requires p.To? && 0 <= p.at < SIZE ==> p.at - HDR in view.live
      modifies hdr, `lfree, `used, `illegal, `view
      ensures Valid()
      ensures Rounded(n) == 0 ==> r == Null && view == old(view) && illegal == old(illegal)
      ensures Rounded(n) != 0 && !(p.To? && 0 <= p.at < SIZE) ==>
        r == p && view == old(view) && illegal == old(illegal) + 1
      ensures Rounded(n) != 0 && p.To? && 0 <= p.at < SIZE ==>
                && view == HeapRuns.Trim(old(view), p.at - HDR, n) && illegal == old(illegal)
                && r == if CanTrim(old(view).blocks, p.at - HDR, n) then p else Null
    {
      var newsize := Rounded(n);
      if newsize == 0 { return Null; }
      if p.Null? || p.at < 0 || p.at >= SIZE {
        illegal := illegal + 1;
        return p;
      }
      var done := TrimBlock(p.at - HDR, newsize, n);
      return if done then p else Null;
    }

    method TrimBlock(ptr: nat, newsize: nat, ghost n: U32) returns (done: bool)
      requires Valid() && ptr in view.live && newsize == Rounded(n) != 0
      modifies hdr, `lfree, `used, `view
      ensures Valid() && view == HeapRuns.Trim(old(view), ptr, n)
      ensures done <==> CanTrim(old(view).blocks, ptr, n)
    {
      ghost var st, bs, k := view, view.blocks, IndexOf(view.blocks, ptr);
      NotUsed(bs, k);
      LookNext(hdr[..], bs, k);
      TrimKeeps(st, ptr, n);
      var size := hdr[ptr].next - ptr - HDR;
      if newsize > size { return false; }
      view := HeapRuns.Trim(st, ptr, n);
      if newsize != size {
        if Cuts(bs, k, newsize) { TrimmedKeeps(bs, k, newsize, view.blocks); }
        Shrink(ptr, newsize, bs, k);
      }
      return true;
    }

    /** The user writes into a block it holds: whatever header that leaves there, the heap
        does not look at it. */
    method WriteInside(s: nat, at: nat, m: Mem)
      requires Valid() && s in view.live && s < at < s + HDR + UsedBlocks(view.blocks)[s] && at < hdr.Length
      modifies hdr
      ensures Valid() && hdr[..] == old(hdr[..])[at := m]
    {
      ghost var bs, k := view.blocks, IndexOf(view.blocks, s);
      NotUsed(bs, k);
      LookNext(hdr[..], bs, k);
      Unread(hdr[..], hdr[..][at := m], bs, k, at);
      hdr[at] := m;
      assert hdr[..] == old(hdr[..])[at := m];
    }

    method Shrink(ptr: nat, newsize: nat, ghost bs: seq<Block>, ghost k: nat)
      requires Mirrors(hdr[..], bs) && Inv(bs) && k < |bs| && bs[k].used && ptr == bs[k].start < SIZE
      requires MIN <= newsize < bs[k].Room() && Aligned(newsize)
      requires lfree == At(bs, LowestFree(bs))
      modifies hdr, `lfree, `used
      ensures var r := Trimmed(bs, k, newsize); Mirrors(hdr[..], r) && lfree == At(r, LowestFree(r))
      ensures used == old(used) - if Cuts(bs, k, newsize) then bs[k].Room() - newsize else 0
    {
      LookNext(hdr[..], bs, k);
      if Cuts(bs, k, newsize) { LowestOfTrimmed(bs, k, newsize); }
      var mem2 := hdr[ptr].next;
      var size := mem2 - ptr - HDR;
      if !hdr[mem2].used {
        MoveNext(ptr, newsize, bs, k);
        used := used - (size - newsize);
      } else if newsize + HDR + MIN <= size {
        lfree := if ptr + HDR + newsize < lfree then ptr + HDR + newsize else lfree;
        CutOff(ptr, newsize, bs, k);
        used := used - (size - newsize);
      }
    }

    /** The free block behind block k now starts where block k ends after newsize bytes. */
    method MoveNext(ptr: nat, newsize: nat, ghost bs: seq<Block>, ghost k: nat)
      requires Mirrors(hdr[..], bs) && k + 1 < |bs| && !bs[k + 1].used && ptr == bs[k].start < SIZE
      requires MIN <= newsize < bs[k].Room() && Aligned(newsize)
      modifies hdr, `lfree
      ensures Mirrors(hdr[..], bs[..k] + [TrimmedLeft(bs, k, newsize), TrimmedRest(bs, k, newsize)] + bs[k + 2..])
      ensures lfree == if old(lfree) == At(bs, k + 1) then ptr + HDR + newsize else old(lfree)
    {
      LookNext(hdr[..], bs, k);
      LookNext(hdr[..], bs, k + 1);
      var mem2 := hdr[ptr].next;
      var next := hdr[mem2].next;
      lfree := if lfree == mem2 then ptr + HDR + newsize else lfree;
      SumAligned(ptr, newsize);
      SpanAligned(bs[k + 1]);
      Place(hdr, ptr, ptr + HDR + newsize, next, bs, k, k + 1);
    }
  }

  lemma SpanAligned(b: Block)
    requires Sound(b)
    ensures Aligned(b.End())
  {
  }

  lemma SumAligned(ptr: nat, size: nat)
    requires Aligned(ptr) && Aligned(size)
    ensures Aligned(ptr + HDR + size)
  {
  }

  /** What the header of block k says of the block behind. */
  lemma LookNext(h: seq<Mem>, f: seq<Block>, k: nat)
    requires Mirrors(h, f) && k < |f|
    ensures f[k].start < SIZE && f[k].End() == At(f, k + 1) && Sound(f[k])
    ensures h[f[k].start] == Mem(f[k].End(), LastStart(f[..k], 0), f[k].used)
    ensures f[k].start < f[k].End() <= SIZE
    ensures !h[f[k].End()].used <==> k + 1 < |f| && !f[k + 1].used
    ensures !f[k].used ==> At(f, LowestFree(f)) <= f[k].start
  {
    Look(h, f, k);
    NextAt(f, k);
    if k + 1 < |f| { Look(h, f, k + 1); }
    if LowestFree(f) < k { AtAscends(f, LowestFree(f), k); }
  }

  /** What the header of block k says of the block before: the first one points to itself. */
  lemma LookPrev(h: seq<Mem>, f: seq<Block>, k: nat)
    requires Mirrors(h, f) && k < |f|
    ensures f[k].start < SIZE && (0 < k ==> f[k - 1].start < SIZE)
    ensures h[f[k].start].prev <= f[k].start
    ensures h[f[k].start].prev == f[k].start <==> k == 0
    ensures 0 < k ==> h[f[k].start].prev == f[k - 1].start && h[f[k - 1].start].used == f[k - 1].used
    ensures 0 < k && !f[k - 1].used ==> At(f, LowestFree(f)) <= f[k - 1].start
  {
    Look(h, f, k);
    if 0 < k {
      AtAscends(f, k - 1, k);
      LookNext(h, f, k - 1);
    }
  }

  /** A free block joined with the one behind if that is free. */
  function JoinedNext(f: seq<Block>, k: nat): seq<Block>
    requires k < |f|
  {
    if k + 1 < |f| && !f[k + 1].used then Join(f, k) else f
  }

  function JoinedPrev(f: seq<Block>, k: nat): seq<Block>
    requires k < |f|
  {
    if 0 < k && !f[k - 1].used then Join(f, k - 1) else f
  }

  /** Freeing is joining forward, then joining backward. */
  lemma FreedIsJoined(f: seq<Block>, k: nat)
    requires Tiles(f, 0, SIZE) && k < |f| && !f[k].used
    ensures k < |JoinedNext(f, k)| && Freed(f, k) == JoinedPrev(JoinedNext(f, k), k)
    ensures JoinedNext(f, k)[k].start == f[k].start && !JoinedNext(f, k)[k].used
  {
    var g, n := JoinedNext(f, k), MergeTo(f, k);
    JoinedNextParts(f, k);
    assert g[k] == Merged(f, k, n);
    if 0 < k { NextAt(f, k - 1); }
    if 0 < k && !f[k - 1].used {
      JoinedPrevParts(f, g, k, n);
    } else {
      assert g == g[..k] + [g[k]] + g[k + 1..];
    }
  }

  lemma JoinedPrevParts(f: seq<Block>, g: seq<Block>, k: nat, n: nat)
    requires 0 < k <= n < |f| && k < |g| && g[..k] == f[..k] && g[k + 1..] == f[n + 1..]
    requires !f[k - 1].used && f[k - 1].End() == g[k].start && g[k].End() == f[n].End()
    ensures Join(g, k - 1) == f[..k - 1] + [Merged(f, k - 1, n)] + f[n + 1..]
  {
    assert g[k - 1] == g[..k][k - 1] == f[k - 1];
    assert g[..k - 1] == g[..k][..k - 1] == f[..k - 1];
  }

  lemma JoinedNextParts(f: seq<Block>, k: nat)
    requires Tiles(f, 0, SIZE) && k < |f| && !f[k].used
    ensures var g, n := JoinedNext(f, k), MergeTo(f, k);
            && k < |g| && g[..k] == f[..k] && g[k + 1..] == f[n + 1..]
            && g[k].start == f[k].start < g[k].End() == f[n].End() && !g[k].used
  {
    NextAt(f, k);
  }

  /** Where the lowest free block is once block k has been given out: behind k if k was
      the lowest. */
  lemma LowestAfter(bs: seq<Block>, k: nat, size: nat)
    requires Inv(bs) && k < |bs| && !bs[k].used
    ensures var r := Allocated(bs, k, size);
            && (At(bs, LowestFree(bs)) == At(bs, k) ==> k <= LowestFree(r) && At(r, k) == At(bs, k))
            && (At(bs, LowestFree(bs)) != At(bs, k) ==> At(r, LowestFree(r)) == At(bs, LowestFree(bs)))
  {
    var r := Allocated(bs, k, size);
    assert r[..k] == bs[..k] && r[k].used && r[k].start == bs[k].start;
    LowestTaken(bs, r, k);
  }

  /** Giving out block k is marking it used and cutting it. */
  lemma AllocatedParts(bs: seq<Block>, f: seq<Block>, k: nat, size: nat)
    requires k < |bs| && f == bs[k := bs[k].(used := true)]
    ensures Allocated(bs, k, size) ==
            if bs[k].Room() >= size + HDR + MIN then
              f[..k] + [f[k].(span := HDR + size), Block(f[k].start + HDR + size, f[k].span - HDR - size, false)]
              + f[k + 1..]
            else f
  {
    UpdatedParts(bs, k, bs[k].(used := true), k, k);
    assert f == f[..k] + [f[k]] + f[k + 1..];
  }

  lemma LowestTaken(bs: seq<Block>, r: seq<Block>, k: nat)
    requires Tiles(bs, 0, SIZE) && k < |bs| && k < |r| && !bs[k].used
    requires r[..k] == bs[..k] && r[k].used && r[k].start == bs[k].start
    ensures At(bs, LowestFree(bs)) == At(bs, k) ==> k <= LowestFree(r) && At(r, k) == At(bs, k)
    ensures At(bs, LowestFree(bs)) != At(bs, k) ==> At(r, LowestFree(r)) == At(bs, LowestFree(bs))
  {
    var j := LowestFree(bs);
    SameBefore(bs, r, k);
    if j < k {
      AtAscends(bs, j, k);
      IsLowest(r, j);
    }
  }

  lemma SameBefore(f: seq<Block>, g: seq<Block>, k: nat)
    requires k <= |f| && k <= |g| && g[..k] == f[..k]
    ensures forall i :: 0 <= i < k ==> g[i] == f[i]
  {
    assert forall i :: 0 <= i < k ==> g[..k][i] == f[..k][i];
  }

  lemma IsLowest(f: seq<Block>, k: nat)
    requires k < |f| && !f[k].used && (forall i :: 0 <= i < k ==> f[i].used)
    ensures LowestFree(f) == k
  {
  }

  /** The lowest free block depends on the blocks up to a free one only. */
  lemma LowestPrefix(f: seq<Block>, g: seq<Block>, k: nat)
    requires k < |f| && k < |g| && !f[k].used
    requires forall i :: 0 <= i <= k ==> g[i].start == f[i].start && g[i].used == f[i].used
    ensures At(g, LowestFree(g)) == At(f, LowestFree(f))
  {
  }

  /** A block that is held passes the checks of mem_free. */
  lemma HeldLooksUsed(h: seq<Mem>, st: State, s: nat)
    requires Held(st) && Mirrors(h, st.blocks) && s in st.live
    ensures Aligned(s + HDR) && s + HDR + MIN <= SIZE && h[s].used && LinkValid(h, s)
  {
    var bs, k := st.blocks, IndexOf(st.blocks, s);
    LookNext(h, bs, k);
    HeaderLinked(h, bs, k);
    UsedWithin(bs, 0, SIZE, s);
    SumAligned(s, 0);
  }

  /** Every block's header passes mem_link_valid. */
  lemma HeaderLinked(h: seq<Mem>, bs: seq<Block>, k: nat)
    requires Mirrors(h, bs) && k < |bs| && bs[k].start < SIZE
    ensures LinkValid(h, bs[k].start) && h[bs[k].start].used == bs[k].used
  {
    LookNext(h, bs, k);
    LookPrev(h, bs, k);
    if 0 < k { LookNext(h, bs, k - 1); }
    if k + 1 < |bs| {
      LookPrev(h, bs, k + 1);
    } else {
      NextAt(bs, k);
    }
  }

  /** What lies inside a block is not looked at. */
  lemma Unread(h: seq<Mem>, g: seq<Mem>, bs: seq<Block>, k: nat, at: nat)
    requires Mirrors(h, bs) && k < |bs| && bs[k].start < at < bs[k].End()
    requires |g| == |h| && (forall o :: 0 <= o < |h| && o != at ==> g[o] == h[o])
    ensures Mirrors(g, bs)
  {
    LookNext(h, bs, k);
    if k + 1 < |bs| { LookPrev(h, bs, k + 1); }
    NextAt(bs, k);
    assert [bs[k]][1..] == [] && bs == bs[..k] + [bs[k]] + bs[k + 1..];
    Relinked(h, g, bs, k, k, [bs[k]]);
  }

  lemma LowestOfFreed(bs: seq<Block>, f: seq<Block>, k: nat)
    requires Tiles(bs, 0, SIZE) && k < |bs| && bs[k].used
    requires f == bs[k := bs[k].(used := false)]
    ensures At(f, LowestFree(f)) == if At(bs, k) < At(bs, LowestFree(bs)) then At(bs, k) else At(bs, LowestFree(bs))
  {
    assert forall i :: 0 <= i < |bs| && i != k ==> f[i] == bs[i];
    if k < LowestFree(bs) {
      AtAscends(bs, k, LowestFree(bs));
      assert !f[k].used && (forall i :: 0 <= i < k ==> f[i].used);
    } else {
      AtAscends(bs, LowestFree(bs), k);
      LowestPrefix(bs, f, LowestFree(bs));
    }
  }

  lemma UpdatedParts(bs: seq<Block>, k: nat, b: Block, p: nat, n: nat)
    requires p <= k <= n < |bs|
    ensures bs[k := b][..p] == bs[..p] && bs[k := b][n + 1..] == bs[n + 1..]
  {
  }

  lemma FreedAgain(bs: seq<Block>, f: seq<Block>, k: nat)
    requires k < |bs| && f == bs[k := bs[k].(used := false)]
    ensures Freed(f, k) == Freed(bs, k)
  {
    UpdatedParts(bs, k, bs[k].(used := false), MergeFrom(bs, k), MergeTo(bs, k));
  }

  /** Where the lowest free block is once block k has been trimmed: what was cut off, if
      that is lower. */
  lemma LowestOfTrimmed(bs: seq<Block>, k: nat, size: nat)
    requires Inv(bs) && k < |bs| && bs[k].used && Cuts(bs, k, size)
    ensures var r, l, c := Trimmed(bs, k, size), At(bs, LowestFree(bs)), bs[k].start + HDR + size;
            At(r, LowestFree(r)) ==
              if MergeTo(bs, k) == k + 1 then (if l == At(bs, k + 1) then c else l) else if c < l then c else l
  {
    var r := Trimmed(bs, k, size);
    assert r[..k] == bs[..k] && r[k] == TrimmedLeft(bs, k, size) && r[k + 1] == TrimmedRest(bs, k, size);
    LowestMoved(bs, r, k, bs[k].start + HDR + size);
  }

  lemma LowestMoved(bs: seq<Block>, r: seq<Block>, k: nat, c: nat)
    requires Tiles(bs, 0, SIZE) && k < |bs| && k + 1 < |r| && bs[k].used
    requires r[..k] == bs[..k] && r[k].used && !r[k + 1].used && r[k + 1].start == c && bs[k].start < c < bs[k].End()
    ensures var l := At(bs, LowestFree(bs));
            At(r, LowestFree(r)) ==
              if MergeTo(bs, k) == k + 1 then (if l == At(bs, k + 1) then c else l) else if c < l then c else l
  {
    var j := LowestFree(bs);
    NextAt(bs, k);
    SameBefore(bs, r, k);
    if j < k {
      AtAscends(bs, j, k);
      AtAscends(bs, j, k + 1);
      IsLowest(r, j);
    } else {
      IsLowest(r, k + 1);
      if k + 1 < j { AtAscends(bs, k + 1, j); }
    }
  }
}
