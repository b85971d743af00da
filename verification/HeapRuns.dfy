/** The heap under any sequence of operations. */
module HeapRuns {
  import opened SeqNum
  import opened HeapBlocks

  /** The blocks, and the sizes asked for, by the start of the block that was given out.
      The user's pointer is HDR above that. */
  datatype State = State(blocks: seq<Block>, live: map<nat, nat>)

  /** Every used block is held by the user and has the room asked for. */
  ghost predicate Held(st: State) {
    && Inv(st.blocks) && st.live.Keys == UsedBlocks(st.blocks).Keys
    && (forall s :: s in st.live ==> st.live[s] <= UsedBlocks(st.blocks)[s])
  }

  function Fresh(): State {
    State([Block(0, SIZE, false)], map[])
  }

  lemma FreshHeld()
    ensures Held(Fresh())
  {
    var b := Block(0, SIZE, false);
    assert [b][1..] == [] && HDR + MIN <= SIZE && Aligned(SIZE);
    assert Sound(b);
    assert Tiles([], SIZE, SIZE);
    assert Tiles([b], 0, SIZE);
    assert Coalesced([b], true);
  }

  // ----- the operations

  /** The block a pointer belongs to. */
  function IndexOf(bs: seq<Block>, s: nat): (k: nat)
    requires s in UsedBlocks(bs)
    ensures k < |bs| && bs[k].start == s && bs[k].used
  {
    if bs[0].used && bs[0].start == s then 0 else 1 + IndexOf(bs[1..], s)
  }

  /** The block a request of n bytes is served from; none if there is none. */
  function Choice(bs: seq<Block>, n: U32): (k: nat)
    ensures k <= |bs|
  {
    if n == 0 || Rounded(n) == 0 then |bs| else FirstFit(bs, Rounded(n))
  }

  function Malloc(st: State, n: U32): State {
    var k := Choice(st.blocks, n);
    if k == |st.blocks| then st
    else State(Allocated(st.blocks, k, Rounded(n)), st.live[st.blocks[k].start := n])
  }

  function Free(st: State, s: nat): State
    requires s in UsedBlocks(st.blocks)
  {
    State(Freed(st.blocks, IndexOf(st.blocks, s)), st.live - {s})
  }

  /** Can block s be trimmed to n bytes: only shrinking is supported. */
  predicate CanTrim(bs: seq<Block>, s: nat, n: U32)
    requires s in UsedBlocks(bs)
  {
    Rounded(n) != 0 && Rounded(n) <= UsedBlocks(bs)[s]
  }

  function Trim(st: State, s: nat, n: U32): State
    requires s in UsedBlocks(st.blocks)
  {
    if !CanTrim(st.blocks, s, n) then st
    else State(Trimmed(st.blocks, IndexOf(st.blocks, s), Rounded(n)), st.live[s := n])
  }

  // ----- what each of them keeps

  /** A request served: a block that was not in use is now, with the room asked for and
      less than a block more; nobody else's block moves or shrinks. */
  lemma MallocKeeps(st: State, n: U32)
    requires Held(st)
    ensures Held(Malloc(st, n))
    ensures var k := Choice(st.blocks, n); k < |st.blocks| ==>
              var s, r := st.blocks[k].start, Malloc(st, n);
              && s !in st.live && r.live == st.live[s := n]
              && s in UsedBlocks(r.blocks) && UsedBlocks(r.blocks)[s] < Rounded(n) + HDR + MIN
              && UsedBlocks(r.blocks) == UsedBlocks(st.blocks)[s := UsedBlocks(r.blocks)[s]]
              && UsedSpan(r.blocks) == UsedSpan(st.blocks) + HDR + UsedBlocks(r.blocks)[s]
  {
    var k := Choice(st.blocks, n);
    if k < |st.blocks| { AllocatedKeeps(st.blocks, k, Rounded(n)); }
  }

  lemma FreeKeeps(st: State, s: nat)
    requires Held(st) && s in st.live
    ensures Held(Free(st, s))
    ensures UsedBlocks(Free(st, s).blocks) == UsedBlocks(st.blocks) - {s}
    ensures UsedSpan(Free(st, s).blocks) == UsedSpan(st.blocks) - HDR - UsedBlocks(st.blocks)[s]
  {
    var k := IndexOf(st.blocks, s);
    NotUsed(st.blocks, k);
    FreedKeeps(st.blocks, k);
  }

  lemma TrimKeeps(st: State, s: nat, n: U32)
    requires Held(st) && s in st.live
    ensures Held(Trim(st, s, n))
    ensures var r := Trim(st, s, n);
            && s in UsedBlocks(r.blocks) && UsedBlocks(r.blocks)[s] <= UsedBlocks(st.blocks)[s]
            && UsedBlocks(r.blocks) == UsedBlocks(st.blocks)[s := UsedBlocks(r.blocks)[s]]
            && UsedSpan(st.blocks) - UsedSpan(r.blocks) == UsedBlocks(st.blocks)[s] - UsedBlocks(r.blocks)[s]
            && (CanTrim(st.blocks, s, n) ==> UsedBlocks(r.blocks)[s] < Rounded(n) + HDR + MIN)
  {
    var k := IndexOf(st.blocks, s);
    NotUsed(st.blocks, k);
    if CanTrim(st.blocks, s, n) && Cuts(st.blocks, k, Rounded(n)) {
      TrimmedKeeps(st.blocks, k, Rounded(n), Trim(st, s, n).blocks);
    } else {
      assert UsedBlocks(st.blocks)[s := UsedBlocks(st.blocks)[s]] == UsedBlocks(st.blocks);
    }
  }

  // ----- what each of them does

  /** A request is rounded up to the least aligned size that holds it and a block's minimum. */
  lemma RoundedIs(n: U32, m: nat)
    ensures Rounded(n) == 0 <==> n > SIZE
    ensures n <= SIZE ==> n <= Rounded(n) && MIN <= Rounded(n) && Aligned(Rounded(n))
    ensures n <= SIZE && Aligned(m) && n <= m && MIN <= m ==> Rounded(n) <= m
  {
  }

  /** A request is served if and only if some free block has room for it, from the lowest of
      these; the block given out has exactly the room asked for, rounded up, unless what is
      left over is too small to be a block.  A request that is not served changes nothing. */
  lemma MallocServes(st: State, n: U32)
    requires Held(st)
    ensures var k, bs := Choice(st.blocks, n), st.blocks;
      && (k < |bs| <==> 0 < n <= SIZE && exists i :: 0 <= i < |bs| && !bs[i].used && Rounded(n) <= bs[i].Room())
      && (k == |bs| ==> Malloc(st, n) == st)
      && (k < |bs| ==>
            && !bs[k].used && Rounded(n) <= bs[k].Room()
            && (forall i :: 0 <= i < k ==> bs[i].used || bs[i].Room() < Rounded(n))
            && bs[k].start in UsedBlocks(Malloc(st, n).blocks)
            && UsedBlocks(Malloc(st, n).blocks)[bs[k].start] ==
                 if bs[k].Room() - Rounded(n) < HDR + MIN then bs[k].Room() else Rounded(n))
  {
    var k := Choice(st.blocks, n);
    if k < |st.blocks| { AllocatedRoom(st.blocks, k, Rounded(n)); }
  }

  lemma AllocatedRoom(bs: seq<Block>, k: nat, size: nat)
    requires Inv(bs) && k < |bs| && Fits(bs[k], size) && Aligned(size) && MIN <= size
    ensures var r := Allocated(bs, k, size);
      && bs[k].start in UsedBlocks(r)
      && UsedBlocks(r)[bs[k].start] == if bs[k].Room() - size < HDR + MIN then bs[k].Room() else size
  {
    AllocatedKeeps(bs, k, size);
  }

  /** A block can be trimmed if it is large enough; it then gets exactly the size asked for,
      rounded up, unless what is cut off can neither join a free block behind nor be a block.
      Otherwise nothing changes. */
  lemma TrimIs(st: State, s: nat, n: U32)
    requires Held(st) && s in st.live
    ensures var k := IndexOf(st.blocks, s); var bs, r := st.blocks, Trim(st, s, n);
      var fits := n <= SIZE && Rounded(n) <= bs[k].Room();
      var behind := k + 1 < |bs| && !bs[k + 1].used;
      && (CanTrim(bs, s, n) <==> fits)
      && s in UsedBlocks(r.blocks)
      && UsedBlocks(r.blocks)[s] ==
           (if fits && (behind || HDR + MIN <= bs[k].Room() - Rounded(n)) then Rounded(n) else bs[k].Room())
      && r.live == (if fits then st.live[s := n] else st.live) && (!fits ==> r == st)
  {
    var k := IndexOf(st.blocks, s);
    NotUsed(st.blocks, k);
    if CanTrim(st.blocks, s, n) && Cuts(st.blocks, k, Rounded(n)) {
      TrimmedKeeps(st.blocks, k, Rounded(n), Trim(st, s, n).blocks);
    }
  }

  // ----- runs

  datatype Event = MallocOf(n: U32) | FreeOf(s: nat) | TrimTo(s: nat, n: U32)

  /** The user frees and trims only what it holds. */
  predicate Legal(st: State, e: Event) {
    match e
    case MallocOf(_) => true
    case FreeOf(s) => s in st.live && s in UsedBlocks(st.blocks)
    case TrimTo(s, _) => s in st.live && s in UsedBlocks(st.blocks)
  }

  function Step(st: State, e: Event): State
    requires Legal(st, e)
  {
    match e
    case MallocOf(n) => Malloc(st, n)
    case FreeOf(s) => Free(st, s)
    case TrimTo(s, n) => Trim(st, s, n)
  }

  ghost predicate Run(states: seq<State>, evs: seq<Event>) {
    && |states| == |evs| + 1 && states[0] == Fresh()
    && (forall i {:trigger evs[i]} :: 0 <= i < |evs| ==>
          Legal(states[i], evs[i]) && states[i + 1] == Step(states[i], evs[i]))
  }

  lemma StepKeeps(st: State, e: Event)
    requires Held(st) && Legal(st, e)
    ensures Held(Step(st, e))
  {
    match e
    case MallocOf(n) => MallocKeeps(st, n);
    case FreeOf(s) => FreeKeeps(st, s);
    case TrimTo(s, n) => TrimKeeps(st, s, n);
  }

  lemma {:induction false} RunKeeps(states: seq<State>, evs: seq<Event>, i: nat)
    requires Run(states, evs) && i < |states|
    ensures Held(states[i])
  {
    if i == 0 {
      FreshHeld();
    } else {
      RunKeeps(states, evs, i - 1);
      assert Legal(states[i - 1], evs[i - 1]);
      StepKeeps(states[i - 1], evs[i - 1]);
    }
  }

  /** In every state of every run: what the user holds is aligned, big enough, inside the
      heap and apart from everything else it holds; freeing all of it gives one whole
      block back. */
  lemma RunIsSafe(states: seq<State>, evs: seq<Event>, i: nat, s: nat, t: nat)
    requires Run(states, evs) && i < |states|
    ensures s in states[i].live ==> Aligned(s + HDR) && s + HDR + states[i].live[s] <= SIZE
    ensures s in states[i].live && t in states[i].live && s < t ==> s + HDR + states[i].live[s] <= t
    ensures states[i].live == map[] ==> states[i].blocks == Fresh().blocks
  {
    RunKeeps(states, evs, i);
    HeldIsSafe(states[i], s, t);
  }

  lemma HeldIsSafe(st: State, s: nat, t: nat)
    requires Held(st)
    ensures s in st.live ==> Aligned(s + HDR) && s + HDR + st.live[s] <= SIZE
    ensures s in st.live && t in st.live && s < t ==> s + HDR + st.live[s] <= t
    ensures st.live == map[] ==> st.blocks == Fresh().blocks
  {
    if s in st.live {
      UsedWithin(st.blocks, 0, SIZE, s);
      if t in st.live && s < t { UsedDisjoint(st.blocks, 0, SIZE, s, t); }
    }
    if st.live == map[] {
      assert UsedBlocks(st.blocks).Keys == {};
      EmptyIsWhole(st.blocks);
    }
  }

  // ----- undoing

  /** Freeing what was just given out restores the heap exactly. */
  lemma MallocFree(bs: seq<Block>, k: nat, size: nat)
    requires Inv(bs) && k < |bs| && Fits(bs[k], size) && MIN <= size
    ensures Freed(Allocated(bs, k, size), k) == bs
  {
    var a := Allocated(bs, k, size);
    SoundAt(bs, k);
    if k > 0 { SoundAt(bs, k - 1); }
    assert bs == bs[..k] + [bs[k]] + bs[k + 1..];
    if |Carved(bs[k], size)| == 2 {
      assert MergeFrom(a, k) == k && MergeTo(a, k) == k + 1;
      assert a[..k] == bs[..k] && a[k + 2..] == bs[k + 1..];
    } else {
      assert a[..k] == bs[..k] && a[k + 1..] == bs[k + 1..];
    }
  }
}
