/** What allocate and free guarantee over every run of calls. */
module HeapTheorems {
  import opened Bits
  import opened Seqs
  import opened BuddyModel
  import opened BuddySpec
  import opened HeapModel
  import B = BuddyTheorems

  // ---------------------------------------------------------------- frames

  lemma MarkInv(s: State, i: nat, size: nat)
    requires Inv(s) && Live(s, i) && s.frames[i].order == 0 && size >= 16
    ensures Inv(Mark(s, i, size))
  {
    var r := Mark(s, i, size);
    assert Fields(r) by {
      forall j | 0 <= j < |r.frames| ensures FieldsOk(r, j) {
        assert FieldsOk(s, j);
      }
    }
    SameBlocks(s, r);
    assert Lists(r) by {
      forall k | 0 <= k <= MAX_ORDER ensures ListOk(r, k) {
        assert ListOk(s, k);
        assert i !in s.lists[k];
      }
    }
    forall j | 0 <= j < |r.frames| && r.frames[j].status == FRAME_FREE && 0 <= r.frames[j].order < MAX_ORDER
      ensures NoFreeBuddy(r, j)
    {
      assert NoFreeBuddy(s, j);
    }
  }

  /** The pages cut into chunks are the same in both states. */
  ghost predicate SameCutPages(s: State, r: State) {
    && |r.frames| == |s.frames|
    && forall j :: 0 <= j < |s.frames| && (s.frames[j].status >= 16 || r.frames[j].status >= 16) ==> s.frames[j] == r.frames[j]
  }

  lemma AllocKeepsCutPages(s: State, k: nat)
    requires Inv(s)
    ensures SameCutPages(s, Alloc(s, k).0)
  {
    AllocHeld(s, k);
    var r := Alloc(s, k).0;
    forall j | 0 <= j < |s.frames| && (s.frames[j].status >= 16 || r.frames[j].status >= 16)
      ensures s.frames[j] == r.frames[j]
    {
      assert FieldsOk(s, j) && FieldsOk(r, j);
      assert Held(s, j) || Held(r, j);
    }
  }

  lemma FreeKeepsCutPages(s: State, i: nat)
    requires Inv(s) && Live(s, i)
    ensures SameCutPages(s, Free(s, i))
  {
    FreeHeld(s, i);
    var r := Free(s, i);
    forall j | 0 <= j < |s.frames| && (s.frames[j].status >= 16 || r.frames[j].status >= 16)
      ensures s.frames[j] == r.frames[j]
    {
      assert FieldsOk(s, j) && FieldsOk(r, j);
      assert Held(s, j) || Held(r, j);
    }
  }

  /** Live page-level blocks after an allocation or a release. */
  lemma AllocLive(s: State, k: nat, j: nat)
    requires Inv(s)
    ensures var (r, i) := Alloc(s, k);
            && (Live(r, j) <==> Live(s, j) || i == Some(j))
            && (Live(s, j) ==> i != Some(j) && r.frames[j] == s.frames[j])
            && (i == Some(j) && j < |s.frames| ==> !Held(s, j))
  {
    AllocHeld(s, k);
    var (r, i) := Alloc(s, k);
    if j < |s.frames| {
      assert Live(s, j) ==> Held(s, j);
      assert Live(r, j) ==> Held(r, j);
    }
  }

  lemma FreeLive(s: State, i: nat, j: nat)
    requires Inv(s) && Live(s, i)
    ensures Live(Free(s, i), j) <==> Live(s, j) && j != i
    ensures Live(s, j) && j != i ==> Free(s, i).frames[j] == s.frames[j]
  {
    FreeHeld(s, i);
    if j < |s.frames| {
      assert Live(s, j) ==> Held(s, j);
      assert Live(Free(s, i), j) ==> Held(Free(s, i), j);
    }
  }

  /** Chunks and blocks depend only on the base address and the page allocator. */
  lemma SameBuddy(h: Heap, g: Heap, q: nat, x: nat)
    requires g.base == h.base && g.buddy == h.buddy && q < POOLS
    ensures IsChunk(g, q, x) == IsChunk(h, q, x) && IsBlock(g, x) == IsBlock(h, x) && PageOf(g, x) == PageOf(h, x)
  {
  }

  lemma PoolIs(h: Heap, p: nat)
    requires PoolsOk(h) && p < POOLS
    ensures PoolOk(h, p) && h.base > 0 && Inv(h.buddy) && |h.pools| == |h.counts| == POOLS
  {
  }

  lemma FieldsAt(s: State, i: nat)
    requires Inv(s) && i < |s.frames|
    ensures FieldsOk(s, i)
  {
  }

  /** A chunk has one pool. */
  lemma OnePool(h: Heap, p: nat, q: nat, x: nat)
    requires p < POOLS && q < POOLS && IsChunk(h, p, x) && IsChunk(h, q, x)
    ensures p == q
  {
    ChunkSizeInjective(p, q);
  }

  /** A live address is no block and no chunk of another pool than its request's. */
  lemma LiveKind(h: Heap, live: map<nat, nat>, x: nat)
    requires HeapInv(h, live) && x in live
    ensures LiveOk(h, x, live[x]) && x > 0
    ensures live[x] <= 2048 ==> !IsBlock(h, x)
    ensures live[x] > 2048 ==> forall q :: 0 <= q < POOLS ==> !IsChunk(h, q, x)
  {
    hide Inv, PoolOk, BlocksLive, ChunksLive;
    assert LiveOk(h, x, live[x]);
    if live[x] > 2048 {
      forall q | 0 <= q < POOLS ensures !IsChunk(h, q, x) {
        ChunkSizeTable(q);
      }
    }
  }

  // ---------------------------------------------------------------- large requests

  /** A live address lies in a frame that heads a held block. */
  lemma LiveIsHeld(h: Heap, a: nat, size: nat)
    requires Inv(h.buddy) && |h.pools| == POOLS && LiveOk(h, a, size)
    ensures h.base <= a && Held(h.buddy, PageOf(h, a))
    ensures size > 2048 <==> Live(h.buddy, PageOf(h, a))
  {
    hide Inv;
    if size <= 2048 {
      FieldsAt(h.buddy, PageOf(h, a));
    }
  }

  /** A change of the buddy system that leaves the cut pages alone leaves the pools alone. */
  lemma PoolsUnmoved(h: Heap, s: State, live: map<nat, nat>)
    requires PoolsOk(h) && ChunksLive(h, live) && Inv(s) && SameCutPages(h.buddy, s)
    ensures PoolsOk(h.(buddy := s)) && ChunksLive(h.(buddy := s), live)
    ensures forall p, x: nat :: 0 <= p < POOLS ==> IsChunk(h.(buddy := s), p, x) == IsChunk(h, p, x)
  {
    hide Inv;
    var g := h.(buddy := s);
    forall p, x: nat | 0 <= p < POOLS ensures IsChunk(g, p, x) == IsChunk(h, p, x) {
    }
    forall p | 0 <= p < POOLS ensures PoolOk(g, p) {
      assert PoolOk(h, p);
    }
    forall x: nat, p | 0 <= p < POOLS && IsChunk(g, p, x) ensures x in live || x in g.pools[p] {
      assert IsChunk(h, p, x);
    }
  }

  lemma BlockIsLive(h: Heap, live: map<nat, nat>, x: nat)
    requires HeapInv(h, live)
    ensures IsBlock(h, x) ==> x in live
  {
    hide Inv, IsBlock, PoolsOk, LiveSound, ChunksLive;
  }

  lemma LargeLive(h: Heap, live: map<nat, nat>, k: nat, x: nat)
    requires HeapInv(h, live)
    ensures var (s, i) := Alloc(h.buddy, k);
            var g := h.(buddy := s);
            && (x in live ==> LiveOk(g, x, live[x]) && (h.base <= x ==> i != Some(PageOf(h, x))))
            && (IsBlock(g, x) ==> x in live || (h.base <= x && i == Some(PageOf(h, x)) && (x - h.base) % PAGE_SIZE == 0))
  {
    hide Inv, SameCutPages, BlocksLive;
    AllocKeepsCutPages(h.buddy, k);
    var (s, i) := Alloc(h.buddy, k);
    PoolsUnmoved(h, s, live);
    BlockIsLive(h, live, x);
    if h.base <= x {
      AllocLive(h.buddy, k, PageOf(h, x));
    }
    if x in live {
      assert LiveOk(h, x, live[x]);
      LiveIsHeld(h, x, live[x]);
    }
    if IsBlock(h.(buddy := s), x) && Live(h.buddy, PageOf(h, x)) {
      assert IsBlock(h, x);
    }
  }

  lemma LargeLiveAll(h: Heap, live: map<nat, nat>, size: nat)
    requires HeapInv(h, live) && size > 2048 && Alloc(h.buddy, OrderFor(size, 0)).1.Some?
    ensures var (g, a) := Allocate(h, size);
            a !in live && LiveSound(g, live[a := size]) && BlocksLive(g, live[a := size])
  {
    hide PoolOk, ChunksLive, Alloc;
    var k := OrderFor(size, 0);
    var (s, i) := Alloc(h.buddy, k);
    var (g, a) := Allocate(h, size);
    assert PageOf(h, a) == i.value;
    LargeLive(h, live, k, a);
    forall x | x in live ensures LiveOk(g, x, live[x]) {
      LargeLive(h, live, k, x);
    }
    forall x: nat | IsBlock(g, x) && x != a ensures x in live {
      LargeLive(h, live, k, x);
    }
  }

  lemma AllocateLarge(h: Heap, live: map<nat, nat>, size: nat)
    requires HeapInv(h, live) && size > 2048
    ensures var (g, a) := Allocate(h, size);
            if a == 0 then g == h else a !in live && HeapInv(g, live[a := size])
  {
    var k := OrderFor(size, 0);
    var (s, i) := Alloc(h.buddy, k);
    if i.Some? {
      AllocKeepsCutPages(h.buddy, k);
      PoolsUnmoved(h, s, live);
      LargeLiveAll(h, live, size);
    }
  }

  // ---------------------------------------------------------------- small requests

  lemma PopPools(h: Heap, p: nat)
    requires PoolsOk(h) && p < POOLS && h.pools[p] != []
    ensures var (g, a) := Pop(h, p); PoolsOk(g) && IsChunk(h, p, a) && a > 0 && a !in g.pools[p]
    ensures forall q, x: nat :: 0 <= q < POOLS ==> IsChunk(Pop(h, p).0, q, x) == IsChunk(h, q, x)
  {
    hide Inv;
    var (g, a) := Pop(h, p);
    assert PoolOk(h, p) && a in h.pools[p];
    forall q, x: nat | 0 <= q < POOLS ensures IsChunk(g, q, x) == IsChunk(h, q, x) {
    }
    forall q | 0 <= q < POOLS ensures PoolOk(g, q) {
      assert PoolOk(h, q);
    }
  }

  lemma PopLive(h: Heap, live: map<nat, nat>, p: nat, x: nat)
    requires HeapInv(h, live) && p < POOLS && h.pools[p] != [] && x in live
    ensures var (g, a) := Pop(h, p); LiveOk(g, x, live[x]) && x != a
  {
    hide Inv, IsChunk, IsBlock, PoolOk, BlocksLive, ChunksLive, PoolFor;
    PopPools(h, p);
    LiveKind(h, live, x);
    SameBuddy(h, Pop(h, p).0, p, x);
    var (g, a) := Pop(h, p);
    assert h.pools[p] == [a] + g.pools[p];
    if live[x] <= 2048 {
      SameBuddy(h, g, PoolFor(live[x], 0), x);
      if x == a { OnePool(h, PoolFor(live[x], 0), p, x); }
    }
  }

  lemma PopKeeps(h: Heap, live: map<nat, nat>, p: nat, size: nat)
    requires HeapInv(h, live) && p < POOLS && h.pools[p] != [] && size <= 2048 && p == PoolFor(size, 0)
    ensures var (g, a) := Pop(h, p); a > 0 && a !in live && HeapInv(g, live[a := size])
  {
    hide IsChunk, IsBlock, PoolOk, PoolFor, LiveOk, PoolsOk;
    PoolIs(h, p);
    var (g, a) := Pop(h, p);
    var live' := live[a := size];
    PopPools(h, p);
    PopNew(h, p, size);
    forall x | x in live ensures LiveOk(g, x, live[x]) && x != a {
      PopLive(h, live, p, x);
    }
    PopRest(h, p);
    forall x: nat | IsBlock(g, x) ensures x in live' {
      SameBuddy(h, g, p, x);
    }
  }

  lemma PopNew(h: Heap, p: nat, size: nat)
    requires PoolsOk(h) && p < POOLS && h.pools[p] != [] && size <= 2048 && p == PoolFor(size, 0)
    ensures var (g, a) := Pop(h, p); LiveOk(g, a, size)
  {
    hide Inv, IsChunk, IsBlock, PoolOk;
    PopPools(h, p);
    SameBuddy(h, Pop(h, p).0, p, Pop(h, p).1);
  }

  /** What is popped leaves its pool; all else stays. */
  lemma PopRest(h: Heap, p: nat)
    requires p < POOLS == |h.pools| == |h.counts| && h.pools[p] != []
    ensures var (g, a) := Pop(h, p);
            |g.pools| == POOLS && forall q, x :: 0 <= q < POOLS && x in h.pools[q] ==> x == a || x in g.pools[q]
  {
    var (g, a) := Pop(h, p);
    assert h.pools[p] == [a] + g.pools[p];
  }

  /** The page taken by a refill was in no live allocation and not cut before. */
  lemma RefillPageFresh(h: Heap, live: map<nat, nat>, p: nat, q: nat, x: nat)
    requires HeapInv(h, live) && p < POOLS && q < POOLS && Alloc(h.buddy, 0).1.Some?
    requires h.base <= x && PageOf(h, x) == Alloc(h.buddy, 0).1.value
    ensures x !in live && !IsChunk(h, q, x)
  {
    var i := Alloc(h.buddy, 0).1;
    AllocLive(h.buddy, 0, i.value);
    assert FieldsOk(h.buddy, i.value);
    ChunkSizeTable(q);
    if x in live { LiveIsHeld(h, x, live[x]); }
  }

  /** The pages after a refill: one more page of the pool's chunk size. */
  lemma RefillChunks(h: Heap, live: map<nat, nat>, p: nat, q: nat, x: nat)
    requires HeapInv(h, live) && p < POOLS && q < POOLS && h.pools[p] == [] && Refill(h, p).1
    ensures var g := Refill(h, p).0;
            var page := h.base + Alloc(h.buddy, 0).1.value * PAGE_SIZE;
            && (IsChunk(g, q, x) <==> IsChunk(h, q, x) || (q == p && x in g.pools[p]))
            && (x in g.pools[p] ==> page <= x < page + PAGE_SIZE)
            && (page <= x < page + PAGE_SIZE ==> x !in live && !IsChunk(h, q, x))
  {
    hide Inv, PoolOk, LiveSound, BlocksLive, ChunksLive, Alloc, Slices, ChunkSize;
    var i := Alloc(h.buddy, 0).1.value;
    var page := h.base + i * PAGE_SIZE;
    ChunkSizeTable(p);
    ChunkSizeTable(q);
    SlicesMembers(page, ChunkSize(p), x);
    if page <= x < page + PAGE_SIZE {
      assert PageOf(h, x) == i && (x - h.base) % PAGE_SIZE == x - page;
      RefillPageFresh(h, live, p, q, x);
      if ChunkSize(q) == ChunkSize(p) { ChunkSizeInjective(q, p); }
    } else if h.base <= x {
      assert PageOf(h, x) != i;
      AllocKeepsCutPages(h.buddy, 0);
    }
  }

  lemma RefillPools(h: Heap, live: map<nat, nat>, p: nat)
    requires HeapInv(h, live) && p < POOLS && h.pools[p] == [] && Refill(h, p).1
    ensures PoolsOk(Refill(h, p).0) && ChunksLive(Refill(h, p).0, live)
  {
    hide IsChunk, LiveSound, BlocksLive, SameCutPages, ChunkSize;
    var g := Refill(h, p).0;
    var (s, i) := Alloc(h.buddy, 0);
    var page := h.base + i.value * PAGE_SIZE;
    AllocKeepsCutPages(h.buddy, 0);
    ChunkSizeTable(p);
    MarkInv(s, i.value, ChunkSize(p));
    SlicesDistinct(page, ChunkSize(p));
    forall q | 0 <= q < POOLS ensures PoolOk(g, q) {
      assert PoolOk(h, q);
      forall a | a in g.pools[q] ensures IsChunk(g, q, a) {
        RefillChunks(h, live, p, q, a);
      }
    }
    forall x: nat, q | 0 <= q < POOLS && IsChunk(g, q, x) ensures x in live || x in g.pools[q] {
      RefillChunks(h, live, p, q, x);
    }
  }

  lemma RefillLive(h: Heap, live: map<nat, nat>, p: nat, x: nat)
    requires HeapInv(h, live) && p < POOLS && h.pools[p] == [] && Refill(h, p).1
    ensures x in live ==> LiveOk(Refill(h, p).0, x, live[x])
    ensures IsBlock(Refill(h, p).0, x) ==> IsBlock(h, x)
  {
    hide Inv, IsChunk, PoolOk, BlocksLive, ChunksLive, ChunkSize, PoolFor, OrderFor;
    RefillChunks(h, live, p, p, x);
    if h.base <= x {
      AllocLive(h.buddy, 0, PageOf(h, x));
    }
    if x in live {
      assert LiveOk(h, x, live[x]);
      if live[x] <= 2048 { RefillChunks(h, live, p, PoolFor(live[x], 0), x); }
    }
  }

  lemma RefillKeeps(h: Heap, live: map<nat, nat>, p: nat)
    requires HeapInv(h, live) && p < POOLS && h.pools[p] == []
    ensures HeapInv(Refill(h, p).0, live)
  {
    if Refill(h, p).1 {
      var g := Refill(h, p).0;
      RefillPools(h, live, p);
      forall x | x in live ensures LiveOk(g, x, live[x]) {
        RefillLive(h, live, p, x);
      }
      forall x: nat | IsBlock(g, x) ensures x in live {
        RefillLive(h, live, p, x);
      }
    }
  }

  /** allocate either fails without any change or hands out an address that was not live. */
  lemma AllocateKeeps(h: Heap, live: map<nat, nat>, size: nat)
    requires HeapInv(h, live)
    ensures var (g, a) := Allocate(h, size);
            if a == 0 then g == h else a !in live && HeapInv(g, live[a := size])
  {
    if size > 2048 {
      AllocateLarge(h, live, size);
    } else {
      var p := PoolFor(size, 0);
      if h.pools[p] == [] {
        RefillKeeps(h, live, p);
        if Refill(h, p).1 {
          PopKeeps(Refill(h, p).0, live, p, size);
        }
      } else {
        PopKeeps(h, live, p, size);
      }
    }
  }

  /** allocate fails exactly when no aligned run of free frames is large enough, or, for up to half
      a page, when the pool is empty and no frame is free at all. */
  lemma AllocateFailsIff(h: Heap, live: map<nat, nat>, size: nat)
    requires HeapInv(h, live)
    ensures Allocate(h, size).1 == 0 <==>
            if size > 2048 then OrderFor(size, 0) > MAX_ORDER || !exists a: nat :: B.FreeRun(h.buddy, a, OrderFor(size, 0))
            else h.pools[PoolFor(size, 0)] == [] && !exists j: nat :: j < |h.buddy.frames| && FreeAt(h.buddy, j)
  {
    hide HeapInv, B.FreeRun, FreeAt, PoolFor, OrderFor, Alloc;
    HeapParts(h, live);
    if size > 2048 {
      LargeFailsIff(h, OrderFor(size, 0));
    } else {
      SmallFailsIff(h, live, PoolFor(size, 0));
    }
  }

  lemma LargeFailsIff(h: Heap, k: nat)
    requires PoolsOk(h)
    ensures Alloc(h.buddy, k).1.None? <==> k > MAX_ORDER || !exists a: nat :: B.FreeRun(h.buddy, a, k)
  {
    hide PoolOk, Inv, B.FreeRun;
    if k <= MAX_ORDER { B.AllocFailsIffNoFreeRun(h.buddy, k); }
  }

  lemma SmallFailsIff(h: Heap, live: map<nat, nat>, p: nat)
    requires HeapInv(h, live) && p < POOLS
    ensures |h.pools| == |h.counts| == POOLS && Inv(h.buddy)
    ensures h.pools[p] != [] ==> Pop(h, p).1 != 0
    ensures h.pools[p] == [] ==> (Refill(h, p).1 <==> exists j: nat :: j < |h.buddy.frames| && FreeAt(h.buddy, j))
    ensures h.pools[p] == [] && Refill(h, p).1 ==> Pop(Refill(h, p).0, p).1 != 0
  {
    hide HeapInv, FreeAt, ChunkSize, Alloc, Pop;
    HeapParts(h, live);
    B.PageFoundIff(h.buddy);
    if h.pools[p] != [] {
      PopPools(h, p);
    } else if Refill(h, p).1 {
      RefillKeeps(h, live, p);
      HeapParts(Refill(h, p).0, live);
      PopPools(Refill(h, p).0, p);
    }
  }

  lemma HeapParts(h: Heap, live: map<nat, nat>)
    requires HeapInv(h, live)
    ensures PoolsOk(h) && Inv(h.buddy) && |h.pools| == |h.counts| == POOLS
  {
  }

  // ---------------------------------------------------------------- free

  lemma FreeBlockLive(h: Heap, live: map<nat, nat>, a: nat, x: nat)
    requires HeapInv(h, live) && a in live && live[a] > 2048
    ensures var i := PageOf(h, a); h.base <= a && Live(h.buddy, i) && SameCutPages(h.buddy, Free(h.buddy, i))
    ensures var g := h.(buddy := Free(h.buddy, PageOf(h, a)));
            && (x in live && x != a ==> LiveOk(g, x, live[x]))
            && (IsBlock(g, x) ==> x in live && x != a)
            && (x in live && live[x] <= 2048 ==> x != a)
  {
    hide Inv, PoolOk, ChunksLive, Free, IsChunk, SameCutPages, PoolFor, OrderFor;
    LiveKind(h, live, a);
    BlockIsLive(h, live, x);
    var i := PageOf(h, a);
    FreeKeepsCutPages(h.buddy, i);
    FreeBlocks(h, a, x);
    if x in live {
      LiveKind(h, live, x);
      if live[x] <= 2048 { CutChunk(h, h.(buddy := Free(h.buddy, i)), PoolFor(live[x], 0), x); }
    }
  }

  /** Freeing the block at a: other blocks stay blocks, and no new ones appear. */
  lemma FreeBlocks(h: Heap, a: nat, x: nat)
    requires Inv(h.buddy) && IsBlock(h, a)
    ensures var g := h.(buddy := Free(h.buddy, PageOf(h, a)));
            && (IsBlock(g, x) <==> IsBlock(h, x) && x != a)
            && (IsBlock(g, x) ==> g.buddy.frames[PageOf(h, x)] == h.buddy.frames[PageOf(h, x)])
  {
    hide Inv, Free;
    if h.base <= x {
      FreeLive(h.buddy, PageOf(h, a), PageOf(h, x));
      if IsBlock(h, x) && PageOf(h, x) == PageOf(h, a) { BlockByPage(h, a, x); }
    }
  }

  lemma CutChunk(h: Heap, g: Heap, q: nat, x: nat)
    requires g.base == h.base && SameCutPages(h.buddy, g.buddy) && q < POOLS && IsChunk(h, q, x)
    ensures IsChunk(g, q, x)
  {
  }

  lemma FreeLargeKeeps(h: Heap, live: map<nat, nat>, a: nat)
    requires HeapInv(h, live) && a in live && live[a] > 2048
    ensures h.base <= a && PageOf(h, a) < |h.buddy.frames|
    ensures HeapInv(FreePtr(h, a), live - {a})
  {
    FreeBlockLive(h, live, a, a);
    var g := h.(buddy := Free(h.buddy, PageOf(h, a)));
    PoolsUnmoved(h, g.buddy, live);
    forall x | x in live - {a} ensures LiveOk(g, x, live[x]) {
      FreeBlockLive(h, live, a, x);
    }
    forall x: nat | IsBlock(g, x) ensures x in live - {a} {
      FreeBlockLive(h, live, a, x);
    }
    forall x: nat, p | 0 <= p < POOLS && IsChunk(g, p, x) ensures x in live - {a} || x in g.pools[p] {
      assert IsChunk(h, p, x);
      ChunkSizeTable(p);
      FreeBlockLive(h, live, a, x);
    }
  }

  /** free finds the pool a chunk came from by the status of its frame. */
  lemma FreeFindsPool(h: Heap, live: map<nat, nat>, a: nat)
    requires HeapInv(h, live) && a in live && live[a] <= 2048
    ensures a > 0 && h.base <= a && PageOf(h, a) < |h.buddy.frames|
    ensures PoolOf(h.buddy.frames[PageOf(h, a)].status, 0) == PoolFor(live[a], 0)
    ensures var p := PoolFor(live[a], 0);
            FreePtr(h, a) == h.(pools := h.pools[p := [a] + h.pools[p]], counts := h.counts[p := h.counts[p] + 1])
  {
    hide Inv, PoolOk, BlocksLive, ChunksLive, PoolFor, PoolOf;
    LiveKind(h, live, a);
    var p := PoolFor(live[a], 0);
    var status := h.buddy.frames[PageOf(h, a)].status;
    assert ChunkSize(p) == status;
    var q := PoolOf(status, 0);
    ChunkSizeInjective(q, p);
  }

  /** The chunk goes to the front of its pool. */
  function Pushed(h: Heap, p: nat, a: nat): Heap
    requires p < |h.pools| == |h.counts|
  {
    h.(pools := h.pools[p := [a] + h.pools[p]], counts := h.counts[p := h.counts[p] + 1])
  }

  lemma FreeIsPush(h: Heap, live: map<nat, nat>, a: nat)
    requires HeapInv(h, live) && a in live && live[a] <= 2048
    ensures h.base <= a && PageOf(h, a) < |h.buddy.frames| && FreePtr(h, a) == Pushed(h, PoolFor(live[a], 0), a)
    ensures var p := PoolFor(live[a], 0); IsChunk(h, p, a) && a !in h.pools[p]
  {
    hide Inv, PoolsOk, BlocksLive, ChunksLive, FreePtr, IsChunk, PoolFor;
    FreeFindsPool(h, live, a);
    LiveKind(h, live, a);
  }

  lemma PushPools(h: Heap, p: nat, a: nat)
    requires PoolsOk(h) && p < POOLS && IsChunk(h, p, a) && a !in h.pools[p]
    ensures PoolsOk(Pushed(h, p, a))
  {
    hide Inv, IsChunk, ChunkSize;
    var g := Pushed(h, p, a);
    forall q | 0 <= q < POOLS ensures PoolOk(g, q) {
      assert PoolOk(h, q);
      forall x | x in g.pools[q] ensures IsChunk(g, q, x) {
        SameBuddy(h, g, q, x);
      }
    }
  }

  lemma PushLive(h: Heap, live: map<nat, nat>, p: nat, a: nat)
    requires HeapInv(h, live) && a in live && live[a] <= 2048 && p == PoolFor(live[a], 0) && IsChunk(h, p, a)
    ensures LiveSound(Pushed(h, p, a), live - {a}) && BlocksLive(Pushed(h, p, a), live - {a})
  {
    hide Inv, IsChunk, IsBlock, PoolsOk, ChunksLive, PoolFor;
    PoolIs(h, 0);
    var g := Pushed(h, p, a);
    LiveKind(h, live, a);
    forall x | x in live - {a} ensures LiveOk(g, x, live[x]) {
      LiveKind(h, live, x);
      SameBuddy(h, g, p, x);
      if live[x] <= 2048 { SameBuddy(h, g, PoolFor(live[x], 0), x); }
    }
    forall x: nat | IsBlock(g, x) ensures x in live - {a} {
      SameBuddy(h, g, p, x);
    }
  }

  lemma PushChunks(h: Heap, live: map<nat, nat>, p: nat, a: nat)
    requires HeapInv(h, live) && a in live && p < POOLS && IsChunk(h, p, a)
    ensures ChunksLive(Pushed(h, p, a), live - {a})
  {
    hide Inv, IsChunk, PoolOk, LiveSound, BlocksLive;
    var g := Pushed(h, p, a);
    forall x: nat, q | 0 <= q < POOLS && IsChunk(g, q, x) ensures x in live - {a} || x in g.pools[q] {
      SameBuddy(h, g, q, x);
      if x == a { OnePool(h, p, q, x); }
    }
  }

  lemma FreeSmallKeeps(h: Heap, live: map<nat, nat>, a: nat)
    requires HeapInv(h, live) && a in live && live[a] <= 2048
    ensures h.base <= a && PageOf(h, a) < |h.buddy.frames|
    ensures HeapInv(FreePtr(h, a), live - {a})
  {
    hide PoolsOk, LiveSound, BlocksLive, ChunksLive, IsChunk, PoolFor, FreePtr, Pushed;
    var p := PoolFor(live[a], 0);
    FreeIsPush(h, live, a);
    PushPools(h, p, a);
    PushLive(h, live, p, a);
    PushChunks(h, live, p, a);
  }

  /** free of a live address forgets exactly that allocation. */
  lemma FreeKeeps(h: Heap, live: map<nat, nat>, a: nat)
    requires HeapInv(h, live) && a in live
    ensures a > 0 && h.base <= a && PageOf(h, a) < |h.buddy.frames|
    ensures HeapInv(FreePtr(h, a), live - {a})
  {
    assert LiveOk(h, a, live[a]);
    if live[a] > 2048 { FreeLargeKeeps(h, live, a); } else { FreeSmallKeeps(h, live, a); }
  }

  /** A freed page-level block heads nothing that free would act on. */
  lemma FreedBlockIgnored(h: Heap, live: map<nat, nat>, a: nat)
    requires HeapInv(h, live) && a in live && live[a] > 2048
    ensures a > 0 && h.base <= a && PageOf(h, a) < |h.buddy.frames|
    ensures FreePtr(FreePtr(h, a), a) == FreePtr(h, a)
  {
    hide PoolOk, LiveSound, BlocksLive, ChunksLive, Free;
    assert LiveOk(h, a, live[a]) by { LiveKind(h, live, a); }
    var i := PageOf(h, a);
    FreeHeld(h.buddy, i);
    assert !Held(Free(h.buddy, i), i);
    FieldsAt(Free(h.buddy, i), i);
  }

  /** free of any chunk address pushes it, whether or not it is free already. */
  lemma ChunkIsPushed(h: Heap, p: nat, a: nat)
    requires Inv(h.buddy) && |h.pools| == |h.counts| == POOLS && p < POOLS && IsChunk(h, p, a) && a > 0
    ensures FreePtr(h, a) == Pushed(h, p, a)
  {
    hide Inv, PoolOf;
    ChunkSizeTable(p);
    var q := PoolOf(ChunkSize(p), 0);
    ChunkSizeInjective(q, p);
    hide ChunkSize;
    FieldsAt(h.buddy, PageOf(h, a));
  }

  lemma PushedTwice(h: Heap, p: nat, a: nat)
    requires |h.pools| == |h.counts| == POOLS && p < POOLS
    ensures !PoolsOk(Pushed(Pushed(h, p, a), p, a))
  {
    hide Inv, IsChunk;
    var g := Pushed(Pushed(h, p, a), p, a);
    assert g.pools[p][0] == g.pools[p][1] == a;
    assert !PoolOk(g, p);
  }

  /** A freed chunk is put at the front of its pool a second time: the pool is no list of distinct
      chunks any more.  What its links then are says Links.AddedTwiceLoops. */
  lemma FreedChunkTwice(h: Heap, live: map<nat, nat>, a: nat)
    requires HeapInv(h, live) && a in live && live[a] <= 2048
    ensures a > 0 && h.base <= a && PageOf(h, a) < |h.buddy.frames|
    ensures !PoolsOk(FreePtr(FreePtr(h, a), a))
  {
    hide Inv, PoolFor, PoolOk, LiveSound, BlocksLive, ChunksLive, FreePtr, Pushed, IsChunk;
    LiveKind(h, live, a);
    var p := PoolFor(live[a], 0);
    FreeIsPush(h, live, a);
    PushedParts(h, p, a);
    ChunkIsPushed(Pushed(h, p, a), p, a);
    PushedTwice(h, p, a);
  }

  lemma PushedParts(h: Heap, p: nat, a: nat)
    requires |h.pools| == |h.counts| == POOLS && p < POOLS
    ensures var g := Pushed(h, p, a);
            g.buddy == h.buddy && |g.pools| == |g.counts| == POOLS && IsChunk(g, p, a) == IsChunk(h, p, a)
  {
  }

  /** A second free of the same address changes nothing exactly when the allocation was of whole
      pages; a chunk breaks its pool. */
  lemma SecondFreeIff(h: Heap, live: map<nat, nat>, a: nat)
    requires HeapInv(h, live) && a in live
    ensures a > 0 && h.base <= a && PageOf(h, a) < |h.buddy.frames|
    ensures FreePtr(FreePtr(h, a), a) == FreePtr(h, a) <==> live[a] > 2048
    ensures live[a] <= 2048 ==> !PoolsOk(FreePtr(FreePtr(h, a), a))
  {
    FreeKeeps(h, live, a);
    hide FreePtr, PoolOk, LiveSound, BlocksLive, ChunksLive;
    if live[a] > 2048 { FreedBlockIgnored(h, live, a); } else { FreedChunkTwice(h, live, a); }
  }

  // ---------------------------------------------------------------- runs

  lemma NullNotLive(h: Heap, live: map<nat, nat>)
    requires HeapInv(h, live)
    ensures 0 !in live && live - {0} == live
  {
    forall a | a in live ensures a != 0 {
      assert LiveOk(h, a, live[a]);
    }
  }

  datatype Call = Malloc(size: nat) | Release(addr: nat)

  /** A run of calls; releases are of live addresses only. */
  ghost function Run(h: Heap, live: map<nat, nat>, calls: seq<Call>): (r: (Heap, map<nat, nat>))
    requires HeapInv(h, live)
    ensures HeapInv(r.0, r.1)
    decreases |calls|
  {
    if calls == [] then (h, live)
    else
      match calls[0]
      case Malloc(size) =>
        AllocateKeeps(h, live, size);
        var (g, a) := Allocate(h, size);
        Run(g, if a == 0 then live else live[a := size], calls[1..])
      case Release(a) =>
        if a in live then
          FreeKeeps(h, live, a);
          Run(FreePtr(h, a), live - {a}, calls[1..])
        else Run(h, live, calls[1..])
  }

  /** A freshly seeded heap: nothing live, all pools empty. */
  lemma FreshHeap(h: Heap)
    requires h.base > 0 && Inv(h.buddy) && h.pools == seq(POOLS, _ => []) && h.counts == seq(POOLS, _ => 0)
    requires forall i :: 0 <= i < |h.buddy.frames| ==> h.buddy.frames[i].status != FRAME_ALLOC && h.buddy.frames[i].status < 16
    ensures HeapInv(h, map[])
  {
    assert forall p :: 0 <= p < POOLS ==> PoolOk(h, p);
  }

  // ---------------------------------------------------------------- what a run guarantees

  /** Every byte of a live allocation lies in the block headed by the page of its address. */
  lemma BytesInBlock(h: Heap, live: map<nat, nat>, a: nat, y: nat)
    requires HeapInv(h, live) && a in live && a <= y < a + Capacity(live[a])
    ensures h.base <= a && Spans(h.buddy, PageOf(h, a), PageOf(h, y))
    ensures live[a] <= 2048 ==> PageOf(h, y) == PageOf(h, a)
  {
    hide Inv, PoolOk, BlocksLive, ChunksLive;
    LiveKind(h, live, a);
    if live[a] <= 2048 {
      ChunkBytes(h, PoolFor(live[a], 0), a, y);
      FieldsAt(h.buddy, PageOf(h, a));
    } else {
      BlockBytes(a - h.base, PageOf(h, a), OrderFor(live[a], 0), y - h.base);
    }
  }

  lemma ChunkBytes(h: Heap, p: nat, a: nat, y: nat)
    requires p < POOLS && IsChunk(h, p, a) && a <= y < a + ChunkSize(p)
    ensures PageOf(h, y) == PageOf(h, a) && Pow2(0) == 1
  {
    hide ChunkSize, IsChunkSize;
    ChunkSizeTable(p);
    ChunkInPage((a - h.base) % PAGE_SIZE, ChunkSize(p));
    SamePage(a - h.base, y - h.base, ChunkSize(p));
  }

  lemma SamePage(d: nat, e: nat, size: nat)
    requires d <= e < d + size && d % PAGE_SIZE + size <= PAGE_SIZE
    ensures e / PAGE_SIZE == d / PAGE_SIZE
  {
  }

  lemma BlockBytes(d: nat, i: int, k: nat, e: nat)
    requires d % PAGE_SIZE == 0 && i == d / PAGE_SIZE && d <= e < d + PAGE_SIZE * Pow2(k)
    ensures i <= e / PAGE_SIZE < i + Pow2(k)
  {
    assert d == i * PAGE_SIZE;
  }

  lemma ChunkInPage(d: nat, size: int)
    requires IsChunkSize(size) && d < PAGE_SIZE && d % size == 0
    ensures d + size <= PAGE_SIZE
  {
    ChunkArith(0, d, size);
    if size == 16 {} else if size == 32 {} else if size == 64 {} else if size == 128 {}
    else if size == 256 {} else if size == 512 {} else if size == 1024 {} else {}
  }

  lemma ProductGrows(x: nat, y: nat, size: nat)
    ensures x <= y ==> x * size <= y * size
  {
  }

  /** Two multiples of the chunk size inside a page lie a chunk apart. */
  lemma MultiplesApart(d: nat, e: nat, size: int)
    requires IsChunkSize(size) && d < e < PAGE_SIZE && d % size == 0 && e % size == 0
    ensures d + size <= e
  {
    hide IsChunkSize;
    SizePositive(size);
    ChunkArith(0, d, size);
    ChunkArith(0, e, size);
    var x, y := d / size, e / size;
    ProductGrows(y, x, size);
    ProductGrows(x + 1, y, size);
    Distribute(size, x);
  }

  /** Live allocations never share a byte, in any state a run can reach. */
  lemma LiveDisjoint(h: Heap, live: map<nat, nat>, a: nat, b: nat, y: nat)
    requires HeapInv(h, live) && a in live && b in live && a < b
    requires a <= y < a + Capacity(live[a])
    ensures !(b <= y < b + Capacity(live[b]))
  {
    hide Fields, Cover, Lists, Listed, Coalesced, PoolOk, BlocksLive, ChunksLive, Capacity, IsChunkSize;
    if b <= y < b + Capacity(live[b]) {
      BytesInBlock(h, live, a, y);
      BytesInBlock(h, live, b, y);
      OneOwner(h.buddy, PageOf(h, a), PageOf(h, b), PageOf(h, y));
      LiveKind(h, live, a);
      LiveKind(h, live, b);
      ApartInPage(h, live, a, b);
    }
  }

  /** Two live addresses in one block lie a request apart. */
  lemma ApartInPage(h: Heap, live: map<nat, nat>, a: nat, b: nat)
    requires |h.pools| == POOLS && a in live && b in live && a < b && LiveOk(h, a, live[a]) && LiveOk(h, b, live[b])
    requires PageOf(h, a) == PageOf(h, b)
    ensures a + Capacity(live[a]) <= b
  {
    KindByPage(h, a, live[a]);
    KindByPage(h, b, live[b]);
    if live[a] <= 2048 {
      SameSizes(h, a, b, PoolFor(live[a], 0), PoolFor(live[b], 0));
    } else {
      BlockByPage(h, a, b);
    }
  }

  lemma KindByPage(h: Heap, x: nat, size: nat)
    requires |h.pools| == POOLS && LiveOk(h, x, size)
    ensures 0 <= PageOf(h, x) < |h.buddy.frames| && (size <= 2048 <==> h.buddy.frames[PageOf(h, x)].status >= 16)
  {
  }

  lemma BlockByPage(h: Heap, a: nat, b: nat)
    requires IsBlock(h, a) && IsBlock(h, b) && PageOf(h, a) == PageOf(h, b)
    ensures a == b
  {
    assert a - h.base == PageOf(h, a) * PAGE_SIZE && b - h.base == PageOf(h, b) * PAGE_SIZE;
  }

  lemma SameSizes(h: Heap, a: nat, b: nat, p: nat, q: nat)
    requires p < POOLS && q < POOLS && IsChunk(h, p, a) && IsChunk(h, q, b) && a < b && PageOf(h, a) == PageOf(h, b)
    ensures a + ChunkSize(p) <= b
  {
    hide ChunkSize, IsChunkSize;
    ChunkSizeTable(p);
    MultiplesApart((a - h.base) % PAGE_SIZE, (b - h.base) % PAGE_SIZE, ChunkSize(p));
  }

  // ---------------------------------------------------------------- chunk counts

  lemma {:induction false} SetOfDistinct<T>(l: seq<T>)
    requires Distinct(l)
    ensures |set x | x in l| == |l|
  {
    if l != [] {
      SetOfDistinct(l[1..]);
      assert (set x | x in l) == (set x | x in l[1..]) + {l[0]};
      assert l[0] !in l[1..];
    }
  }

  lemma SliceOfPage(base: nat, i: nat, size: nat, a: nat)
    requires IsChunkSize(size)
    ensures a in Slices(base + i * PAGE_SIZE, size, PAGE_SIZE / size)
            <==> base <= a && (a - base) / PAGE_SIZE == i && (a - base) % PAGE_SIZE % size == 0
  {
    hide IsChunkSize, Slices;
    SlicesMembers(base + i * PAGE_SIZE, size, a);
    if base <= a { PageOffset(a - base, i); }
  }

  lemma PageOffset(d: nat, i: nat)
    ensures d / PAGE_SIZE == i <==> i * PAGE_SIZE <= d < i * PAGE_SIZE + PAGE_SIZE
    ensures d / PAGE_SIZE == i ==> d % PAGE_SIZE == d - i * PAGE_SIZE
  {
  }

  /** a is the address of a chunk in one of the given pages. */
  predicate InPages(base: nat, size: nat, pages: set<nat>, a: nat)
    requires size > 0
  {
    base <= a && (a - base) / PAGE_SIZE in pages && (a - base) % PAGE_SIZE % size == 0
  }

  lemma OnePage(base: nat, size: nat, i: nat) returns (c: set<nat>)
    requires IsChunkSize(size)
    ensures forall a :: a in c <==> InPages(base, size, {i}, a)
    ensures |c| == PAGE_SIZE / size
  {
    hide Slices;
    var l := Slices(base + i * PAGE_SIZE, size, PAGE_SIZE / size);
    SlicesDistinct(base + i * PAGE_SIZE, size);
    SetOfDistinct(l);
    c := set x | x in l;
    forall a: nat ensures a in c <==> InPages(base, size, {i}, a) {
      SliceOfPage(base, i, size, a);
    }
  }

  lemma SplitPages(base: nat, size: nat, pages: set<nat>, i: nat, a: nat)
    requires size > 0 && i in pages
    ensures InPages(base, size, pages, a) <==> InPages(base, size, pages - {i}, a) || InPages(base, size, {i}, a)
    ensures !(InPages(base, size, pages - {i}, a) && InPages(base, size, {i}, a))
  {
  }

  /** All chunks of the given size in the given pages. */
  lemma {:induction false} ChunksOfPages(base: nat, size: nat, pages: set<nat>) returns (c: set<nat>)
    requires IsChunkSize(size)
    ensures forall a :: a in c <==> InPages(base, size, pages, a)
    ensures |c| == PAGE_SIZE / size * |pages|
    decreases |pages|
  {
    hide InPages;
    if pages == {} {
      c := {};
      forall a: nat ensures !InPages(base, size, pages, a) {
        NoPages(base, size, a);
      }
    } else {
      var i :| i in pages;
      var rest := ChunksOfPages(base, size, pages - {i});
      var page := OnePage(base, size, i);
      forall a: nat ensures (InPages(base, size, pages, a) <==> a in rest || a in page) && !(a in rest && a in page) {
        SplitPages(base, size, pages, i, a);
      }
      c := rest + page;
      assert rest !! page;
      assert |pages| == |pages - {i}| + 1;
      Distribute(PAGE_SIZE / size, |pages - {i}|);
    }
  }

  lemma NoPages(base: nat, size: nat, a: nat)
    requires size > 0
    ensures !InPages(base, size, {}, a)
  {
  }

  lemma Distribute(a: nat, b: nat)
    ensures a * (b + 1) == a * b + a
  {
  }

  lemma FreeAndUsedChunks(h: Heap, live: map<nat, nat>, p: nat, a: nat)
    requires HeapInv(h, live) && p < POOLS
    ensures IsChunk(h, p, a) <==> a in h.pools[p] || (a in live && IsChunk(h, p, a))
    ensures a in h.pools[p] ==> a !in live
  {
    assert PoolOk(h, p);
    if a in live {
      assert LiveOk(h, a, live[a]);
      if live[a] <= 2048 && IsChunk(h, p, a) { ChunkSizeInjective(PoolFor(live[a], 0), p); }
      ChunkSizeTable(p);
    }
  }

  lemma AllChunks(h: Heap, p: nat) returns (c: set<nat>)
    requires PoolsOk(h) && p < POOLS
    ensures forall a: nat :: a in c <==> IsChunk(h, p, a)
    ensures |c| == PAGE_SIZE / ChunkSize(p) * |CutPages(h, p)|
  {
    ChunkSizeTable(p);
    c := ChunksOfPages(h.base, ChunkSize(p), CutPages(h, p));
  }

  /** The pages cut for pool p, and the live chunks of pool p. */
  ghost function CutPages(h: Heap, p: nat): set<nat> {
    set j: nat | j < |h.buddy.frames| && h.buddy.frames[j].status == ChunkSize(p)
  }

  ghost function UsedChunks(h: Heap, live: map<nat, nat>, p: nat): set<nat>
    requires p < POOLS
  {
    set a: nat | a in live && IsChunk(h, p, a)
  }

  /** Conservation of chunks: the free chunks of a pool and the live chunks of its size
      together are all the chunks of the pages cut for it. */
  lemma ChunkConservation(h: Heap, live: map<nat, nat>, p: nat)
    requires HeapInv(h, live) && p < POOLS
    ensures h.counts[p] + |UsedChunks(h, live, p)| == PAGE_SIZE / ChunkSize(p) * |CutPages(h, p)|
  {
    var c := AllChunks(h, p);
    var free := set a | a in h.pools[p];
    var used := UsedChunks(h, live, p);
    forall a: nat ensures (a in c <==> a in free || a in used) && !(a in free && a in used) {
      FreeAndUsedChunks(h, live, p, a);
    }
    assert c == free + used && free !! used;
    assert PoolOk(h, p);
    SetOfDistinct(h.pools[p]);
  }

  // ---------------------------------------------------------------- a small heap

  /** A heap with one page, which is free. */
  function TinyHeap(): Heap {
    Heap(PAGE_SIZE, State([FreeHead(0)], seq(MAX_ORDER + 1, k => if k == 0 then [0] else []), seq(MAX_ORDER + 1, k => if k == 0 then 1 else 0)),
           seq(POOLS, _ => []), seq(POOLS, _ => 0))
  }

  lemma TinyHeapOk()
    ensures HeapInv(TinyHeap(), map[]) && Alloc(TinyHeap().buddy, 0).1 == Some(0)
  {
    var s := TinyHeap().buddy;
    assert Pow2(0) == 1;
    assert FieldsOk(s, 0) && Spans(s, 0, 0);
    assert forall j :: 0 <= j < |s.frames| ==> Covered(s, j);
    assert Lists(s) by {
      forall k | 0 <= k <= MAX_ORDER ensures ListOk(s, k) {
      }
    }
    FreshHeap(TinyHeap());
  }

  /** Twelve bytes taken from it and freed twice: the pool is broken. */
  lemma ChunkFreedTwice()
    ensures HeapInv(TinyHeap(), map[])
    ensures var (g, a) := Allocate(TinyHeap(), 12);
            && a != 0 && HeapInv(g, map[a := 12]) && g.base <= a && PageOf(g, a) < |g.buddy.frames|
            && !PoolsOk(FreePtr(FreePtr(g, a), a))
  {
    TinyHeapOk();
    FirstChunk();
    HeapParts(TinyHeap(), map[]);
    hide HeapInv, Allocate, FreePtr, PoolsOk;
    AllocateKeeps(TinyHeap(), map[], 12);
    var (g, a) := Allocate(TinyHeap(), 12);
    SecondFreeIff(g, map[a := 12], a);
  }

  lemma FirstChunk()
    ensures HeapInv(TinyHeap(), map[]) && Allocate(TinyHeap(), 12).1 != 0
  {
    hide HeapInv, PoolFor, ChunkSize, Alloc;
    TinyHeapOk();
    var h, p := TinyHeap(), PoolFor(12, 0);
    HeapParts(h, map[]);
    RefillKeeps(h, map[], p);
    HeapParts(Refill(h, p).0, map[]);
    PopPools(Refill(h, p).0, p);
  }
}
