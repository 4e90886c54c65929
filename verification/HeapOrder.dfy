/** Which address allocate hands out (lab7/src/memory.c:158-242): the chunk freed last comes first, and
    the chunks of a page come in ascending order. */
module HeapOrder {
  import opened BuddyModel
  import opened BuddySpec
  import opened HeapModel
  import opened HeapTheorems

  lemma PopOfPushed(h: Heap, p: nat, a: nat)
    requires |h.pools| == |h.counts| == POOLS && p < POOLS
    ensures Pushed(h, p, a).pools[p] != [] && Pop(Pushed(h, p, a), p) == (h, a)
  {
    var g := Pushed(h, p, a);
    assert g.pools[p][1..] == h.pools[p];
    assert g.pools[p := h.pools[p]] == h.pools && g.counts[p := h.counts[p]] == h.counts;
  }

  /** The answer to a request of at most half a page is the first chunk of its pool, if it has one. */
  lemma FromPool(h: Heap, size: nat)
    requires Inv(h.buddy) && |h.pools| == |h.counts| == POOLS && size <= 2048 && h.pools[PoolFor(size, 0)] != []
    ensures Allocate(h, size) == Pop(h, PoolFor(size, 0))
  {
    hide Inv, PoolFor;
  }

  /** A chunk just freed is the next one handed out, to any request of its pool, and the heap is then
      what it was before. */
  lemma FreedIsNext(h: Heap, live: map<nat, nat>, a: nat, size: nat)
    requires HeapInv(h, live) && a in live && live[a] <= 2048 && size <= 2048 && PoolFor(size, 0) == PoolFor(live[a], 0)
    ensures a > 0 && h.base <= a && PageOf(h, a) < |h.buddy.frames|
    ensures Inv(FreePtr(h, a).buddy) && Allocate(FreePtr(h, a), size) == (h, a)
  {
    hide HeapInv, Inv, FreePtr, PoolFor, Pop, Pushed, Allocate;
    FreeKeeps(h, live, a);
    HeapParts(h, live);
    FreeIsPush(h, live, a);
    PopOfPushed(h, PoolFor(live[a], 0), a);
    HeapParts(FreePtr(h, a), live - {a});
    FromPool(FreePtr(h, a), size);
  }

  /** n requests of the same size, one after the other. */
  ghost function Again(h: Heap, live: map<nat, nat>, size: nat, n: nat): (r: (Heap, map<nat, nat>))
    requires HeapInv(h, live)
    ensures HeapInv(r.0, r.1)
    decreases n
  {
    if n == 0 then (h, live)
    else
      AllocateKeeps(h, live, size);
      var (g, a) := Allocate(h, size);
      Again(g, if a == 0 then live else live[a := size], size, n - 1)
  }

  /** As long as a pool lasts, its chunks are handed out in their order. */
  lemma {:induction false} PoolInOrder(h: Heap, live: map<nat, nat>, size: nat, n: nat)
    requires HeapInv(h, live) && size <= 2048 && n < |h.pools[PoolFor(size, 0)]|
    ensures Allocate(Again(h, live, size, n).0, size).1 == h.pools[PoolFor(size, 0)][n]
    decreases n
  {
    hide Inv, PoolsOk, LiveSound, BlocksLive, ChunksLive, PoolFor, Allocate;
    HeapParts(h, live);
    FromPool(h, size);
    if n > 0 {
      AllocateKeeps(h, live, size);
      var (g, a) := Allocate(h, size);
      PopPools(h, PoolFor(size, 0));
      PoolInOrder(g, live[a := size], size, n - 1);
    }
  }

  /** An empty pool takes the page that buddy_alloc(0) returns; that request and those that follow it
      get the chunks of the page in ascending order. */
  lemma PageInOrder(h: Heap, live: map<nat, nat>, size: nat, c: nat)
    requires HeapInv(h, live) && size <= 2048 && h.pools[PoolFor(size, 0)] == [] && Alloc(h.buddy, 0).1.Some?
    requires c < PAGE_SIZE / ChunkSize(PoolFor(size, 0))
    ensures Allocate(Again(h, live, size, c).0, size).1 == h.base + Alloc(h.buddy, 0).1.value * PAGE_SIZE + c * ChunkSize(PoolFor(size, 0))
  {
    hide Inv, PoolsOk, LiveSound, BlocksLive, ChunksLive, PoolFor, Alloc, ChunkSize, IsChunk;
    var p := PoolFor(size, 0);
    HeapParts(h, live);
    RefillIs(h, p);
    var g := Refill(h, p).0;
    RefillKeeps(h, live, p);
    HeapParts(g, live);
    FromPool(g, size);
    assert Allocate(h, size) == Allocate(g, size) by { SameAnswer(h, size); }
    PoolInOrder(g, live, size, c);
    if c > 0 { assert Again(h, live, size, c) == Again(g, live, size, c); }
  }

  lemma SameAnswer(h: Heap, size: nat)
    requires Inv(h.buddy) && |h.pools| == |h.counts| == POOLS && size <= 2048 && h.pools[PoolFor(size, 0)] == []
    requires Refill(h, PoolFor(size, 0)).1
    ensures Allocate(h, size) == Pop(Refill(h, PoolFor(size, 0)).0, PoolFor(size, 0))
  {
    hide Inv, PoolFor, Refill, Pop;
  }

  lemma RefillIs(h: Heap, p: nat)
    requires Inv(h.buddy) && p < POOLS == |h.pools| == |h.counts| && h.pools[p] == [] && Alloc(h.buddy, 0).1.Some?
    ensures Refill(h, p).1
    ensures Refill(h, p).0.pools[p] == Slices(h.base + Alloc(h.buddy, 0).1.value * PAGE_SIZE, ChunkSize(p), PAGE_SIZE / ChunkSize(p))
  {
    hide Inv, Alloc, ChunkSize;
  }
}
