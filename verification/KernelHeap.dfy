/** allocate and free (lab7/src/memory.c:158-242) over the real buddy allocator. */
module KernelHeap {
  import opened Bits
  import opened BuddyModel
  import opened BuddyAllocator
  import M = HeapModel
  import T = HeapTheorems
  import Startup
  import BuddyTheorems

  class KernelHeap {
    const buddy: Buddy
    var pools: seq<seq<nat>>
    var counts: seq<int>
    ghost var live: map<nat, nat>

    ghost function Abs(): M.Heap
      reads this, buddy, buddy.frames, buddy.sizes, buddy.links
    {
      M.Heap(buddy.base, buddy.Abs(), pools, counts)
    }

    ghost predicate Valid()
      reads this, buddy, buddy.frames, buddy.sizes, buddy.links, buddy.links.next, buddy.links.prev
    {
      buddy.Valid() && M.HeapInv(Abs(), live)
    }

    /** malloc_init on a freshly seeded page allocator. */
    constructor (buddy: Buddy)
      requires buddy.Valid()
      requires forall i :: 0 <= i < buddy.frames.Length ==> buddy.frames[i].status != FRAME_ALLOC && buddy.frames[i].status < 16
      ensures Valid() && this.buddy == buddy && live == map[]
    {
      this.buddy := buddy;
      pools := seq(M.POOLS, _ => []);
      counts := seq(M.POOLS, _ => 0);
      live := map[];
      new;
      T.FreshHeap(Abs());
    }

    ghost predicate Ready()
      reads this, buddy, buddy.frames, buddy.sizes, buddy.links, buddy.links.next, buddy.links.prev
    {
      buddy.Valid() && |pools| == |counts| == M.POOLS
    }

    /** allocate: either nothing changes and the result is null, or the result is an address
        that was not live and now is, with the requested size. */
    method Allocate(size: nat) returns (addr: nat)
      requires Valid()
      modifies this, buddy.frames, buddy.sizes, buddy.links`lists, buddy.links.next, buddy.links.prev
      ensures Valid() && (Abs(), addr) == M.Allocate(old(Abs()), size)
      ensures addr == 0 ==> live == old(live) && Abs() == old(Abs())
      ensures addr != 0 ==> addr !in old(live) && live == old(live)[addr := size]
    {
      hide Inv, M.PoolOk, M.LiveSound, M.BlocksLive, M.ChunksLive, M.Refill, M.Pop;
      T.AllocateKeeps(Abs(), live, size);
      if size > 2048 {
        addr := AllocatePages(size);
      } else {
        addr := AllocateChunk(size);
      }
      live := if addr == 0 then live else live[addr := size];
    }

    /** More than half a page: find the order and leave it to the buddy system. */
    method AllocatePages(size: nat) returns (addr: nat)
      requires Ready() && size > 2048
      modifies buddy.frames, buddy.sizes, buddy.links`lists, buddy.links.next, buddy.links.prev
      ensures Ready() && (Abs(), addr) == M.Allocate(old(Abs()), size)
    {
      hide Inv;
      var order := 0;
      while PAGE_SIZE * Pow2(order) < size
        invariant M.OrderFor(size, order) == M.OrderFor(size, 0)
        decreases size - PAGE_SIZE * Pow2(order)
      {
        order := order + 1;
      }
      addr := buddy.Alloc(order);
    }

    /** At most half a page: find the pool, refill it if it is empty, take its first chunk. */
    method AllocateChunk(size: nat) returns (addr: nat)
      requires Ready() && size <= 2048
      modifies this`pools, this`counts, buddy.frames, buddy.sizes, buddy.links`lists, buddy.links.next, buddy.links.prev
      ensures Shaped() && (Abs(), addr) == M.Allocate(old(Abs()), size)
    {
      hide Inv, M.Refill, M.Pop, M.PoolFor, M.ChunkSize;
      var p := FindPool(size);
      if pools[p] == [] {
        var ok := Refill(p);
        if !ok { return 0; }
      }
      addr := PopFirst(p);
    }

    /** The search for the first pool whose chunks are large enough. */
    method FindPool(size: nat) returns (p: nat)
      requires size <= 2048
      ensures p == M.PoolFor(size, 0)
    {
      p := 0;
      M.ChunkSizeTable(7);
      while size > M.ChunkSize(p)
        invariant p < M.POOLS && (p > 0 ==> M.ChunkSize(p - 1) < size) && M.PoolFor(size, p) == M.PoolFor(size, 0)
      {
        p := p + 1;
      }
    }

    /** Take the first chunk of a pool. */
    method PopFirst(p: nat) returns (addr: nat)
      requires Shaped() && p < M.POOLS && pools[p] != []
      modifies this`pools, this`counts
      ensures Shaped() && (Abs(), addr) == M.Pop(old(Abs()), p)
    {
      addr := pools[p][0];
      pools := pools[p := pools[p][1..]];
      counts := counts[p := counts[p] - 1];
    }

    ghost predicate Shaped()
      reads this, buddy, buddy.frames, buddy.sizes, buddy.links, buddy.links.next, buddy.links.prev
    {
      buddy.Shape() && |pools| == |counts| == M.POOLS
    }

    /** The empty-pool branch of allocate: take a page, tag its frame, cut it. */
    method Refill(p: nat) returns (ok: bool)
      requires Ready() && p < M.POOLS && pools[p] == []
      modifies this`pools, this`counts, buddy.frames, buddy.sizes, buddy.links`lists, buddy.links.next, buddy.links.prev
      ensures Shaped() && (Abs(), ok) == M.Refill(old(Abs()), p)
    {
      hide Inv, BuddyTheorems.CutFrom, BuddyTheorems.FreeRun;
      var pageAddr := buddy.Alloc(0);
      if pageAddr == 0 {
        return false;
      }
      ghost var s := buddy.Abs();
      var idx := (pageAddr - buddy.base) / PAGE_SIZE;
      buddy.frames[idx] := buddy.frames[idx].(status := M.ChunkSize(p));
      assert buddy.Abs() == M.Mark(s, idx, M.ChunkSize(p));
      Cut(p, pageAddr);
      ok := true;
    }

    /** The slicing loop: append the chunks of a page to its pool. */
    method Cut(p: nat, pageAddr: nat)
      requires p < M.POOLS == |pools| == |counts|
      modifies this`pools, this`counts
      ensures var n := PAGE_SIZE / M.ChunkSize(p);
              && pools == old(pools)[p := old(pools)[p] + M.Slices(pageAddr, M.ChunkSize(p), n)]
              && counts == old(counts)[p := old(counts)[p] + n]
    {
      hide M.ChunkSize;
      var size := M.ChunkSize(p);
      M.ChunkSizeTable(p);
      var numChunks := PAGE_SIZE / size;
      var i := 0;
      assert pools[p] + [] == pools[p];
      while i < numChunks
        invariant 0 <= i <= numChunks && |pools| == |counts| == M.POOLS
        invariant pools == old(pools)[p := old(pools)[p] + M.Slices(pageAddr, size, i)]
        invariant counts == old(counts)[p := old(counts)[p] + i]
      {
        M.OneMoreSlice(old(pools)[p], pageAddr, size, i);
        pools := pools[p := pools[p] + [pageAddr + i * size]];
        counts := counts[p := counts[p] + 1];
        i := i + 1;
      }
    }

    /** free of null or of a live address. */
    method Free(ptr: nat)
      requires Valid() && (ptr != 0 ==> ptr in live)
      modifies this, buddy.frames, buddy.sizes, buddy.links`lists, buddy.links.next, buddy.links.prev
      ensures Valid() && live == old(live) - {ptr}
      ensures ptr == 0 ==> Abs() == old(Abs())
      ensures ptr != 0 ==> buddy.base <= ptr && M.PageOf(old(Abs()), ptr) < |old(Abs()).buddy.frames| && Abs() == M.FreePtr(old(Abs()), ptr)
    {
      if ptr == 0 {
        T.NullNotLive(Abs(), live);
        return;
      }
      T.FreeKeeps(Abs(), live, ptr);
      FreeRaw(ptr);
      live := live - {ptr};
    }

    /** The search for the pool whose chunk size is the status of a frame. */
    method FindByStatus(status: int) returns (i: nat)
      ensures i == M.PoolOf(status, 0)
    {
      i := 0;
      while i < M.POOLS && M.ChunkSize(i) != status
        invariant 0 <= i <= M.POOLS && M.PoolOf(status, i) == M.PoolOf(status, 0)
      {
        i := i + 1;
      }
    }

    /** The body of free: the frame status says whether ptr is a block or a chunk. */
    method FreeRaw(ptr: nat)
      requires Ready() && ptr != 0 && buddy.base <= ptr && M.PageOf(Abs(), ptr) < buddy.frames.Length
      modifies this`pools, this`counts, buddy.frames, buddy.sizes, buddy.links`lists, buddy.links.next, buddy.links.prev
      ensures Ready() && Abs() == M.FreePtr(old(Abs()), ptr)
    {
      hide M.PoolOf, M.ChunkSize, Inv, Spec.Free;
      var idx := (ptr - buddy.base) / PAGE_SIZE;
      var status := buddy.frames[idx].status;
      T.FieldsAt(buddy.Abs(), idx);
      assert buddy.Abs().frames[idx].status == status;
      if status == FRAME_ALLOC {
        buddy.Free(ptr);
      } else if status >= 16 {
        var i := FindByStatus(status);
        if i < M.POOLS {
          pools := pools[i := [ptr] + pools[i]];
          counts := counts[i := counts[i] + 1];
        }
      }
    }
  }

  /** A frame that startup has seeded is free, inside a free block, or reserved. */
  lemma SeededIsFresh(s: State, base: nat, rg: seq<Startup.Region>)
    requires Startup.Seeded(s, base, rg, |s.frames|)
    ensures forall j :: 0 <= j < |s.frames| ==> s.frames[j].status != FRAME_ALLOC && s.frames[j].status < 16
  {
    hide Inv, Startup.Reserved, Spec.FreeAt;
    forall j | 0 <= j < |s.frames| ensures s.frames[j].status != FRAME_ALLOC && s.frames[j].status < 16 {
      T.FieldsAt(s, j);
      if s.frames[j].order >= 0 && s.frames[j].status != FRAME_FREE { HeldNotFree(s, j); }
    }
  }

  lemma HeldNotFree(s: State, j: nat)
    requires Inv(s) && j < |s.frames| && s.frames[j].order >= 0 && s.frames[j].status != FRAME_FREE
    ensures !Spec.FreeAt(s, j)
  {
    hide Inv, Spec.FreeAt;
    Spec.NotFreeIn(s, j, j);
  }

  /** The memory the kernel starts with: startup_allocator, then malloc_init. */
  method BootHeap(base: nat, size: nat, rg: seq<Startup.Region>, kernelEnd: nat) returns (h: KernelHeap, meta: Startup.Region)
    requires 0 < base <= kernelEnd
    requires forall i :: 0 <= i < |rg| ==> base <= rg[i].start && base <= rg[i].end
    ensures h.Valid() && h.live == map[] && h.buddy.base == base && h.buddy.frames.Length == size / PAGE_SIZE
    ensures Startup.Seeded(h.buddy.Abs(), base, rg + [meta], size / PAGE_SIZE)
  {
    var b;
    b, meta := Startup.StartupAllocator(base, size, rg, kernelEnd);
    SeededIsFresh(b.Abs(), base, rg + [meta]);
    FramesOf(b);
    h := new KernelHeap(b);
  }

  lemma FramesOf(b: Buddy)
    ensures |b.Abs().frames| == b.frames.Length
    ensures forall i :: 0 <= i < b.frames.Length ==> b.Abs().frames[i] == b.frames[i]
  {
  }
}
