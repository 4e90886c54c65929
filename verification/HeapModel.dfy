/** allocate and free (lab7/src/memory.c:158-242) on values: the buddy system with eight
    pools of chunks on top. */
module HeapModel {
  import opened Bits
  import opened Seqs
  import opened BuddyModel
  import opened BuddySpec

  const POOLS := 8

  /** The pools hold addresses of free chunks, first one handed out first. */
  datatype Heap = Heap(base: nat, buddy: State, pools: seq<seq<nat>>, counts: seq<int>)

  // ---------------------------------------------------------------- sizes

  /** The chunk sizes of the eight pools: 16, 32, 64, ..., 2048. */
  function ChunkSize(p: nat): (size: nat)
    ensures size >= 16
  {
    if p == 0 then 16 else 2 * ChunkSize(p - 1)
  }

  predicate IsChunkSize(size: int) {
    || size == 16 || size == 32 || size == 64 || size == 128
    || size == 256 || size == 512 || size == 1024 || size == 2048
  }

  lemma ChunkSizeTable(p: nat)
    requires p < POOLS
    ensures IsChunkSize(ChunkSize(p)) && ChunkSize(7) == 2048
  {
    assert ChunkSize(1) == 32 && ChunkSize(2) == 64 && ChunkSize(3) == 128;
    assert ChunkSize(4) == 256 && ChunkSize(5) == 512 && ChunkSize(6) == 1024;
  }

  /** The sizes are exactly those of the pools. */
  lemma ChunkSizes(size: int)
    requires IsChunkSize(size)
    ensures exists p :: 0 <= p < POOLS && ChunkSize(p) == size
  {
    assert ChunkSize(0) == 16 && ChunkSize(1) == 32 && ChunkSize(2) == 64 && ChunkSize(3) == 128;
    assert ChunkSize(4) == 256 && ChunkSize(5) == 512 && ChunkSize(6) == 1024 && ChunkSize(7) == 2048;
  }

  lemma {:induction false} ChunkSizeMonotone(p: nat, q: nat)
    requires p < q
    ensures ChunkSize(p) < ChunkSize(q)
  {
    if p < q - 1 { ChunkSizeMonotone(p, q - 1); }
  }

  lemma ChunkSizeInjective(p: nat, q: nat)
    requires ChunkSize(p) == ChunkSize(q)
    ensures p == q
  {
    if p < q { ChunkSizeMonotone(p, q); }
    if q < p { ChunkSizeMonotone(q, p); }
  }

  /** The order loop: the least k with PAGE_SIZE << k >= size. */
  function OrderFor(size: nat, k: nat): (r: nat)
    ensures r >= k && PAGE_SIZE * Pow2(r) >= size
    ensures r > k ==> PAGE_SIZE * Pow2(r - 1) < size
    decreases size - PAGE_SIZE * Pow2(k)
  {
    if PAGE_SIZE * Pow2(k) < size then OrderFor(size, k + 1) else k
  }

  /** The pool loop: the first pool whose chunks are large enough. */
  function PoolFor(size: nat, p: nat): (r: nat)
    requires size <= 2048 && p < POOLS && (p > 0 ==> ChunkSize(p - 1) < size)
    ensures p <= r < POOLS && size <= ChunkSize(r) && (r > 0 ==> ChunkSize(r - 1) < size)
    decreases POOLS - p
  {
    ChunkSizeTable(p);
    if size <= ChunkSize(p) then p else PoolFor(size, p + 1)
  }

  /** The bytes set aside for a request. */
  function Capacity(size: nat): nat {
    if size > 2048 then PAGE_SIZE * Pow2(OrderFor(size, 0)) else ChunkSize(PoolFor(size, 0))
  }

  /** A request gets at least its size, and less than twice it exactly from 9 bytes up. */
  lemma CapacityFits(size: nat)
    ensures size <= Capacity(size)
    ensures Capacity(size) < 2 * size <==> size >= 9
  {
    if size > 2048 {
      var k := OrderFor(size, 0);
      if k > 0 { assert Pow2(k) == 2 * Pow2(k - 1); }
      assert Pow2(0) == 1;
    } else {
      var p := PoolFor(size, 0);
      if p > 0 { assert ChunkSize(p) == 2 * ChunkSize(p - 1); }
    }
  }

  // ---------------------------------------------------------------- chunks of a page

  /** The slicing loop: chunk addresses in ascending order. */
  function Slices(page: nat, size: nat, n: nat): (r: seq<nat>)
    ensures |r| == n && forall c :: 0 <= c < n ==> r[c] == page + c * size
  {
    if n == 0 then [] else Slices(page, size, n - 1) + [page + (n - 1) * size]
  }

  lemma OneMoreSlice(pool: seq<nat>, page: nat, size: nat, n: nat)
    ensures pool + Slices(page, size, n) + [page + n * size] == pool + Slices(page, size, n + 1)
  {
  }

  lemma ChunkStart(c: nat, size: int)
    requires IsChunkSize(size) && c < PAGE_SIZE / size
    ensures c * size < PAGE_SIZE
  {
    if size == 16 {} else if size == 32 {} else if size == 64 {} else if size == 128 {}
    else if size == 256 {} else if size == 512 {} else if size == 1024 {} else {}
  }

  lemma OneMore(x: nat, size: int)
    requires IsChunkSize(size)
    ensures (x + size) % size == x % size
  {
    if size == 16 { assert (x + 16) % 16 == x % 16; }
    else if size == 32 { assert (x + 32) % 32 == x % 32; }
    else if size == 64 { assert (x + 64) % 64 == x % 64; }
    else if size == 128 { assert (x + 128) % 128 == x % 128; }
    else if size == 256 { assert (x + 256) % 256 == x % 256; }
    else if size == 512 { assert (x + 512) % 512 == x % 512; }
    else if size == 1024 { assert (x + 1024) % 1024 == x % 1024; }
    else { assert (x + 2048) % 2048 == x % 2048; }
  }

  lemma {:induction false} ChunkMultiple(c: nat, size: int)
    requires IsChunkSize(size)
    ensures size > 0 && (c * size) % size == 0
  {
    hide IsChunkSize;
    SizePositive(size);
    if c > 0 {
      ChunkMultiple(c - 1, size);
      assert c * size == (c - 1) * size + size;
      OneMore((c - 1) * size, size);
    }
  }

  lemma ChunkIndex(d: nat, size: int)
    requires IsChunkSize(size) && d < PAGE_SIZE && d % size == 0
    ensures d / size < PAGE_SIZE / size && d / size * size == d
  {
    if size == 16 {} else if size == 32 {} else if size == 64 {} else if size == 128 {}
    else if size == 256 {} else if size == 512 {} else if size == 1024 {} else {}
  }

  lemma ChunkArith(c: nat, d: nat, size: int)
    requires IsChunkSize(size)
    ensures c < PAGE_SIZE / size ==> c * size < PAGE_SIZE
    ensures (c * size) % size == 0
    ensures d < PAGE_SIZE && d % size == 0 ==> d / size < PAGE_SIZE / size && d / size * size == d
  {
    hide IsChunkSize;
    SizePositive(size);
    ChunkMultiple(c, size);
    if c < PAGE_SIZE / size { ChunkStart(c, size); }
    if d < PAGE_SIZE && d % size == 0 { ChunkIndex(d, size); }
  }

  lemma SizePositive(size: int)
    requires IsChunkSize(size)
    ensures size > 0
  {
  }

  lemma SliceIsMultiple(page: nat, size: nat, a: nat)
    requires IsChunkSize(size) && a in Slices(page, size, PAGE_SIZE / size)
    ensures page <= a < page + PAGE_SIZE && (a - page) % size == 0
  {
    var r := Slices(page, size, PAGE_SIZE / size);
    var c :| 0 <= c < |r| && r[c] == a;
    ChunkArith(c, 0, size);
    assert a - page == c * size;
  }

  /** Exactly the multiples of the chunk size inside the page are chunks of the page. */
  lemma SlicesMembers(page: nat, size: nat, a: nat)
    requires IsChunkSize(size)
    ensures a in Slices(page, size, PAGE_SIZE / size) <==> page <= a < page + PAGE_SIZE && (a - page) % size == 0
  {
    if a in Slices(page, size, PAGE_SIZE / size) {
      SliceIsMultiple(page, size, a);
    }
    if page <= a < page + PAGE_SIZE && (a - page) % size == 0 {
      ChunkArith(0, a - page, size);
      assert Slices(page, size, PAGE_SIZE / size)[(a - page) / size] == a;
    }
  }

  lemma SlicesDistinct(page: nat, size: nat)
    requires IsChunkSize(size)
    ensures Distinct(Slices(page, size, PAGE_SIZE / size))
  {
    var r := Slices(page, size, PAGE_SIZE / size);
    forall p, q | 0 <= p < q < |r| ensures r[p] != r[q] {
      assert (q - p) * size > 0;
    }
  }

  // ---------------------------------------------------------------- operations

  function PageOf(h: Heap, a: int): int { (a - h.base) / PAGE_SIZE }

  /** Record the chunk size in the frame of a page taken for a pool. */
  function Mark(s: State, i: nat, size: nat): State
    requires i < |s.frames|
  {
    s.(frames := s.frames[i := s.frames[i].(status := size)])
  }

  /** Take a page, cut it into chunks and append them to the empty pool. */
  function Refill(h: Heap, p: nat): (r: (Heap, bool))
    requires Inv(h.buddy) && p < POOLS == |h.pools| == |h.counts|
    ensures |r.0.pools| == |r.0.counts| == POOLS
    ensures if r.1 then r.0.pools[p] != [] else r.0 == h
  {
    ChunkSizeTable(p);
    ChunkArith(0, 0, ChunkSize(p));
    var (s, i) := Alloc(h.buddy, 0);
    if i.None? then (h, false)
    else
      var chunks := Slices(h.base + i.value * PAGE_SIZE, ChunkSize(p), PAGE_SIZE / ChunkSize(p));
      (Heap(h.base, Mark(s, i.value, ChunkSize(p)),
            h.pools[p := h.pools[p] + chunks], h.counts[p := h.counts[p] + |chunks|]), true)
  }

  /** allocate: the new heap and the address, 0 when memory is exhausted. */
  function Allocate(h: Heap, size: nat): (r: (Heap, nat))
    requires Inv(h.buddy) && |h.pools| == |h.counts| == POOLS
  {
    if size > 2048 then
      var (s, i) := Alloc(h.buddy, OrderFor(size, 0));
      if i.None? then (h, 0) else (h.(buddy := s), h.base + i.value * PAGE_SIZE)
    else
      var p := PoolFor(size, 0);
      var (g, ok) := if h.pools[p] == [] then Refill(h, p) else (h, true);
      if !ok then (g, 0) else Pop(g, p)
  }

  function Pop(h: Heap, p: nat): (Heap, nat)
    requires p < |h.pools| == |h.counts| && h.pools[p] != []
  {
    (h.(pools := h.pools[p := h.pools[p][1..]], counts := h.counts[p := h.counts[p] - 1]), h.pools[p][0])
  }

  /** The pool whose chunk size is the frame status; POOLS if there is none. */
  function PoolOf(status: int, p: nat): (r: nat)
    requires p <= POOLS
    ensures r <= POOLS && (r < POOLS ==> ChunkSize(r) == status)
    ensures (exists q :: p <= q < POOLS && ChunkSize(q) == status) ==> r < POOLS
    decreases POOLS - p
  {
    if p == POOLS || ChunkSize(p) == status then p else PoolOf(status, p + 1)
  }

  /** free */
  function FreePtr(h: Heap, a: nat): (r: Heap)
    requires Inv(h.buddy) && |h.pools| == |h.counts| == POOLS
    requires a != 0 ==> h.base <= a && PageOf(h, a) < |h.buddy.frames|
    ensures r.base == h.base && Inv(r.buddy) && |r.buddy.frames| == |h.buddy.frames| && |r.pools| == |r.counts| == POOLS
  {
    if a == 0 then h
    else
      var i := PageOf(h, a);
      var status := h.buddy.frames[i].status;
      assert FieldsOk(h.buddy, i);
      if status == FRAME_ALLOC then h.(buddy := Free(h.buddy, i))
      else if status >= 16 then
        var p := PoolOf(status, 0);
        if p == POOLS then h
        else h.(pools := h.pools[p := [a] + h.pools[p]], counts := h.counts[p := h.counts[p] + 1])
      else h
  }

  // ---------------------------------------------------------------- invariant

  /** a is a chunk of pool p: at a multiple of the chunk size in a page cut for that pool. */
  predicate IsChunk(h: Heap, p: nat, a: nat)
    requires p < POOLS
  {
    && h.base <= a && PageOf(h, a) < |h.buddy.frames|
    && h.buddy.frames[PageOf(h, a)].status == ChunkSize(p)
    && (a - h.base) % PAGE_SIZE % ChunkSize(p) == 0
  }

  /** a is the address of a block handed out as whole pages. */
  predicate IsBlock(h: Heap, a: nat) {
    h.base <= a && (a - h.base) % PAGE_SIZE == 0 && Live(h.buddy, PageOf(h, a))
  }

  /** What a live allocation of the given size looks like in the heap. */
  predicate LiveOk(h: Heap, a: nat, size: nat)
    requires |h.pools| == POOLS
  {
    if size > 2048 then IsBlock(h, a) && h.buddy.frames[PageOf(h, a)].order == OrderFor(size, 0)
    else IsChunk(h, PoolFor(size, 0), a) && a !in h.pools[PoolFor(size, 0)]
  }

  ghost predicate PoolOk(h: Heap, p: nat)
    requires p < POOLS == |h.pools| == |h.counts|
  {
    && Distinct(h.pools[p]) && h.counts[p] == |h.pools[p]|
    && forall a :: a in h.pools[p] ==> IsChunk(h, p, a)
  }

  ghost predicate PoolsOk(h: Heap) {
    && h.base > 0 && Inv(h.buddy) && |h.pools| == |h.counts| == POOLS
    && (forall i :: 0 <= i < |h.buddy.frames| && h.buddy.frames[i].status >= 16 ==> IsChunkSize(h.buddy.frames[i].status))
    && (forall p :: 0 <= p < POOLS ==> PoolOk(h, p))
  }

  ghost predicate LiveSound(h: Heap, live: map<nat, nat>)
    requires |h.pools| == POOLS
  {
    forall a :: a in live ==> LiveOk(h, a, live[a])
  }

  ghost predicate BlocksLive(h: Heap, live: map<nat, nat>) {
    forall a: nat :: IsBlock(h, a) ==> a in live
  }

  ghost predicate ChunksLive(h: Heap, live: map<nat, nat>)
    requires |h.pools| == POOLS
  {
    forall a: nat, p :: 0 <= p < POOLS && IsChunk(h, p, a) ==> a in live || a in h.pools[p]
  }

  /** live maps every address handed out and not yet freed to its requested size. */
  ghost predicate HeapInv(h: Heap, live: map<nat, nat>) {
    PoolsOk(h) && LiveSound(h, live) && BlocksLive(h, live) && ChunksLive(h, live)
  }
}
