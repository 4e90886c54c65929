/** Page conservation: what the kernel heap holds for user memory is exactly the table pages and
    the mapped pages, and when no address space is left the page allocator is back where it was. */
module PageConservation {
  import opened BuddyModel
  import opened BuddySpec
  import opened VmModel
  import opened PageTree
  import opened PageLog
  import opened Paging
  import B = BuddyTheorems
  import M = HeapModel
  import T = HeapTheorems

  // ---------------------------------------------------------------- serving a log

  /** The pages in use after a log that starts with some in use. */
  function UsedFrom(used: set<nat>, log: seq<Event>): set<nat>
    decreases |log|
  {
    if log == [] then used else UsedFrom(After(used, log[0]), log[1..])
  }

  predicate ProperFrom(used: set<nat>, log: seq<Event>)
    decreases |log|
  {
    log == [] || (Allowed(used, log[0]) && ProperFrom(After(used, log[0]), log[1..]))
  }

  lemma {:induction false} FromAppend(used: set<nat>, log: seq<Event>, e: Event)
    ensures UsedFrom(used, log + [e]) == After(UsedFrom(used, log), e)
    ensures ProperFrom(used, log + [e]) == (ProperFrom(used, log) && Allowed(UsedFrom(used, log), e))
    decreases |log|
  {
    hide After, Allowed;
    if log != [] {
      assert (log + [e])[1..] == log[1..] + [e];
      FromAppend(After(used, log[0]), log[1..], e);
    }
  }

  lemma {:induction false} FromStart(log: seq<Event>)
    ensures UsedFrom({}, log) == InUse(log) && ProperFrom({}, log) == Proper(log)
    decreases |log|
  {
    hide After, Allowed;
    if log != [] {
      var n := |log| - 1;
      FromStart(log[..n]);
      FromAppend({}, log[..n], log[n]);
      assert log[..n] + [log[n]] == log;
    }
  }

  // ---------------------------------------------------------------- what calls leave alone

  predicate Reserved(s: State, j: nat)
    requires j < |s.frames|
  {
    s.frames[j].status == FRAME_RESERVED
  }

  /** Frame j is a page cut into chunks for one of the pools. */
  predicate Cut(s: State, j: nat)
    requires j < |s.frames|
  {
    s.frames[j].status >= 16
  }

  /** Reserved frames are the same, and pages once cut for a pool stay cut for it. */
  ghost predicate Later(h: M.Heap, g: M.Heap) {
    && g.base == h.base && |g.buddy.frames| == |h.buddy.frames|
    && forall j :: 0 <= j < |h.buddy.frames| && (Cut(h.buddy, j) || Reserved(h.buddy, j) || Reserved(g.buddy, j)) ==>
         g.buddy.frames[j] == h.buddy.frames[j]
  }

  lemma LaterTrans(h: M.Heap, g: M.Heap, f: M.Heap)
    requires Later(h, g) && Later(g, f)
    ensures Later(h, f)
  {
  }

  lemma LaterRefl(h: M.Heap)
    ensures Later(h, h)
  {
  }

  lemma AllocLater(s: State, k: nat)
    requires Inv(s)
    ensures var r := Alloc(s, k).0;
            |r.frames| == |s.frames|
            && forall j :: 0 <= j < |s.frames| && (Cut(s, j) || Reserved(s, j) || Reserved(r, j)) ==> r.frames[j] == s.frames[j]
  {
    AllocHeld(s, k);
    var r := Alloc(s, k).0;
    forall j | 0 <= j < |s.frames| && (Cut(s, j) || Reserved(s, j) || Reserved(r, j)) ensures r.frames[j] == s.frames[j] {
      assert FieldsOk(s, j) && FieldsOk(r, j);
      assert Held(s, j) || Held(r, j);
    }
  }

  lemma FreeLater(s: State, i: nat)
    requires Inv(s) && Live(s, i)
    ensures var r := Free(s, i);
            |r.frames| == |s.frames|
            && forall j :: 0 <= j < |s.frames| && (Cut(s, j) || Reserved(s, j) || Reserved(r, j)) ==> r.frames[j] == s.frames[j]
  {
    FreeHeld(s, i);
    var r := Free(s, i);
    forall j | 0 <= j < |s.frames| && (Cut(s, j) || Reserved(s, j) || Reserved(r, j)) ensures r.frames[j] == s.frames[j] {
      assert FieldsOk(s, j) && FieldsOk(r, j);
      assert Held(s, j) || Held(r, j);
    }
  }

  lemma RefillLater(h: M.Heap, p: nat)
    requires Inv(h.buddy) && p < M.POOLS == |h.pools| == |h.counts|
    ensures Later(h, M.Refill(h, p).0)
    ensures M.Refill(h, p).1 <==> Alloc(h.buddy, 0).1.Some?
    ensures M.Refill(h, p).1 ==> var i := Alloc(h.buddy, 0).1.value;
                                 i < |h.buddy.frames| && !Cut(h.buddy, i) && M.Refill(h, p).0.buddy.frames[i].status == M.ChunkSize(p)
  {
    hide Inv, M.ChunkSize, M.Slices;
    var (s, i) := Alloc(h.buddy, 0);
    if i.Some? {
      AllocLater(h.buddy, 0);
      M.ChunkSizeTable(p);
      assert !Cut(h.buddy, i.value) && !Reserved(h.buddy, i.value);
    }
  }

  lemma AllocateLater(h: M.Heap, live: map<nat, nat>, size: nat)
    requires M.HeapInv(h, live)
    ensures Later(h, M.Allocate(h, size).0)
  {
    hide M.LiveSound, M.BlocksLive, M.ChunksLive, M.PoolOk, Inv, Alloc;
    if size > 2048 {
      AllocLater(h.buddy, M.OrderFor(size, 0));
    } else {
      RefillLater(h, M.PoolFor(size, 0));
    }
  }

  lemma FreePtrLater(h: M.Heap, live: map<nat, nat>, a: nat)
    requires M.HeapInv(h, live) && a in live
    ensures h.base <= a && M.PageOf(h, a) < |h.buddy.frames| && Later(h, M.FreePtr(h, a))
  {
    T.FreeKeeps(h, live, a);
    hide M.BlocksLive, M.ChunksLive, M.PoolOk, Inv, Free, M.PoolOf;
    if Live(h.buddy, M.PageOf(h, a)) { FreeLater(h.buddy, M.PageOf(h, a)); }
    T.FieldsAt(h.buddy, M.PageOf(h, a));
  }

  lemma TakeHolds(live: map<nat, nat>, others: map<nat, nat>, used: set<nat>, p: nat)
    requires HeldPages(live, others, used) && PhysToVirt(p) !in live
    ensures HeldPages(live[PhysToVirt(p) := VmModel.PAGE_SIZE], others, used + {p})
  {
    OneMorePage(used, p);
  }

  lemma GiveHolds(live: map<nat, nat>, others: map<nat, nat>, used: set<nat>, p: nat)
    requires HeldPages(live, others, used) && p in used
    ensures PhysToVirt(p) in live && live[PhysToVirt(p)] == VmModel.PAGE_SIZE
    ensures HeldPages(live - {PhysToVirt(p)}, others, used - {p})
  {
    OneMorePage(used - {p}, p);
    assert (used - {p}) + {p} == used;
    assert PageAllocations(used - {p}) == PageAllocations(used) - {PhysToVirt(p)};
  }

  lemma OtherHolds(live: map<nat, nat>, others: map<nat, nat>, used: set<nat>, a: nat, size: nat)
    requires HeldPages(live, others, used) && a !in live
    ensures HeldPages(live[a := size], others[a := size], used)
  {
  }

  lemma ReleaseHolds(live: map<nat, nat>, others: map<nat, nat>, used: set<nat>, a: nat)
    requires HeldPages(live, others, used) && a in others
    ensures HeldPages(live - {a}, others - {a}, used)
  {
  }

  lemma CallLater(k: Kernel, c: Call)
    requires M.HeapInv(k.heap, k.live) && CanServe(k, c)
    ensures Later(k.heap, ServeOne(k, c).heap)
  {
    hide M.HeapInv, M.Allocate, M.FreePtr, Later;
    HeapReady(k.heap, k.live);
    LaterRefl(k.heap);
    match c
    case Page(Take(p)) => AllocateLater(k.heap, k.live, VmModel.PAGE_SIZE);
    case Page(Give(p)) => FreePtrLater(k.heap, k.live, PhysToVirt(p));
    case Other(size) => AllocateLater(k.heap, k.live, size);
    case Release(a) => FreePtrLater(k.heap, k.live, a);
  }

  /** One call keeps exactly the pages in use held for user memory. */
  lemma OneCall(k: Kernel, used: set<nat>, c: Call)
    requires M.HeapInv(k.heap, k.live) && CanServe(k, c) && HeldPages(k.live, k.others, used)
    requires c.Page? ==> Allowed(used, c.event)
    ensures var k' := ServeOne(k, c);
            HeldPages(k'.live, k'.others, if c.Page? then After(used, c.event) else used) && Later(k.heap, k'.heap)
  {
    hide M.HeapInv, M.Allocate, M.FreePtr, HeldPages, Later;
    HeapReady(k.heap, k.live);
    CallLater(k, c);
    match c
    case Page(Take(p)) =>
      T.AllocateKeeps(k.heap, k.live, VmModel.PAGE_SIZE);
      TakeHolds(k.live, k.others, used, p);
    case Page(Give(p)) =>
      GiveHolds(k.live, k.others, used, p);
    case Other(size) =>
      T.AllocateKeeps(k.heap, k.live, size);
      var a := M.Allocate(k.heap, size).1;
      if a != 0 { OtherHolds(k.live, k.others, used, a, size); }
    case Release(a) =>
      ReleaseHolds(k.live, k.others, used, a);
  }

  /** Whatever else the kernel allocates and frees in between: the heap stays consistent, holds
      exactly the pages in use for user memory next to the kernel's own allocations, keeps
      reserved frames reserved, and keeps pages once cut for a pool. */
  lemma {:induction false} Conserved(k: Kernel, used: set<nat>, calls: seq<Call>, k': Kernel)
    requires HeldPages(k.live, k.others, used) && ProperFrom(used, PagesOf(calls)) && Serves(k, calls, k')
    ensures M.HeapInv(k'.heap, k'.live) && HeldPages(k'.live, k'.others, UsedFrom(used, PagesOf(calls))) && Later(k.heap, k'.heap)
    decreases |calls|
  {
    hide M.HeapInv, HeldPages, Later, CanServe, ServeOne, After, Allowed;
    if calls == [] {
      LaterRefl(k.heap);
    } else {
      var c, m := calls[0], ServeOne(k, calls[0]);
      assert c.Page? ==> PagesOf(calls)[0] == c.event && PagesOf(calls)[1..] == PagesOf(calls[1..]);
      OneCall(k, used, c);
      Conserved(m, if c.Page? then After(used, c.event) else used, calls[1..], k');
      LaterTrans(k.heap, m.heap, k'.heap);
    }
  }

  // ---------------------------------------------------------------- the pages that stay away

  /** Page j was cut for a pool between h and g. */
  predicate NewlyCut(h: M.Heap, g: M.Heap, j: int) {
    0 <= j < |h.buddy.frames| == |g.buddy.frames| && Cut(g.buddy, j) && !Cut(h.buddy, j)
  }

  lemma BlockIsLarge(g: M.Heap, live: map<nat, nat>, a: nat)
    requires M.HeapInv(g, live) && M.IsBlock(g, a)
    ensures a in live && live[a] > 2048 && M.LiveOk(g, a, live[a])
  {
    hide M.ChunksLive, M.PoolOk, Inv;
    assert M.LiveOk(g, a, live[a]);
  }

  /** Two heaps with the same allocations have the same blocks handed out as whole pages. */
  lemma BlockInBoth(h: M.Heap, g: M.Heap, live: map<nat, nat>, i: nat)
    requires M.HeapInv(h, live) && M.HeapInv(g, live) && g.base == h.base && Live(g.buddy, i)
    ensures Live(h.buddy, i) && h.buddy.frames[i].order == g.buddy.frames[i].order
  {
    hide M.ChunksLive, M.PoolOk, M.BlocksLive, Inv, M.IsChunk;
    var a := g.base + i * BuddyModel.PAGE_SIZE;
    assert M.PageOf(g, a) == i && M.IsBlock(g, a);
    BlockIsLarge(g, live, a);
    assert M.LiveOk(h, a, live[a]);
  }

  /** The block that holds a frame which is not free. */
  lemma HolderOf(s: State, j: nat) returns (i: nat)
    requires Inv(s) && j < |s.frames| && !FreeAt(s, j)
    ensures Spans(s, i, j) && s.frames[i].status != FRAME_FREE && (i == j || Live(s, i))
    ensures Cut(s, i) || Reserved(s, i) || Live(s, i)
  {
    hide Interiors, Lists, Listed, Coalesced;
    assert Covered(s, j);
    i :| Spans(s, i, j);
    assert FieldsOk(s, i);
  }

  /** A frame free now was free before. */
  lemma FreeBefore(h: M.Heap, g: M.Heap, live: map<nat, nat>, j: nat)
    requires M.HeapInv(h, live) && M.HeapInv(g, live) && Later(h, g) && j < |h.buddy.frames| && FreeAt(g.buddy, j)
    ensures FreeAt(h.buddy, j) && !Cut(g.buddy, j)
  {
    hide M.ChunksLive, M.PoolOk, M.LiveSound, M.BlocksLive, Inv;
    if !FreeAt(h.buddy, j) {
      var i := HolderOf(h.buddy, j);
      if Live(h.buddy, i) { BlockInBoth(g, h, live, i); }
      NotFreeIn(g.buddy, i, j);
    }
    if Cut(g.buddy, j) {
      T.FieldsAt(g.buddy, j);
      NotFreeIn(g.buddy, j, j);
    }
  }

  /** A frame that was free is free again or was cut. */
  lemma FreeAfter(h: M.Heap, g: M.Heap, live: map<nat, nat>, j: nat)
    requires M.HeapInv(h, live) && M.HeapInv(g, live) && Later(h, g) && j < |h.buddy.frames| && FreeAt(h.buddy, j)
    ensures FreeAt(g.buddy, j) || NewlyCut(h, g, j)
  {
    hide M.ChunksLive, M.PoolOk, M.LiveSound, M.BlocksLive, Inv;
    if !FreeAt(g.buddy, j) {
      var i := HolderOf(g.buddy, j);
      if Live(g.buddy, i) {
        BlockInBoth(h, g, live, i);
        NotFreeIn(h.buddy, i, j);
      } else if Cut(h.buddy, j) || Reserved(g.buddy, j) {
        T.FieldsAt(h.buddy, j);
        NotFreeIn(h.buddy, j, j);
      }
    }
  }

  /** A page newly cut was free before. */
  lemma CutWasFree(h: M.Heap, g: M.Heap, live: map<nat, nat>, j: nat)
    requires M.HeapInv(h, live) && M.HeapInv(g, live) && Later(h, g) && NewlyCut(h, g, j)
    ensures FreeAt(h.buddy, j)
  {
    hide M.ChunksLive, M.PoolOk, M.LiveSound, M.BlocksLive;
    if !FreeAt(h.buddy, j) {
      var i := HolderOf(h.buddy, j);
      assert FieldsOk(g.buddy, j) && Spans(g.buddy, j, j);
      if Live(h.buddy, i) {
        BlockInBoth(g, h, live, i);
        OneOwner(g.buddy, i, j, j);
      }
    }
  }

  /** With the same allocations as before, exactly the pages cut for pools in between are missing
      from the free frames. */
  lemma MissingIsCut(h: M.Heap, g: M.Heap, live: map<nat, nat>, j: nat)
    requires M.HeapInv(h, live) && M.HeapInv(g, live) && Later(h, g) && j < |h.buddy.frames|
    ensures FreeAt(h.buddy, j) <==> FreeAt(g.buddy, j) || NewlyCut(h, g, j)
    ensures !(FreeAt(g.buddy, j) && NewlyCut(h, g, j))
  {
    hide M.HeapInv, FreeAt;
    if FreeAt(h.buddy, j) { FreeAfter(h, g, live, j); }
    if FreeAt(g.buddy, j) { FreeBefore(h, g, live, j); }
    if NewlyCut(h, g, j) { CutWasFree(h, g, live, j); }
  }

  /** No page was cut for any pool between h and g. */
  ghost predicate SamePools(h: M.Heap, g: M.Heap) {
    forall p :: 0 <= p < M.POOLS ==> T.CutPages(g, p) == T.CutPages(h, p)
  }

  lemma CutForSomePool(h: M.Heap, j: nat)
    requires M.PoolsOk(h) && j < |h.buddy.frames| && Cut(h.buddy, j)
    ensures exists p :: 0 <= p < M.POOLS && j in T.CutPages(h, p)
  {
    hide Inv, M.PoolOk;
    var status := h.buddy.frames[j].status;
    assert M.IsChunkSize(status);
    M.ChunkSizes(status);
    var p :| 0 <= p < M.POOLS && M.ChunkSize(p) == status;
    assert j in T.CutPages(h, p);
  }

  lemma SamePoolsIff(h: M.Heap, g: M.Heap)
    requires M.PoolsOk(h) && M.PoolsOk(g) && Later(h, g)
    ensures SamePools(h, g) <==> forall j :: !NewlyCut(h, g, j)
  {
    hide Inv, M.PoolOk, M.ChunkSize;
    if SamePools(h, g) {
      forall j: nat | j < |g.buddy.frames| && Cut(g.buddy, j) ensures Cut(h.buddy, j) {
        CutForSomePool(g, j);
        var p :| 0 <= p < M.POOLS && j in T.CutPages(g, p);
        M.ChunkSizeTable(p);
        assert j in T.CutPages(h, p);
      }
    }
    if forall j :: !NewlyCut(h, g, j) {
      forall p | 0 <= p < M.POOLS ensures T.CutPages(g, p) == T.CutPages(h, p) {
        M.ChunkSizeTable(p);
        forall j: nat | j < |h.buddy.frames| ensures j in T.CutPages(g, p) <==> j in T.CutPages(h, p) {
          assert !NewlyCut(h, g, j);
        }
      }
    }
  }

  lemma FreeFromBlocks(s: State, t: State, j: int)
    requires Inv(s) && FreeAt(s, j) && |s.frames| == |t.frames| && forall x, o :: B.FreeBlock(t, x, o) <==> B.FreeBlock(s, x, o)
    ensures FreeAt(t, j)
  {
    hide Interiors, Lists, Listed, Coalesced, Cover;
    var i :| Spans(s, i, j) && s.frames[i].status == FRAME_FREE;
    assert FieldsOk(s, i);
    assert B.FreeBlock(s, i, s.frames[i].order);
    assert B.FreeBlock(t, i, s.frames[i].order);
    assert Spans(t, i, j);
  }

  /** Two heaps with the same allocations have the same free blocks exactly when no page was cut
      for a pool from the one to the other. */
  lemma AllocationsDetermineFree(h: M.Heap, g: M.Heap, live: map<nat, nat>)
    requires M.HeapInv(h, live) && M.HeapInv(g, live) && Later(h, g)
    ensures (forall x, o :: B.FreeBlock(g.buddy, x, o) <==> B.FreeBlock(h.buddy, x, o)) <==> SamePools(h, g)
  {
    hide M.LiveSound, M.BlocksLive, M.ChunksLive, SamePools, Later, Inv, NewlyCut;
    SamePoolsIff(h, g);
    if SamePools(h, g) {
      forall j | 0 <= j < |h.buddy.frames| ensures FreeAt(h.buddy, j) == FreeAt(g.buddy, j) {
        MissingIsCut(h, g, live, j);
      }
      LaterSize(h, g);
      B.Canonical(h.buddy, g.buddy);
    } else {
      var j :| NewlyCut(h, g, j);
      BlocksDiffer(h, g, live, j);
    }
  }

  lemma LaterSize(h: M.Heap, g: M.Heap)
    requires Later(h, g)
    ensures |h.buddy.frames| == |g.buddy.frames|
  {
  }

  lemma BlocksDiffer(h: M.Heap, g: M.Heap, live: map<nat, nat>, j: int)
    requires M.HeapInv(h, live) && M.HeapInv(g, live) && Later(h, g) && NewlyCut(h, g, j)
    ensures !(forall x, o :: B.FreeBlock(g.buddy, x, o) <==> B.FreeBlock(h.buddy, x, o))
  {
    hide M.LiveSound, M.BlocksLive, M.ChunksLive, Later, Inv, FreeAt, B.FreeBlock;
    MissingIsCut(h, g, live, j);
    if forall x, o :: B.FreeBlock(g.buddy, x, o) <==> B.FreeBlock(h.buddy, x, o) {
      FreeFromBlocks(h.buddy, g.buddy, j);
    }
  }

  // ---------------------------------------------------------------- which calls cut a page

  /** The call that cuts a page: a request of at most half a page that finds its pool empty while
      some frame is free. */
  ghost predicate CutsPage(k: Kernel, c: Call)
    requires M.HeapInv(k.heap, k.live)
  {
    c.Other? && c.size <= 2048 && k.heap.pools[M.PoolFor(c.size, 0)] == []
    && exists j: nat :: j < |k.heap.buddy.frames| && FreeAt(k.heap.buddy, j)
  }

  /** Some call of the sequence cuts a page when it is made. */
  ghost predicate Refills(k: Kernel, calls: seq<Call>, k': Kernel)
    requires Serves(k, calls, k')
    decreases |calls|
  {
    calls != [] && (CutsPage(k, calls[0]) || Refills(ServeOne(k, calls[0]), calls[1..], k'))
  }

  lemma NothingCutBy(h: M.Heap, s: State, j: int)
    requires T.SameCutPages(h.buddy, s)
    ensures !NewlyCut(h, h.(buddy := s), j)
  {
  }

  /** allocate cuts a page exactly under that guard. */
  lemma AllocateCutsIff(h: M.Heap, live: map<nat, nat>, size: nat)
    requires M.HeapInv(h, live)
    ensures (exists j :: NewlyCut(h, M.Allocate(h, size).0, j)) <==>
            size <= 2048 && h.pools[M.PoolFor(size, 0)] == [] && Alloc(h.buddy, 0).1.Some?
  {
    T.HeapParts(h, live);
    hide M.HeapInv, M.PoolsOk, Inv, Alloc, M.PoolFor, M.OrderFor, M.ChunkSize, NewlyCut;
    if size > 2048 {
      T.AllocKeepsCutPages(h.buddy, M.OrderFor(size, 0));
      forall j ensures !NewlyCut(h, M.Allocate(h, size).0, j) {
        NothingCutBy(h, Alloc(h.buddy, M.OrderFor(size, 0)).0, j);
        SameNotCut(h, j);
      }
    } else {
      var p := M.PoolFor(size, 0);
      RefillLater(h, p);
      M.ChunkSizeTable(p);
      if h.pools[p] == [] && Alloc(h.buddy, 0).1.Some? {
        CutIsNew(h, M.Allocate(h, size).0, Alloc(h.buddy, 0).1.value);
      } else {
        forall j ensures !NewlyCut(h, M.Allocate(h, size).0, j) {
          SameBuddyNotCut(h, M.Allocate(h, size).0, j);
        }
      }
    }
  }

  lemma SameNotCut(h: M.Heap, j: int)
    ensures !NewlyCut(h, h, j)
  {
  }

  lemma SameBuddyNotCut(h: M.Heap, g: M.Heap, j: int)
    requires g.buddy == h.buddy
    ensures !NewlyCut(h, g, j)
  {
  }

  lemma CutIsNew(h: M.Heap, g: M.Heap, j: nat)
    requires j < |h.buddy.frames| == |g.buddy.frames| && !Cut(h.buddy, j) && Cut(g.buddy, j)
    ensures NewlyCut(h, g, j)
  {
  }

  lemma FreeCutsNone(h: M.Heap, live: map<nat, nat>, a: nat, j: int)
    requires M.HeapInv(h, live) && a in live
    ensures h.base <= a && M.PageOf(h, a) < |h.buddy.frames| && !NewlyCut(h, M.FreePtr(h, a), j)
  {
    T.FreeKeeps(h, live, a);
    T.HeapParts(h, live);
    hide M.HeapInv, M.PoolsOk, Inv, Free, M.PoolOf;
    T.FieldsAt(h.buddy, M.PageOf(h, a));
    if Live(h.buddy, M.PageOf(h, a)) { T.FreeKeepsCutPages(h.buddy, M.PageOf(h, a)); }
  }

  lemma HeapAfterOther(k: Kernel, size: nat)
    requires M.HeapInv(k.heap, k.live)
    ensures Inv(k.heap.buddy) && |k.heap.pools| == |k.heap.counts| == M.POOLS
    ensures ServeOne(k, Other(size)).heap == M.Allocate(k.heap, size).0
  {
    hide M.HeapInv, M.Allocate;
    HeapReady(k.heap, k.live);
    T.AllocateKeeps(k.heap, k.live, size);
  }

  lemma OtherCutsIff(k: Kernel, size: nat)
    requires M.HeapInv(k.heap, k.live)
    ensures CutsPage(k, Other(size)) <==> exists j :: NewlyCut(k.heap, ServeOne(k, Other(size)).heap, j)
  {
    hide M.HeapInv, M.Allocate, NewlyCut, Inv, Alloc, FreeAt, M.PoolFor, ServeOne;
    HeapAfterOther(k, size);
    B.PageFoundIff(k.heap.buddy);
    AllocateCutsIff(k.heap, k.live, size);
  }

  /** One call cuts a page exactly when it is one that does. */
  lemma CallCutsIff(k: Kernel, c: Call)
    requires M.HeapInv(k.heap, k.live) && CanServe(k, c)
    ensures CutsPage(k, c) <==> exists j :: NewlyCut(k.heap, ServeOne(k, c).heap, j)
  {
    hide M.HeapInv, M.Allocate, M.FreePtr, NewlyCut, FreeAt, M.PoolFor;
    HeapReady(k.heap, k.live);
    match c
    case Page(Take(p)) => AllocateCutsIff(k.heap, k.live, VmModel.PAGE_SIZE);
    case Page(Give(p)) =>
      forall j ensures !NewlyCut(k.heap, ServeOne(k, c).heap, j) {
        FreeCutsNone(k.heap, k.live, PhysToVirt(p), j);
      }
    case Other(size) => OtherCutsIff(k, size);
    case Release(a) =>
      forall j ensures !NewlyCut(k.heap, ServeOne(k, c).heap, j) {
        FreeCutsNone(k.heap, k.live, a, j);
      }
  }

  lemma {:induction false} RunLater(k: Kernel, calls: seq<Call>, k': Kernel)
    requires Serves(k, calls, k')
    ensures Later(k.heap, k'.heap)
    decreases |calls|
  {
    hide M.HeapInv, Later, CanServe, ServeOne;
    if calls == [] {
      LaterRefl(k.heap);
    } else {
      CallLater(k, calls[0]);
      RunLater(ServeOne(k, calls[0]), calls[1..], k');
      LaterTrans(k.heap, ServeOne(k, calls[0]).heap, k'.heap);
    }
  }

  /** What is newly cut over two stages was cut in one of them, and stays. */
  lemma CutInStages(h: M.Heap, g: M.Heap, f: M.Heap, j: int)
    requires Later(h, g) && Later(g, f)
    ensures NewlyCut(h, f, j) <==> NewlyCut(h, g, j) || NewlyCut(g, f, j)
  {
  }

  /** Pages are cut over a run of calls exactly when one of the calls does it. */
  lemma {:induction false} CutIffRefills(k: Kernel, calls: seq<Call>, k': Kernel)
    requires Serves(k, calls, k')
    ensures Refills(k, calls, k') <==> exists j :: NewlyCut(k.heap, k'.heap, j)
    decreases |calls|
  {
    hide M.HeapInv, Later, CanServe, ServeOne, CutsPage, NewlyCut;
    if calls == [] {
      forall j ensures !NewlyCut(k.heap, k'.heap, j) {
        SameNotCut(k.heap, j);
      }
    } else {
      var m := ServeOne(k, calls[0]);
      CallCutsIff(k, calls[0]);
      CutIffRefills(m, calls[1..], k');
      CallLater(k, calls[0]);
      RunLater(m, calls[1..], k');
      forall j ensures NewlyCut(k.heap, k'.heap, j) <==> NewlyCut(k.heap, m.heap, j) || NewlyCut(m.heap, k'.heap, j) {
        CutInStages(k.heap, m.heap, k'.heap, j);
      }
    }
  }

  lemma SamePoolsIffNoRefill(k: Kernel, calls: seq<Call>, k': Kernel)
    requires Serves(k, calls, k')
    ensures SamePools(k.heap, k'.heap) <==> !Refills(k, calls, k')
  {
    hide M.HeapInv, Later, SamePools, NewlyCut;
    RunLater(k, calls, k');
    CutIffRefills(k, calls, k');
    ServesEnds(k, calls, k');
    T.HeapParts(k.heap, k.live);
    T.HeapParts(k'.heap, k'.live);
    SamePoolsIff(k.heap, k'.heap);
  }

  lemma {:induction false} ServesEnds(k: Kernel, calls: seq<Call>, k': Kernel)
    requires Serves(k, calls, k')
    ensures M.HeapInv(k.heap, k.live) && M.HeapInv(k'.heap, k'.live)
    decreases |calls|
  {
    hide M.HeapInv, CanServe, ServeOne;
    if calls != [] { ServesEnds(ServeOne(k, calls[0]), calls[1..], k'); }
  }

  // ---------------------------------------------------------------- user memory

  /** With no root left there are no tables, no mappings and no data pages. */
  lemma NoRootsNoPages(a: AddressSpaces)
    requires a.Valid() && forall r :: !IsRoot(a.role, r)
    ensures a.tables == map[] && a.leaves == map[] && a.data == map[] && InUse(a.log) == {}
  {
    hide MemInv, RefsExact, Proper, InUse, KernelMapped;
    forall p ensures p !in a.tables {
      TableHasRoot(a.tables, a.role, p);
    }
    forall k ensures k !in a.leaves {
      assert k in a.leaves ==> IsRoot(a.role, k.0);
    }
    DataOfNothing(a.Abs());
    assert a.tables == map[];
  }

  lemma TableHasRoot(t: map<nat, Table>, role: map<nat, Role>, p: nat)
    requires TreeOk(t, role)
    ensures p in t ==> exists r :: IsRoot(role, r)
  {
    if p in t {
      assert UpOk(t, role, p);
      assert IsRoot(role, match role[p] case Root => p case Mid(r, _) => r case Low(r, _, _) => r);
    }
  }

  lemma DataOfNothing(m: Mem)
    requires MemInv(m) && m.leaves.Keys == {}
    ensures m.leaves == map[] && m.data == map[]
  {
    assert MappedPages(m.leaves) == {};
    assert m.data.Keys == {};
  }

  /** The pages held for user memory are exactly the table pages and the mapped pages, next to
      whatever else the kernel holds by then. */
  lemma HeldForUsers(a: AddressSpaces, k: Kernel, calls: seq<Call>, k': Kernel)
    requires a.Valid() && PagesOf(calls) == a.log && Serves(k, calls, k') && k.live == k.others
    ensures M.HeapInv(k'.heap, k'.live) && HeldPages(k'.live, k'.others, a.tables.Keys + MappedPages(a.leaves)) && Later(k.heap, k'.heap)
  {
    hide M.HeapInv, Forest, MemInv, Proper, InUse, Serves, Later;
    FromStart(a.log);
    HeldNothing(k.live);
    Conserved(k, {}, calls, k');
    DataIsMapped(a.Abs());
  }

  lemma DataIsMapped(m: Mem)
    requires MemInv(m)
    ensures m.data.Keys == MappedPages(m.leaves)
  {
  }

  lemma HeldNothing(live: map<nat, nat>)
    ensures PageAllocations({}) == map[] && HeldPages(live, live, {})
  {
    assert VirtPages({}) == {};
    assert PageAllocations({}) == map[];
  }

  /** Once every address space is gone, and the kernel's own allocations are back to what they were,
      the heap has exactly its earlier allocations; and the buddy system has exactly its earlier
      free blocks if and only if no request of at most half a page found its pool empty while a
      frame was free. */
  lemma AllReturned(a: AddressSpaces, k: Kernel, calls: seq<Call>, k': Kernel)
    requires a.Valid() && (forall r :: !IsRoot(a.role, r)) && PagesOf(calls) == a.log && Serves(k, calls, k')
    requires k.live == k.others && k'.others == k.others
    ensures k'.live == k.live
    ensures (forall x, o :: B.FreeBlock(k'.heap.buddy, x, o) <==> B.FreeBlock(k.heap.buddy, x, o)) <==> !Refills(k, calls, k')
  {
    hide M.HeapInv, Proper, InUse, MemInv, Forest, Serves, Later, SamePools, B.FreeBlock, Refills;
    SamePoolsIffNoRefill(k, calls, k');
    NoRootsNoPages(a);
    HeldForUsers(a, k, calls, k');
    assert MappedPages(a.leaves) == {};
    assert a.tables.Keys + MappedPages(a.leaves) == {};
    HeldNothing(k.live);
    ServesEnds(k, calls, k');
    AllocationsDetermineFree(k.heap, k'.heap, k.live);
  }

  // ---------------------------------------------------------------- a run that keeps a page away

  /** A request of at most 2048 bytes that finds its pool empty takes a page for good: freeing it
      again restores the allocations, but not the free blocks. */
  lemma RefillStays(k: Kernel, size: nat)
    requires M.HeapInv(k.heap, k.live) && k.live == k.others && size <= 2048
    requires k.heap.pools[M.PoolFor(size, 0)] == [] && Alloc(k.heap.buddy, 0).1.Some?
    ensures var k1 := ServeOne(k, Other(size)); var a := M.Allocate(k.heap, size).1;
            && CanServe(k1, Release(a)) && Serves(k, [Other(size), Release(a)], ServeOne(k1, Release(a)))
            && ServeOne(k1, Release(a)).live == k.live && ServeOne(k1, Release(a)).others == k.others
            && !(forall x, o :: B.FreeBlock(ServeOne(k1, Release(a)).heap.buddy, x, o) <==> B.FreeBlock(k.heap.buddy, x, o))
  {
    hide M.LiveSound, M.BlocksLive, M.ChunksLive, M.PoolOk, Inv, Later, SamePools, B.FreeBlock, Serves;
    var (g, a) := M.Allocate(k.heap, size);
    var k1 := ServeOne(k, Other(size));
    SmallAllocated(k.heap, k.live, size);
    var k2 := ServeOne(k1, Release(a));
    assert k2.live == k.live && k2.others == k.others;
    ServesTwo(k, Other(size), Release(a));
    FreePtrLater(k1.heap, k1.live, a);
    AllocateLater(k.heap, k.live, size);
    LaterTrans(k.heap, k1.heap, k2.heap);
    var i := Alloc(k.heap.buddy, 0).1.value;
    StillCut(k1.heap, k2.heap, i);
    LaterSize(k.heap, k2.heap);
    BlocksDiffer(k.heap, k2.heap, k.live, i);
  }

  lemma SmallAllocated(h: M.Heap, live: map<nat, nat>, size: nat)
    requires M.HeapInv(h, live) && size <= 2048 && h.pools[M.PoolFor(size, 0)] == [] && Alloc(h.buddy, 0).1.Some?
    ensures var (g, a) := M.Allocate(h, size); var i := Alloc(h.buddy, 0).1.value;
            && a != 0 && a !in live && i < |h.buddy.frames| == |g.buddy.frames| && !Cut(h.buddy, i) && Cut(g.buddy, i)
  {
    hide M.LiveSound, M.BlocksLive, M.ChunksLive, M.PoolOk, Inv, M.PoolFor, M.ChunkSize;
    var p := M.PoolFor(size, 0);
    T.AllocateKeeps(h, live, size);
    RefillLater(h, p);
    M.ChunkSizeTable(p);
    T.RefillKeeps(h, live, p);
    T.PopPools(M.Refill(h, p).0, p);
  }

  lemma StillCut(h: M.Heap, g: M.Heap, i: nat)
    requires Later(h, g) && i < |h.buddy.frames| && Cut(h.buddy, i)
    ensures i < |g.buddy.frames| && Cut(g.buddy, i)
  {
  }

  lemma ServesTwo(k: Kernel, c: Call, d: Call)
    requires M.HeapInv(k.heap, k.live) && CanServe(k, c) && CanServe(ServeOne(k, c), d)
    ensures Serves(k, [c, d], ServeOne(ServeOne(k, c), d))
  {
    hide M.HeapInv, CanServe, ServeOne;
    assert [c, d][1..] == [d] && [d][1..] == [];
    assert Serves(ServeOne(ServeOne(k, c), d), [], ServeOne(ServeOne(k, c), d));
    assert Serves(ServeOne(k, c), [d], ServeOne(ServeOne(k, c), d));
  }

  /** A task structure of 1400 bytes allocated and freed: the page cut for it is not free again. */
  lemma TaskStructureKeepsPage() returns (k': Kernel, a: nat)
    ensures var k := Kernel(T.TinyHeap(), map[], map[]);
            && Serves(k, [Other(1400), Release(a)], k') && k'.live == k'.others == map[]
            && !(forall x, o :: B.FreeBlock(k'.heap.buddy, x, o) <==> B.FreeBlock(k.heap.buddy, x, o))
  {
    hide M.HeapInv, Serves, B.FreeBlock, Alloc, M.Allocate, ServeOne;
    var k := Kernel(T.TinyHeap(), map[], map[]);
    T.TinyHeapOk();
    HeapReady(k.heap, k.live);
    RefillStays(k, 1400);
    a := M.Allocate(k.heap, 1400).1;
    k' := ServeOne(ServeOne(k, Other(1400)), Release(a));
  }
}
