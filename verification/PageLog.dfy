/** The page traffic between the page-table code and the kernel heap: every allocate(PAGE_SIZE)
    and free of one page, in order.  The page-table model takes any page that is not in use;
    here the pages are the ones the real heap returns, between any other calls of allocate and
    free that the kernel makes, and what the heap then holds is derived. */
module PageLog {
  import opened BuddyModel
  import opened VmModel
  import M = HeapModel
  import T = HeapTheorems

  const PAGE_OFFSET := 0xffff_ffc0_0000_0000

  datatype Event = Take(page: nat) | Give(page: nat)

  function After(used: set<nat>, e: Event): set<nat> {
    match e
    case Take(p) => used + {p}
    case Give(p) => used - {p}
  }

  /** Pages are taken only when not in use and returned only when in use: nothing is freed twice. */
  predicate Allowed(used: set<nat>, e: Event) {
    match e
    case Take(p) => Counted(p) && p !in used
    case Give(p) => p in used
  }

  /** The pages in use after a log. */
  function InUse(log: seq<Event>): set<nat> {
    if log == [] then {} else After(InUse(log[..|log| - 1]), log[|log| - 1])
  }

  predicate Proper(log: seq<Event>) {
    log == [] || (Proper(log[..|log| - 1]) && Allowed(InUse(log[..|log| - 1]), log[|log| - 1]))
  }

  lemma Extend(log: seq<Event>, e: Event)
    ensures InUse(log + [e]) == After(InUse(log), e)
    ensures Proper(log + [e]) == (Proper(log) && Allowed(InUse(log), e))
  {
    assert (log + [e])[..|log|] == log;
  }

  function PhysToVirt(pa: nat): nat { pa + PAGE_OFFSET }

  ghost function VirtPages(pages: set<nat>): set<nat> { set p | p in pages :: PhysToVirt(p) }

  /** The heap's live allocations for the given pages. */
  ghost function PageAllocations(pages: set<nat>): map<nat, nat> {
    map a: nat | a in VirtPages(pages) :: VmModel.PAGE_SIZE
  }

  /** The heap's live allocations are those pages plus those of the rest of the kernel. */
  ghost predicate HeldPages(live: map<nat, nat>, others: map<nat, nat>, pages: set<nat>) {
    PageAllocations(pages).Keys !! others.Keys && live == others + PageAllocations(pages)
  }

  /** One call of the heap: page traffic of user memory, or any other allocate or free: task
      structures, kernel stacks, file handles, vnodes. */
  datatype Call = Page(event: Event) | Other(size: nat) | Release(addr: nat)

  /** The page traffic among the calls. */
  function PagesOf(calls: seq<Call>): seq<Event> {
    if calls == [] then []
    else if calls[0].Page? then [calls[0].event] + PagesOf(calls[1..])
    else PagesOf(calls[1..])
  }

  /** The heap, its live allocations, and those among them that are not pages of user memory. */
  datatype Kernel = Kernel(heap: M.Heap, live: map<nat, nat>, others: map<nat, nat>)

  /** The page taken is the one that allocate returns; what is freed is live. */
  ghost predicate CanServe(k: Kernel, c: Call)
    requires M.HeapInv(k.heap, k.live)
  {
    match c
    case Page(Take(p)) => M.Allocate(k.heap, VmModel.PAGE_SIZE).1 == PhysToVirt(p)
    case Page(Give(p)) => PhysToVirt(p) in k.live
    case Other(_) => true
    case Release(a) => a in k.others && a in k.live
  }

  ghost function ServeOne(k: Kernel, c: Call): (r: Kernel)
    requires M.HeapInv(k.heap, k.live) && CanServe(k, c)
    ensures M.HeapInv(r.heap, r.live)
  {
    hide M.HeapInv, M.Allocate, M.FreePtr;
    HeapReady(k.heap, k.live);
    match c
    case Page(Take(p)) =>
      T.AllocateKeeps(k.heap, k.live, VmModel.PAGE_SIZE);
      var (g, a) := M.Allocate(k.heap, VmModel.PAGE_SIZE);
      Kernel(g, k.live[a := VmModel.PAGE_SIZE], k.others)
    case Page(Give(p)) =>
      T.FreeKeeps(k.heap, k.live, PhysToVirt(p));
      Kernel(M.FreePtr(k.heap, PhysToVirt(p)), k.live - {PhysToVirt(p)}, k.others)
    case Other(size) =>
      T.AllocateKeeps(k.heap, k.live, size);
      var (g, a) := M.Allocate(k.heap, size);
      if a == 0 then k else Kernel(g, k.live[a := size], k.others[a := size])
    case Release(a) =>
      T.FreeKeeps(k.heap, k.live, a);
      Kernel(M.FreePtr(k.heap, a), k.live - {a}, k.others - {a})
  }

  lemma HeapReady(h: M.Heap, live: map<nat, nat>)
    ensures M.HeapInv(h, live) ==> Inv(h.buddy) && |h.pools| == |h.counts| == M.POOLS
  {
  }

  /** The kernel after a sequence of calls. */
  ghost predicate Serves(k: Kernel, calls: seq<Call>, k': Kernel)
    decreases |calls|
  {
    M.HeapInv(k.heap, k.live) &&
    if calls == [] then k' == k else CanServe(k, calls[0]) && Serves(ServeOne(k, calls[0]), calls[1..], k')
  }

  lemma OneMorePage(pages: set<nat>, p: nat)
    ensures PageAllocations(pages + {p}) == PageAllocations(pages)[PhysToVirt(p) := VmModel.PAGE_SIZE]
    ensures PhysToVirt(p) in PageAllocations(pages) <==> p in pages
  {
    if PhysToVirt(p) in PageAllocations(pages) {
      var q :| q in pages && PhysToVirt(q) == PhysToVirt(p);
    }
  }
}
