/** page_fault_handler (lab7/src/paging.c:325-463) over the page tables: the branches in the
    order of the code, proved against the decision and the memory of VmSystem. */
module FaultHandler {
  import opened Bytes
  import opened Pte
  import opened PageTree
  import opened VmModel
  import opened VmSystem
  import opened Paging

  /** Resolved: the page was mapped.  Killed: thread_exit was called, memory untouched.
      OutOfMemory: an allocation whose result the code does not check has failed.  KernelWord: the
      handler took a word of kernel memory for a shared entry and goes on to replace it.
      KernelRegion: a recorded region contains an address outside the user half, and the handler
      goes on to map it. */
  datatype Outcome = Resolved(page: nat) | Killed(heapEmpty: bool) | OutOfMemory | KernelWord | KernelRegion

  /** The state of user memory and one process, as VmSystem sees it. */
  ghost function Alone(m: Mem, t: Task): Sys { Sys(m, map[0 := t]) }

  ghost predicate Resolvable(s: Sys, addr: nat, c: Cause)
    requires 0 in s.tasks
  {
    IsCowFault(s, 0, addr, c) || Handle(s.tasks[0], addr, c) != KillTask
  }

  /** The user permission bits for an mmap protection, set one by one as the handler does. */
  method PagePermissions(prot: nat) returns (f: Flags)
    ensures f == VmaFlags(prot)
  {
    f := PROT_USER_BASE;
    if prot % 2 == 1 { f := f.(r := true); }
    if prot / 2 % 2 == 1 { f := f.(w := true); f := f.(r := true); }
    if prot / 4 % 2 == 1 { f := f.(x := true); }
  }

  /** memcpy of at most one page of the image into a zeroed page. */
  method ImagePage(code: seq<byte>, pageVa: nat) returns (page: seq<byte>)
    requires pageVa <= |code|
    ensures page == CodePage(code, pageVa)
  {
    var count := |code| - pageVa;
    if count > PAGE_SIZE { count := PAGE_SIZE; }
    page := ZeroPage();
    page := code[pageVa..pageVa + count] + page[count..];
  }

  /** The scan over the regions: the first that contains the address, unless it denies the
      access, which ends the scan. */
  method FindVma(vmas: seq<Vma>, addr: nat, cause: Cause) returns (found: bool, i: nat)
    ensures i == FirstVma(vmas, addr, 0) && found == (i < |vmas| && VmaAllows(vmas[i].prot, cause))
  {
    i := 0;
    while i < |vmas|
      invariant i <= |vmas| && FirstVma(vmas, addr, 0) == FirstVma(vmas, addr, i)
    {
      if vmas[i].start <= addr < vmas[i].end {
        var prot := vmas[i].prot;
        if cause == Store && !ProtW(prot) { return false, i; }
        if cause == Load && !ProtR(prot) { return false, i; }
        if cause == Fetch && !ProtX(prot) { return false, i; }
        return true, i;
      }
      i := i + 1;
    }
    found := false;
  }

  /** page_fault_handler.  Whenever it resolves a fault, user memory is what
      VmSystem says, for the page that the walk finds; a fault that VmSystem kills for is never
      resolved, and one it resolves is never fatal unless the heap is empty.  The walk ignores the
      upper 25 bits of the address: outside the user half it may find a shared page of the process,
      or, in the kernel's half of the root, whatever word of kernel memory it takes for an entry;
      kernelMark is the mark of that word.  Nothing is claimed about what the handler goes on to do
      in the kernel's half, or in a region recorded outside the user half (Mmap.PlacedOkIff). */
  method PageFault(a: AddressSpaces, t: Task, addr: nat, cause: Cause, kernelMark: bool) returns (r: Outcome)
    requires a.Valid() && IsRoot(a.role, t.root)
    modifies a`tables, a`role, a`leaves, a`data, a`active, a`log, a.refs
    ensures r.Resolved? ==> a.Shape() && Grows(old(a.role), a.role) && Fresh(old(a.Abs()), r.page)
    ensures r.Resolved? ==> a.Abs() == FaultMem(Alone(old(a.Abs()), t), 0, Sv39(addr), cause, r.page)
    ensures r.Resolved? ==> if addr < USER_END then Resolvable(Alone(old(a.Abs()), t), addr, cause)
                            else IsCowFault(Alone(old(a.Abs()), t), 0, Sv39(addr), cause)
    ensures r.Killed? ==> a.Valid() && a.Abs() == old(a.Abs()) && a.role == old(a.role)
    ensures r.Killed? ==> r.heapEmpty || if addr < USER_END then !Resolvable(Alone(old(a.Abs()), t), addr, cause)
                                         else !IsCowFault(Alone(old(a.Abs()), t), 0, Sv39(addr), cause)
    ensures r.KernelWord? <==> Sv39(addr) >= USER_END && cause == Store && kernelMark
    ensures r.KernelRegion? ==> addr >= USER_END && Handle(t, addr, cause) != KillTask
    ensures addr >= USER_END && Handle(t, addr, cause) == KillTask && Sv39(addr) >= USER_END && !r.KernelWord? ==> r == Killed(false)
  {
    hide AddressSpaces.Valid, AddressSpaces.Shape, BreakShare, MapPage, MemInv, CodePage, ZeroPage, VmaFlags, Grows, Counted, FirstVma;
    ghost var s := Alone(a.Abs(), t);
    ValidShape(a);
    var va := Sv39(addr);
    if va >= USER_END { OutsideKeys(a, t.root, va); }
    if cause == Store && va >= USER_END && kernelMark { return KernelWord; }
    if cause == Store && va < USER_END && a.CheckCow(t.root, va) {
      CowPageHasData(a, (t.root, va / 4096));
      var ok, p := a.CowFault(t.root, va);
      ValidShape(a);
      return if ok then Resolved(p) else OutOfMemory;
    }
    var found, i := FindVma(t.vmas, addr, cause);
    if addr >= USER_END && (found || addr < |t.code|) { return KernelRegion; }
    if found {
      var prot := PagePermissions(t.vmas[i].prot);
      var res, p := a.DemandPage(t.root, addr, ZeroPage(), prot);
      return if res == Mapped then Resolved(p) else OutOfMemory;
    }
    if STACK_LOW <= addr < STACK_LOW + STACK_SIZE {
      var res, p := a.DemandPage(t.root, addr, ZeroPage(), PROT_USER_RW);
      return if res == Mapped then Resolved(p) else if res == NoPage then Killed(true) else OutOfMemory;
    }
    if addr < |t.code| {
      var page := ImagePage(t.code, addr / 4096 * 4096);
      var res, p := a.DemandPage(t.root, addr, page, PROT_USER_RX);
      return if res == Mapped then Resolved(p) else if res == NoPage then Killed(true) else OutOfMemory;
    }
    return Killed(false);
  }

  lemma ValidShape(a: AddressSpaces)
    requires a.Valid()
    ensures a.Shape()
  {
  }

  lemma CowPageHasData(a: AddressSpaces, k: Key)
    requires a.Valid() && k in a.leaves
    ensures a.leaves[k].pa in a.data
  {
    LeafHasPage(a.Abs(), k);
  }

  /** No leaf belongs to an address whose walk leaves the user half. */
  lemma OutsideKeys(a: AddressSpaces, root: nat, va: nat)
    requires a.Valid() && va >= USER_END
    ensures (root, va / 4096) !in a.leaves
  {
  }
}
