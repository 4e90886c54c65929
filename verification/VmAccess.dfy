/** Which accesses the hardware and the fault handler let a process make, against the permissions
    of the region the address lies in. */
module VmAccess {
  import opened Bytes
  import opened Pte
  import opened VmModel
  import opened VmSystem
  import opened VmInvariant
  import opened VmRefinement

  /** What the hardware allows user mode through a leaf entry without setting bits in it: the
      permission, the accessed bit and, for a store, the dirty bit (Sv39, sections 4.3.1 and 4.3.2 of
      the RISC-V Privileged Architecture). */
  predicate HardwareAllows(f: Flags, c: Cause) {
    f.v && f.u && f.a && (c == Store ==> f.d) &&
    match c
    case Fetch => f.x
    case Load => f.r
    case Store => f.w
  }

  /** The hardware allows through the pages of a region what the handler admits, and besides loads
      from a region that can be written; on the stack loads and stores, in the image loads and
      fetches. */
  lemma RegionAccess(prot: nat, c: Cause)
    ensures HardwareAllows(VmaFlags(prot), c) <==> VmaAllows(prot, c) || (c == Load && ProtW(prot))
    ensures HardwareAllows(PROT_USER_RW, c) <==> c != Fetch
    ensures HardwareAllows(PROT_USER_RX, c) <==> c != Store
  {
  }

  /** The flag fields that end up in leaves, for the eight protections and for stack and image. */
  lemma FlagFields(prot: nat)
    ensures FlagBits(VmaFlags(prot)) == [0xD1, 0xD3, 0xD7, 0xD7, 0xD9, 0xDB, 0xDF, 0xDF][prot % 8]
    ensures FlagBits(PROT_USER_RW) == 0xD7 && FlagBits(PROT_USER_RX) == 0xDB && FlagBits(TABLE_FLAGS) == 0x01
  {
    hide FlagBits;
    LowThreeBits(prot);
    FlagFieldsBelow8(prot % 8);
  }

  lemma LowThreeBits(prot: nat)
    ensures VmaFlags(prot) == VmaFlags(prot % 8)
  {
    hide ProtR, ProtW, ProtX;
    SameBits(prot / 8, prot % 8);
    assert prot == 8 * (prot / 8) + prot % 8;
  }

  lemma SameBits(q: nat, r: nat)
    requires r < 8
    ensures ProtR(8 * q + r) == ProtR(r) && ProtW(8 * q + r) == ProtW(r) && ProtX(8 * q + r) == ProtX(r)
  {
    var n := 8 * q + r;
    Quotient(n, 2, 4 * q, r);
    Quotient(n, 4, 2 * q, r);
    Quotient(n / 2, 2, 2 * q, r / 2);
    Quotient(n / 4, 2, q, r / 4);
  }

  /** Whole multiples of the divisor go to the quotient. */
  lemma Quotient(n: nat, d: nat, k: nat, r: nat)
    requires (d == 2 || d == 4) && n == d * k + r
    ensures n / d == k + r / d && n % d == r % d
  {
  }

  lemma FlagFieldsBelow8(prot: nat)
    requires prot < 8
    ensures FlagBits(VmaFlags(prot)) == [0xD1, 0xD3, 0xD7, 0xD7, 0xD9, 0xDB, 0xDF, 0xDF][prot]
    ensures FlagBits(PROT_USER_RW) == 0xD7 && FlagBits(PROT_USER_RX) == 0xDB && FlagBits(TABLE_FLAGS) == 0x01
  {
  }

  /** What the region of a page permits: the access an eager kernel would have mapped. */
  predicate Permitted(t: Task, v: nat, c: Cause) {
    var r := RegionOf(t, v);
    r != Nowhere && (r.InVma? ==> r.i < |t.vmas|) && HardwareAllows(RegionFlags(t, r), c)
  }

  /** A mapped page is accessible, at once or after a copy-on-write fault, exactly as its region
      permits: sharing takes no permission away and adds none. */
  lemma MappedAccess(s: Sys, pid: nat, addr: nat, c: Cause)
    requires SysInv(s) && pid in s.tasks && KeyOf(s, pid, addr) in s.mem.leaves
    ensures HardwareAllows(s.mem.leaves[KeyOf(s, pid, addr)].f, c) || IsCowFault(s, pid, addr, c)
            <==> Permitted(s.tasks[pid], addr / 4096, c)
  {
    hide MemInv, VmasOk, Owned, RegionOf;
    var t, v := s.tasks[pid], addr / 4096;
    assert LeafFits(t, v, s.mem.leaves[(t.root, v)]);
    FirstIsIndex(t, v);
  }

  lemma FirstIsIndex(t: Task, v: nat)
    ensures RegionOf(t, v).InVma? ==> RegionOf(t, v).i < |t.vmas|
  {
  }

  /** A copy-on-write fault resolves: the store is allowed when it is retried. */
  lemma CowFaultResolves(s: Sys, pid: nat, addr: nat, p: nat)
    requires SysInv(s) && Enabled(s, Fault(pid, addr, Store, p)) && IsCowFault(s, pid, addr, Store)
    ensures var k := KeyOf(s, pid, addr);
            k in FaultMem(s, pid, addr, Store, p).leaves
            && HardwareAllows(FaultMem(s, pid, addr, Store, p).leaves[k].f, Store)
            && FaultMem(s, pid, addr, Store, p).leaves[k].pa == p
  {
    hide RefsExact, FewMappers, WritersAlone, VmasOk, Owned, RegionOf;
    var k := KeyOf(s, pid, addr);
    LeafHasData(s.mem, k);
    assert LeafFits(s.tasks[pid], addr / 4096, s.mem.leaves[(s.tasks[pid].root, addr / 4096)]);
  }

  /** The first touch of a page that the region permits but the handler refuses: a load from a
      write-only region, and any access behind the end of the image on its last page. */
  predicate RefusedFirst(t: Task, addr: nat, c: Cause) {
    var r := RegionOf(t, addr / 4096);
    (r.InVma? && r.i < |t.vmas| && c == Load && !ProtR(t.vmas[r.i].prot)) || (r.InCode? && addr >= |t.code|)
  }

  /** The accesses the handler maps a page for although its region does not permit them: a fetch
      from the stack and a store to the image. */
  predicate MappedInVain(t: Task, addr: nat, c: Cause) {
    var r := RegionOf(t, addr / 4096);
    (r.InStack? && c == Fetch) || (r.InCode? && c == Store && addr < |t.code|)
  }

  /** First touch in the user half: the handler maps the page and the retried access succeeds exactly when the
      region permits it and it is not one of the refused firsts; it maps the page and the access
      fails again exactly for the two accesses mapped in vain; otherwise the process is killed. */
  lemma FirstTouch(s: Sys, pid: nat, addr: nat, c: Cause, p: nat)
    requires SysInv(s) && Running(s, pid) && addr < USER_END && Fresh(s.mem, p)
    requires KeyOf(s, pid, addr) !in s.mem.leaves
    ensures var t, k, m' := s.tasks[pid], KeyOf(s, pid, addr), FaultMem(s, pid, addr, c, p);
            && (Handle(t, addr, c) == KillTask <==> k !in m'.leaves)
            && (k in m'.leaves && HardwareAllows(m'.leaves[k].f, c) <==> Permitted(t, addr / 4096, c) && !RefusedFirst(t, addr, c))
            && (k in m'.leaves && !HardwareAllows(m'.leaves[k].f, c) <==> MappedInVain(t, addr, c))
  {
    hide MemInv, VmasOk, Owned, LeafFits, InitialPage;
    var t := s.tasks[pid];
    HandleByRegion(t, addr, c);
    FirstIsIndex(t, addr / 4096);
    if Handle(t, addr, c) != KillTask {
      FaultMapsInitial(s, pid, addr, c, p);
    }
    hide Handle, RegionOf;
  }

  /** Every fault the hardware can raise in the user half keeps the counts exact, except an access
      mapped in vain to a page that is already mapped: the handler then maps over the leaf it did
      not look at. */
  lemma FaultKeepsMemIff(s: Sys, pid: nat, addr: nat, c: Cause, p: nat)
    requires SysInv(s) && Running(s, pid) && addr < USER_END && Fresh(s.mem, p)
    requires var k := KeyOf(s, pid, addr); k in s.mem.leaves ==> !HardwareAllows(s.mem.leaves[k].f, c)
    ensures MemInv(FaultMem(s, pid, addr, c, p)) <==>
            !(KeyOf(s, pid, addr) in s.mem.leaves && MappedInVain(s.tasks[pid], addr, c))
  {
    hide MemInv, VmasOk, Owned, LeafFits, InitialPage, ZeroPage, CodePage, HardwareAllows, MapPage;
    var t, k := s.tasks[pid], KeyOf(s, pid, addr);
    HandleByRegion(t, addr, c);
    FirstIsIndex(t, addr / 4096);
    if k in s.mem.leaves {
      MappedFault(s, pid, addr, c);
      if IsCowFault(s, pid, addr, c) {
        BreakShareInv(s.mem, k, p);
      } else {
        MapPageInvIff(s.mem, k, p, PROT_USER_RW, ZeroPage());
        MapPageInvIff(s.mem, k, p, PROT_USER_RX, CodePageOr(t, addr));
      }
    } else if Handle(t, addr, c) != KillTask {
      FaultMapsInitial(s, pid, addr, c, p);
      MapPageInv(s.mem, k, p, RegionFlags(t, RegionOf(t, addr / 4096)), InitialPage(t, addr / 4096));
    }
  }

  function CodePageOr(t: Task, addr: nat): (r: seq<byte>)
    ensures |r| == 4096
  {
    if addr / 4096 * 4096 <= |t.code| then CodePage(t.code, addr / 4096 * 4096) else ZeroPage()
  }

  /** A fault on a mapped page is a copy-on-write store, an access mapped in vain, or fatal. */
  lemma MappedFault(s: Sys, pid: nat, addr: nat, c: Cause)
    requires SysInv(s) && Running(s, pid) && KeyOf(s, pid, addr) in s.mem.leaves
    requires !HardwareAllows(s.mem.leaves[KeyOf(s, pid, addr)].f, c)
    ensures IsCowFault(s, pid, addr, c) ==> !MappedInVain(s.tasks[pid], addr, c)
    ensures !IsCowFault(s, pid, addr, c) ==>
              if MappedInVain(s.tasks[pid], addr, c) then
                Handle(s.tasks[pid], addr, c) == if c == Fetch then MapStack else MapCode
              else Handle(s.tasks[pid], addr, c) == KillTask
  {
    hide MemInv, VmasOk, Owned, LeafFits;
    var t, v := s.tasks[pid], addr / 4096;
    HandleByRegion(t, addr, c);
    MappedAccess(s, pid, addr, c);
    hide Handle, RegionOf;
    FirstIsIndex(t, v);
  }

  /** Outside the user half every fault but one is fatal and changes nothing.  The exception is a
      store whose lower 39 bits are the address of a page that the process shares: the walk ignores
      the other bits, so the handler breaks the share of that page, and the counts stay exact. */
  lemma FaultOutsideUserHalf(s: Sys, pid: nat, addr: nat, c: Cause, p: nat)
    requires SysInv(s) && Running(s, pid) && addr >= USER_END && Fresh(s.mem, p)
    ensures Handle(s.tasks[pid], addr, c) == KillTask
    ensures IsCowFault(s, pid, Sv39(addr), c) ==> Sv39(addr) < USER_END && MemInv(FaultMem(s, pid, Sv39(addr), c, p))
  {
    hide MemInv, Owned, LeafFits, BreakShare;
    var t := s.tasks[pid];
    NoRegionAbove(t, addr, 0);
    if IsCowFault(s, pid, Sv39(addr), c) {
      BreakShareInv(s.mem, KeyOf(s, pid, Sv39(addr)), p);
    }
  }

  lemma {:induction false} NoRegionAbove(t: Task, addr: nat, i: nat)
    requires VmasOk(t) && addr >= USER_END && i <= |t.vmas|
    ensures FirstVma(t.vmas, addr, i) == |t.vmas|
    decreases |t.vmas| - i
  {
    if i < |t.vmas| {
      assert VmaOk(t, i);
      NoRegionAbove(t, addr, i + 1);
    }
  }
}
