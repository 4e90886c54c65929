/** Every step of the system keeps its invariant: exact counts, lone writers, and leaves that
    carry exactly the permissions of the region they lie in. */
module VmInvariant {
  import opened Bytes
  import opened Pte
  import opened VmModel
  import opened VmSystem

  // ---------------------------------------------------------------- regions

  lemma {:induction false} FirstVmaAligned(t: Task, addr: nat, i: nat)
    requires VmasOk(t) && i <= |t.vmas|
    ensures FirstVma(t.vmas, addr, i) == FirstVma(t.vmas, addr / 4096 * 4096, i)
    decreases |t.vmas| - i
  {
    if i < |t.vmas| {
      assert VmaOk(t, i);
      if !(t.vmas[i].start <= addr < t.vmas[i].end) {
        FirstVmaAligned(t, addr, i + 1);
      }
    }
  }

  /** The handler's decision, in terms of the region of the page.  Three causes are decided by
      more than the region's flags: an address behind the end of the image on its last page,
      a fetch from the stack and a store to the image. */
  lemma HandleByRegion(t: Task, addr: nat, c: Cause)
    requires VmasOk(t) && |t.code| <= STACK_LOW
    ensures var r := RegionOf(t, addr / 4096);
            Handle(t, addr, c) == match r
                                  case InVma(i) => if i < |t.vmas| && VmaAllows(t.vmas[i].prot, c) then MapVma(i) else KillTask
                                  case InStack => MapStack
                                  case InCode => if addr < |t.code| then MapCode else KillTask
                                  case Nowhere => KillTask
  {
    FirstVmaAligned(t, addr, 0);
    var i := FirstVma(t.vmas, addr, 0);
    if i < |t.vmas| {
      assert VmaOk(t, i);
    }
  }

  lemma {:induction false} FirstVmaAppend(vmas: seq<Vma>, m: Vma, addr: nat, i: nat)
    requires i <= |vmas|
    ensures FirstVma(vmas + [m], addr, i) ==
            if FirstVma(vmas, addr, i) < |vmas| then FirstVma(vmas, addr, i)
            else if m.start <= addr < m.end then |vmas| else |vmas| + 1
    decreases |vmas| - i
  {
    if i < |vmas| && !(vmas[i].start <= addr < vmas[i].end) {
      FirstVmaAppend(vmas, m, addr, i + 1);
    }
  }

  /** A new region takes over pages that belonged to no region, and no others. */
  lemma RegionAfterMmap(t: Task, m: Vma, v: nat)
    requires VmasOk(t.(vmas := t.vmas + [m]))
    ensures var t' := t.(vmas := t.vmas + [m]);
            if m.start <= v * 4096 < m.end then RegionOf(t, v) == Nowhere && RegionOf(t', v) == InVma(|t.vmas|)
            else RegionOf(t', v) == RegionOf(t, v)
    ensures RegionOf(t, v).InVma? ==> RegionOf(t, v).i < |t.vmas|
  {
    var t' := t.(vmas := t.vmas + [m]);
    FirstVmaAppend(t.vmas, m, v * 4096, 0);
    var i := FirstVma(t.vmas, v * 4096, 0);
    assert VmaOk(t', |t.vmas|);
    if i < |t.vmas| {
      assert VmasApart(t', i, |t.vmas|);
      assert t'.vmas[i] == t.vmas[i];
    }
  }

  // ---------------------------------------------------------------- the parts of the invariant

  ghost predicate RootsDistinct(tasks: map<nat, Task>) {
    forall p, q :: p in tasks && q in tasks && tasks[p].root == tasks[q].root ==> p == q
  }

  ghost predicate TasksOk(tasks: map<nat, Task>) {
    forall p :: p in tasks ==> VmasOk(tasks[p]) && |tasks[p].code| <= STACK_LOW
  }

  ghost predicate LeavesOwned(s: Sys) {
    forall k :: k in s.mem.leaves ==> Owned(s, k) && k.1 < USER_PAGES
  }

  ghost predicate LeavesFit(s: Sys) {
    forall p, v: nat :: p in s.tasks && (s.tasks[p].root, v) in s.mem.leaves ==>
      LeafFits(s.tasks[p], v, s.mem.leaves[(s.tasks[p].root, v)])
  }

  lemma InvParts(s: Sys)
    ensures SysInv(s) <==> MemInv(s.mem) && RootsDistinct(s.tasks) && TasksOk(s.tasks) && LeavesOwned(s) && LeavesFit(s)
  {
    hide MemInv, VmasOk, LeafFits, Owned;
  }

  // ---------------------------------------------------------------- faults

  lemma CowLeafFits(t: Task, v: nat, e: Pte, p: nat)
    requires LeafFits(t, v, e) && e.f.cow
    ensures LeafFits(t, v, Pte(p, Unshared(e.f).(v := true)))
  {
  }

  lemma MappedLeafFits(t: Task, v: nat, p: nat)
    requires RegionOf(t, v) != Nowhere
    requires RegionOf(t, v).InVma? ==> RegionOf(t, v).i < |t.vmas|
    ensures LeafFits(t, v, Pte(p, RegionFlags(t, RegionOf(t, v)).(v := true)))
  {
  }

  /** A fault that is not a copy-on-write store maps a page with its region's flags and its
      initial contents. */
  lemma FaultMapsInitial(s: Sys, pid: nat, addr: nat, c: Cause, p: nat)
    requires SysInv(s) && Enabled(s, Fault(pid, addr, c, p)) && !IsCowFault(s, pid, addr, c)
    ensures var (t, v) := (s.tasks[pid], addr / 4096);
            RegionOf(t, v) != Nowhere && (RegionOf(t, v).InVma? ==> RegionOf(t, v).i < |t.vmas|)
            && FaultMem(s, pid, addr, c, p) == MapPage(s.mem, (t.root, v), p, RegionFlags(t, RegionOf(t, v)), InitialPage(t, v))
  {
    hide MemInv, LeafFits, Owned, VmasOk, MapPage, InitialPage, ZeroPage, CodePage;
    var t, v := s.tasks[pid], addr / 4096;
    HandleByRegion(t, addr, c);
    InitialOf(t, v);
  }

  lemma InitialOf(t: Task, v: nat)
    ensures InitialPage(t, v) == if RegionOf(t, v).InCode? then (if v * 4096 <= |t.code| then CodePage(t.code, v * 4096) else ZeroPage()) else ZeroPage()
  {
  }

  lemma OneLeafChanged(s: Sys, mem: Mem, pid: nat, v: nat)
    requires SysInv(s) && MemInv(mem) && pid in s.tasks && v < USER_PAGES
    requires mem.leaves.Keys == s.mem.leaves.Keys + {(s.tasks[pid].root, v)}
    requires forall k :: k in s.mem.leaves && k != (s.tasks[pid].root, v) ==> mem.leaves[k] == s.mem.leaves[k]
    requires LeafFits(s.tasks[pid], v, mem.leaves[(s.tasks[pid].root, v)])
    ensures SysInv(s.(mem := mem))
  {
    hide MemInv, LeafFits, VmasOk;
    var s' := s.(mem := mem);
    forall k | k in mem.leaves ensures Owned(s', k) && k.1 < USER_PAGES {
      if k in s.mem.leaves {
        assert Owned(s, k);
        var p :| p in s.tasks && s.tasks[p].root == k.0;
        assert p in s'.tasks && s'.tasks[p].root == k.0;
      } else {
        assert pid in s'.tasks && s'.tasks[pid].root == k.0;
      }
    }
    InvParts(s');
  }

  lemma FaultKeeps(s: Sys, pid: nat, addr: nat, c: Cause, p: nat)
    requires SysInv(s) && Enabled(s, Fault(pid, addr, c, p))
    ensures SysInv(Next(s, Fault(pid, addr, c, p)))
  {
    hide MemInv, LeafFits, VmasOk, Owned, InitialPage, RegionOf, RegionFlags;
    var t, v, k := s.tasks[pid], addr / 4096, KeyOf(s, pid, addr);
    if IsCowFault(s, pid, addr, c) {
      BreakShareInv(s.mem, k, p);
      assert LeafFits(t, v, s.mem.leaves[(t.root, v)]);
      CowLeafFits(t, v, s.mem.leaves[k], p);
    } else {
      FaultMapsInitial(s, pid, addr, c, p);
      MapPageInv(s.mem, k, p, RegionFlags(t, RegionOf(t, v)), InitialPage(t, v));
      MappedLeafFits(t, v, p);
    }
    OneLeafChanged(s, FaultMem(s, pid, addr, c, p), pid, v);
  }

  // ---------------------------------------------------------------- fork

  lemma CowSharedFits(t: Task, t': Task, v: nat, e: Pte)
    requires LeafFits(t, v, e) && t'.vmas == t.vmas && t'.code == t.code
    ensures LeafFits(t', v, CowShare(e)) && LeafFits(t', v, e)
  {
  }

  lemma ForkReady(s: Sys, parent: nat, root: nat)
    requires SysInv(s) && parent in s.tasks && forall p :: p in s.tasks ==> s.tasks[p].root != root
    ensures ReadyToFork(s.mem, s.tasks[parent].root, root, USER_PAGES)
  {
    hide MemInv, LeafFits, VmasOk;
    forall k | k in s.mem.leaves ensures k.0 != root && k.1 < USER_PAGES {
      assert Owned(s, k);
    }
  }

  lemma ForkKeepsOwned(s: Sys, parent: nat, child: nat, root: nat)
    requires SysInv(s) && Enabled(s, Fork(parent, child, root))
    ensures LeavesOwned(Next(s, Fork(parent, child, root)))
  {
    hide MemInv, LeafFits, VmasOk, ForkUpTo;
    var s' := Next(s, Fork(parent, child, root));
    var src := s.tasks[parent].root;
    ForkUpToLeaves(s.mem, src, root, USER_PAGES);
    forall k | k in s'.mem.leaves ensures Owned(s', k) && k.1 < USER_PAGES {
      assert ForkedAt(s.mem.leaves, s'.mem.leaves, src, root, USER_PAGES, k);
      if k.0 == root {
        assert child in s'.tasks && s'.tasks[child].root == k.0;
        assert k in s.mem.leaves ==> Owned(s, k);
      } else {
        assert Owned(s, k);
        var p :| p in s.tasks && s.tasks[p].root == k.0;
        assert p in s'.tasks && s'.tasks[p].root == k.0;
      }
    }
  }

  lemma ForkKeepsFit(s: Sys, parent: nat, child: nat, root: nat)
    requires SysInv(s) && Enabled(s, Fork(parent, child, root))
    ensures LeavesFit(Next(s, Fork(parent, child, root)))
  {
    hide MemInv, LeafFits, VmasOk, ForkUpTo, Owned, CowShare;
    var s' := Next(s, Fork(parent, child, root));
    var src := s.tasks[parent].root;
    ForkUpToLeaves(s.mem, src, root, USER_PAGES);
    ForkReady(s, parent, root);
    forall p, v: nat | p in s'.tasks && (s'.tasks[p].root, v) in s'.mem.leaves
      ensures LeafFits(s'.tasks[p], v, s'.mem.leaves[(s'.tasks[p].root, v)])
    {
      assert ForkedAt(s.mem.leaves, s'.mem.leaves, src, root, USER_PAGES, (s'.tasks[p].root, v));
      var q := if p == child then parent else p;
      assert (s.tasks[q].root, v) in s.mem.leaves;
      CowSharedFits(s.tasks[q], s'.tasks[p], v, s.mem.leaves[(s.tasks[q].root, v)]);
    }
  }

  lemma SameVmasOk(t: Task, t': Task)
    requires VmasOk(t) && t'.vmas == t.vmas && t'.code == t.code
    ensures VmasOk(t')
  {
    forall i | 0 <= i < |t'.vmas| ensures VmaOk(t', i) {
      assert VmaOk(t, i);
    }
    forall i, j | 0 <= i < j < |t'.vmas| ensures VmasApart(t', i, j) {
      assert VmasApart(t, i, j);
    }
  }

  lemma ForkKeeps(s: Sys, parent: nat, child: nat, root: nat)
    requires SysInv(s) && Enabled(s, Fork(parent, child, root))
    ensures SysInv(Next(s, Fork(parent, child, root)))
  {
    hide MemInv, LeafFits, ForkUpTo, Owned, ReadyToFork, FewMappers, VmasOk;
    SameVmasOk(s.tasks[parent], s.tasks[parent].(root := root));
    ForkReady(s, parent, root);
    ForkInvIff(s.mem, s.tasks[parent].root, root, USER_PAGES);
    ForkKeepsOwned(s, parent, child, root);
    ForkKeepsFit(s, parent, child, root);
    InvParts(Next(s, Fork(parent, child, root)));
  }

  // ---------------------------------------------------------------- stores

  lemma StoreKeeps(s: Sys, pid: nat, addr: nat, b: byte)
    requires SysInv(s) && Enabled(s, StoreTo(pid, addr, b))
    ensures SysInv(Next(s, StoreTo(pid, addr, b)))
    ensures Next(s, StoreTo(pid, addr, b)).mem.leaves == s.mem.leaves
  {
    hide MemInv, LeafFits, VmasOk;
    StoreIsPrivate(s.mem, KeyOf(s, pid, addr), addr % 4096, b);
  }

  // ---------------------------------------------------------------- mmap

  ghost predicate Unmapped(l: Leaves, root: nat, v: nat, n: nat) {
    forall h: nat :: v <= h < v + n ==> (root, h) !in l
  }

  ghost predicate AllFresh(m: Mem, pages: seq<nat>) {
    && (forall i :: 0 <= i < |pages| ==> Fresh(m, pages[i]))
    && (forall i, j :: 0 <= i < j < |pages| ==> pages[i] != pages[j])
  }

  /** l' is l with the pages mapped from v on. */
  ghost predicate RunMapped(l: Leaves, l': Leaves, root: nat, v: nat, pages: seq<nat>, f: Flags) {
    && (forall k: Key :: k in l' <==> k in l || (k.0 == root && v <= k.1 < v + |pages|))
    && (forall k: Key :: k in l' ==> l'[k] == if k.0 == root && v <= k.1 < v + |pages| then Pte(pages[k.1 - v], f.(v := true)) else l[k])
  }

  lemma {:induction false} PopulateLeaves(m: Mem, root: nat, v: nat, pages: seq<nat>, f: Flags)
    ensures RunMapped(m.leaves, Populate(m, root, v, pages, f).leaves, root, v, pages, f)
    decreases |pages|
  {
    if |pages| > 0 {
      PopulateLeaves(m, root, v, pages[..|pages| - 1], f);
    }
  }

  lemma {:induction false} PopulateData(m: Mem, root: nat, v: nat, pages: seq<nat>, f: Flags)
    ensures var d := Populate(m, root, v, pages, f).data;
            && (forall p :: p in d <==> p in m.data || p in pages)
            && (forall p :: p in d ==> d[p] == if p in pages then ZeroPage() else m.data[p])
    decreases |pages|
  {
    hide ZeroPage;
    if |pages| > 0 {
      assert pages == pages[..|pages| - 1] + [pages[|pages| - 1]];
      PopulateData(m, root, v, pages[..|pages| - 1], f);
    }
  }

  lemma PopulateLast(m: Mem, root: nat, v: nat, pages: seq<nat>, f: Flags)
    requires AllFresh(m, pages) && |pages| > 0 && Unmapped(m.leaves, root, v, |pages|)
    ensures var n := |pages| - 1;
            && AllFresh(m, pages[..n]) && Unmapped(m.leaves, root, v, n) && Counted(pages[n])
            && pages[n] !in Populate(m, root, v, pages[..n], f).data
            && (root, v + n) !in Populate(m, root, v, pages[..n], f).leaves
  {
    hide Populate, ZeroPage, Counted;
    var n := |pages| - 1;
    PopulateLeaves(m, root, v, pages[..n], f);
    PopulateData(m, root, v, pages[..n], f);
    assert Fresh(m, pages[n]);
  }

  lemma {:induction false} PopulateInv(m: Mem, root: nat, v: nat, pages: seq<nat>, f: Flags)
    requires MemInv(m) && AllFresh(m, pages) && Unmapped(m.leaves, root, v, |pages|)
    ensures MemInv(Populate(m, root, v, pages, f))
    decreases |pages|
  {
    hide MemInv, MapPage, ZeroPage, AllFresh, Unmapped;
    if |pages| > 0 {
      var n := |pages| - 1;
      PopulateLast(m, root, v, pages, f);
      PopulateInv(m, root, v, pages[..n], f);
      MapPageInv(Populate(m, root, v, pages[..n], f), (root, v + n), pages[n], f, ZeroPage());
    }
  }

  /** Nothing is mapped yet where a new region is placed. */
  lemma NewRegionUnmapped(s: Sys, pid: nat, m: Vma, v: nat)
    requires SysInv(s) && pid in s.tasks && VmasOk(s.tasks[pid].(vmas := s.tasks[pid].vmas + [m]))
    requires m.start <= v * 4096 < m.end
    ensures (s.tasks[pid].root, v) !in s.mem.leaves
  {
    hide MemInv, VmasOk, Owned;
    RegionAfterMmap(s.tasks[pid], m, v);
    assert (s.tasks[pid].root, v) in s.mem.leaves ==> LeafFits(s.tasks[pid], v, s.mem.leaves[(s.tasks[pid].root, v)]);
  }

  lemma SameRegionFits(t: Task, t': Task, v: nat, e: Pte)
    requires LeafFits(t, v, e) && RegionOf(t', v) == RegionOf(t, v)
    requires RegionOf(t, v).InVma? ==> RegionOf(t, v).i < |t.vmas| && t.vmas <= t'.vmas
    ensures LeafFits(t', v, e)
  {
  }

  lemma PagesFitRegion(m: Vma, n: nat, v: nat)
    requires m.start % 4096 == 0 && m.end % 4096 == 0 && m.start < m.end && n <= (m.end - m.start) / 4096
    requires m.start / 4096 <= v < m.start / 4096 + n
    ensures m.start <= v * 4096 < m.end
  {
  }

  /** The pages that populating maps lie in the new region, where nothing is mapped. */
  lemma MmapMemory(s: Sys, pid: nat, m: Vma, pages: seq<nat>)
    requires SysInv(s) && Enabled(s, Mmap(pid, m, pages))
    ensures forall v: nat :: m.start / 4096 <= v < m.start / 4096 + |pages| ==> m.start <= v * 4096 < m.end
    ensures Unmapped(s.mem.leaves, s.tasks[pid].root, m.start / 4096, |pages|) && AllFresh(s.mem, pages)
  {
    hide MemInv, Owned, LeafFits, VmasApart;
    var t' := s.tasks[pid].(vmas := s.tasks[pid].vmas + [m]);
    assert VmaOk(t', |t'.vmas| - 1);
    forall v: nat | m.start / 4096 <= v < m.start / 4096 + |pages|
      ensures m.start <= v * 4096 < m.end && (s.tasks[pid].root, v) !in s.mem.leaves
    {
      PagesFitRegion(m, |pages|, v);
      NewRegionUnmapped(s, pid, m, v);
    }
  }

  lemma MmapKeepsFit(s: Sys, pid: nat, m: Vma, pages: seq<nat>)
    requires SysInv(s) && Enabled(s, Mmap(pid, m, pages))
    ensures LeavesFit(Next(s, Mmap(pid, m, pages)))
  {
    hide MemInv, Owned, LeafFits, VmasOk, Populate, VmaFlags, RegionOf, Unmapped, AllFresh;
    var s' := Next(s, Mmap(pid, m, pages));
    var t := s.tasks[pid];
    var lo := m.start / 4096;
    MmapMemory(s, pid, m, pages);
    PopulateLeaves(s.mem, t.root, lo, pages, VmaFlags(m.prot));
    forall p, v: nat | p in s'.tasks && (s'.tasks[p].root, v) in s'.mem.leaves
      ensures LeafFits(s'.tasks[p], v, s'.mem.leaves[(s'.tasks[p].root, v)])
    {
      RegionAfterMmap(t, m, v);
      var k: Key := (s'.tasks[p].root, v);
      if p == pid {
        if lo <= v < lo + |pages| {
          MappedLeafFits(s'.tasks[pid], v, pages[v - lo]);
        } else {
          assert LeafFits(t, v, s.mem.leaves[k]);
          NotNowhere(t, v, s.mem.leaves[k]);
          SameRegionFits(t, s'.tasks[pid], v, s.mem.leaves[k]);
        }
      }
    }
  }

  lemma NotNowhere(t: Task, v: nat, e: Pte)
    requires LeafFits(t, v, e)
    ensures RegionOf(t, v) != Nowhere
  {
  }

  lemma InUserHalf(m: Vma, v: nat)
    requires v * 4096 < m.end <= STACK_LOW
    ensures v < USER_PAGES
  {
  }

  lemma MmapKeepsOwned(s: Sys, pid: nat, m: Vma, pages: seq<nat>)
    requires SysInv(s) && Enabled(s, Mmap(pid, m, pages))
    ensures LeavesOwned(Next(s, Mmap(pid, m, pages)))
  {
    hide MemInv, LeafFits, VmasApart, Populate, VmaFlags, Unmapped, AllFresh;
    var s' := Next(s, Mmap(pid, m, pages));
    MmapMemory(s, pid, m, pages);
    PopulateLeaves(s.mem, s.tasks[pid].root, m.start / 4096, pages, VmaFlags(m.prot));
    assert VmaOk(s'.tasks[pid], |s'.tasks[pid].vmas| - 1);
    forall k | k in s'.mem.leaves ensures Owned(s', k) && k.1 < USER_PAGES {
      if k in s.mem.leaves {
        assert Owned(s, k);
        var p :| p in s.tasks && s.tasks[p].root == k.0;
        assert p in s'.tasks && s'.tasks[p].root == k.0;
      } else {
        assert pid in s'.tasks && s'.tasks[pid].root == k.0;
        InUserHalf(m, k.1);
      }
    }
  }

  lemma MmapKeeps(s: Sys, pid: nat, m: Vma, pages: seq<nat>)
    requires SysInv(s) && Enabled(s, Mmap(pid, m, pages))
    ensures SysInv(Next(s, Mmap(pid, m, pages)))
  {
    hide MemInv, LeafFits, VmaOk, VmasApart, Populate, Unmapped, AllFresh, Owned;
    MmapMemory(s, pid, m, pages);
    PopulateInv(s.mem, s.tasks[pid].root, m.start / 4096, pages, VmaFlags(m.prot));
    MmapKeepsFit(s, pid, m, pages);
    MmapKeepsOwned(s, pid, m, pages);
    InvParts(Next(s, Mmap(pid, m, pages)));
  }

  // ---------------------------------------------------------------- exec, exit, spawn, reap

  /** Memory after every leaf of one root is dropped. */
  lemma DropAll(s: Sys, root: nat)
    requires SysInv(s)
    ensures var m' := DropUpTo(s.mem, root, USER_PAGES);
            && MemInv(m')
            && (forall k :: k in m'.leaves <==> k in s.mem.leaves && k.0 != root)
            && (forall k :: k in m'.leaves ==> m'.leaves[k] == s.mem.leaves[k])
            && (forall p :: p in m'.data ==> p in s.mem.data && m'.data[p] == s.mem.data[p])
  {
    hide MemInv, LeafFits, VmasOk, Owned;
    DropUpToInv(s.mem, root, USER_PAGES);
  }

  lemma ExecKeeps(s: Sys, pid: nat, image: seq<byte>)
    requires SysInv(s) && Enabled(s, Exec(pid, image))
    ensures SysInv(Next(s, Exec(pid, image)))
  {
    hide MemInv, LeafFits, VmasOk, DropUpTo;
    var s' := Next(s, Exec(pid, image));
    DropAll(s, s.tasks[pid].root);
    forall k | k in s'.mem.leaves ensures Owned(s', k) && k.1 < USER_PAGES {
      assert Owned(s, k);
      var p :| p in s.tasks && s.tasks[p].root == k.0;
      assert p in s'.tasks && s'.tasks[p].root == k.0;
    }
    InvParts(s');
  }

  lemma ReapKeeps(s: Sys, pid: nat)
    requires SysInv(s) && Enabled(s, Reap(pid))
    ensures SysInv(Next(s, Reap(pid)))
  {
    hide MemInv, LeafFits, VmasOk, DropUpTo;
    var s' := Next(s, Reap(pid));
    DropAll(s, s.tasks[pid].root);
    forall k | k in s'.mem.leaves ensures Owned(s', k) && k.1 < USER_PAGES {
      assert Owned(s, k);
      var p :| p in s.tasks && s.tasks[p].root == k.0;
      assert p in s'.tasks && s'.tasks[p].root == k.0;
    }
    InvParts(s');
  }

  lemma TaskOnlyKeeps(s: Sys, pid: nat, t: Task)
    requires SysInv(s) && VmasOk(t) && |t.code| <= STACK_LOW
    requires if pid in s.tasks then t == s.tasks[pid].(zombie := t.zombie) else forall p :: p in s.tasks ==> s.tasks[p].root != t.root
    ensures SysInv(s.(tasks := s.tasks[pid := t]))
  {
    hide MemInv, VmasOk, LeafFits;
    var s' := s.(tasks := s.tasks[pid := t]);
    forall k | k in s'.mem.leaves ensures Owned(s', k) && k.1 < USER_PAGES {
      assert Owned(s, k);
      var p :| p in s.tasks && s.tasks[p].root == k.0;
      assert p in s'.tasks && s'.tasks[p].root == k.0;
    }
    forall p, v: nat | p in s'.tasks && (s'.tasks[p].root, v) in s'.mem.leaves
      ensures LeafFits(s'.tasks[p], v, s'.mem.leaves[(s'.tasks[p].root, v)])
    {
      assert Owned(s, (s'.tasks[p].root, v));
      assert LeafFits(s.tasks[p], v, s.mem.leaves[(s.tasks[p].root, v)]);
      ZombieFits(s.tasks[p], t.zombie, v, s.mem.leaves[(s.tasks[p].root, v)]);
    }
    InvParts(s');
  }

  lemma ZombieFits(t: Task, zombie: bool, v: nat, e: Pte)
    ensures LeafFits(t.(zombie := zombie), v, e) == LeafFits(t, v, e)
  {
  }

  // ---------------------------------------------------------------- the theorem

  lemma Keeps(s: Sys, st: Step)
    requires SysInv(s) && Enabled(s, st)
    ensures SysInv(Next(s, st))
  {
    hide SysInv, VmasOk, FaultMem, ForkUpTo, Populate, StoreMem, DropUpTo;
    match st
    case Fault(pid, addr, c, p) => FaultKeeps(s, pid, addr, c, p);
    case Exit(pid) =>
      TaskOf(s, pid);
      TaskOnlyKeeps(s, pid, s.tasks[pid].(zombie := true));
    case Fork(parent, child, root) => ForkKeeps(s, parent, child, root);
    case StoreTo(pid, addr, b) => StoreKeeps(s, pid, addr, b);
    case Mmap(pid, m, pages) => MmapKeeps(s, pid, m, pages);
    case Exec(pid, image) => ExecKeeps(s, pid, image);
    case Spawn(pid, root, image) =>
      NoVmas(Task(root, [], image, false));
      TaskOnlyKeeps(s, pid, Task(root, [], image, false));
    case Reap(pid) => ReapKeeps(s, pid);
  }

  lemma TaskOf(s: Sys, pid: nat)
    requires SysInv(s) && pid in s.tasks
    ensures VmasOk(s.tasks[pid]) && VmasOk(s.tasks[pid].(zombie := true)) && |s.tasks[pid].code| <= STACK_LOW
  {
    hide MemInv, LeafFits, Owned, VmasOk;
    SameVmasOk(s.tasks[pid], s.tasks[pid].(zombie := true));
  }

  lemma NoVmas(t: Task)
    requires t.vmas == []
    ensures VmasOk(t)
  {
  }
}
