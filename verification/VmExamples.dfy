/** Runs in which the page-table code of lab7/src/paging.c loses count: concrete inputs for the
    conditions of VmAccess.FaultKeepsMemIff and VmModel.ForkInvIff. */
module VmExamples {
  import opened Pte
  import opened VmModel
  import opened VmSystem
  import opened VmRefinement
  import opened VmAccess

  // ---------------------------------------------------------------- a fetch from the stack

  const PAGE_A := RAM_START
  const PAGE_B := RAM_START + 4096

  /** A process with an empty image is created, and its first stack page is mapped by a store. */
  function StackRun(): seq<Step> {
    [Spawn(1, 1, []), Fault(1, STACK_LOW, Store, PAGE_A), StoreTo(1, STACK_LOW, 7)]
  }

  lemma StackIsStack(t: Task, c: Cause)
    requires t.vmas == [] && t.code == []
    ensures Handle(t, STACK_LOW, c) == MapStack && RegionOf(t, STACK_LOW / 4096) == InStack
  {
  }

  lemma {:induction false} AfterThree(s: Sys, a: Step, b: Step, c: Step)
    ensures After(s, [a, b, c]) == Next(Next(Next(s, a), b), c)
    ensures Enabled(s, a) && Enabled(Next(s, a), b) && Enabled(Next(Next(s, a), b), c) ==> Runs(s, [a, b, c])
  {
    hide Next, Enabled;
    assert [a, b, c][1..] == [b, c] && [b, c][1..] == [c] && [c][1..] == [];
    assert After(Next(s, a), [b, c]) == After(Next(Next(s, a), b), [c]);
    assert Runs(Next(Next(Next(s, a), b), c), []);
    assert Enabled(Next(Next(s, a), b), c) ==> Runs(Next(Next(s, a), b), [c]);
    assert Enabled(Next(s, a), b) && Enabled(Next(Next(s, a), b), c) ==> Runs(Next(s, a), [b, c]);
  }

  /** The state behind the first two steps: one stack page, readable and writable. */
  lemma StackMapped(s: Sys)
    requires Booted(s)
    ensures var s1 := Next(s, StackRun()[0]); var s2 := Next(s1, StackRun()[1]);
            && Enabled(s, StackRun()[0]) && Enabled(s1, StackRun()[1]) && Enabled(s2, StackRun()[2])
            && s2.tasks == map[1 := Task(1, [], [], false)]
            && s2.mem.leaves == map[(1, STACK_LOW / 4096) := Pte(PAGE_A, PROT_USER_RW)]
            && s2.mem.data.Keys == {PAGE_A}
  {
    var s1 := Next(s, StackRun()[0]);
    StackIsStack(s1.tasks[1], Store);
    assert s1.tasks == map[1 := Task(1, [], [], false)];
  }

  lemma StackRunState(s: Sys)
    requires Booted(s)
    ensures var s' := After(s, StackRun());
            && Runs(s, StackRun()) && SysInv(s')
            && s'.tasks == map[1 := Task(1, [], [], false)]
            && s'.mem.leaves == map[(1, STACK_LOW / 4096) := Pte(PAGE_A, PROT_USER_RW)]
            && s'.mem.data.Keys == {PAGE_A}
  {
    hide SysInv, Booted, Enabled, Next;
    StackMapped(s);
    AfterThree(s, StackRun()[0], StackRun()[1], StackRun()[2]);
    BootedInv(s);
    RunRefines(s, StackRun());
    StoreLeaves(Next(Next(s, StackRun()[0]), StackRun()[1]));
  }

  /** An instruction fetch from that page faults, since the stack is not executable; the handler
      maps a second page over the first, whose count is never taken back. */
  lemma StackFetchLosesCount(s: Sys)
    requires Booted(s)
    ensures Runs(s, StackRun()) && SysInv(After(s, StackRun())) && 1 in After(s, StackRun()).tasks
    ensures !MemInv(FaultMem(After(s, StackRun()), 1, STACK_LOW, Fetch, PAGE_B))
  {
    hide SysInv, Booted, Runs, After, MemInv, FaultMem;
    StackRunState(s);
    var s' := After(s, StackRun());
    StackIsStack(s'.tasks[1], Fetch);
    FaultKeepsMemIff(s', 1, STACK_LOW, Fetch, PAGE_B);
  }

  lemma StoreLeaves(s: Sys)
    requires 1 in s.tasks
    ensures var s' := Next(s, StackRun()[2]); s'.tasks == s.tasks && s'.mem.leaves == s.mem.leaves && s'.mem.data.Keys == s.mem.data.Keys
  {
  }

  // ---------------------------------------------------------------- the 256th sharer

  /** Page PAGE_A is mapped, marked as shared, by the first page of n address spaces. */
  function SharedBy(n: nat): Mem {
    Mem(map r: nat | r < n :: (r, 0) := Pte(PAGE_A, PROT_USER_RW.(w := false, cow := true)),
        seq(NUM_PAGES, i => if i == 0 then n else 0), map[PAGE_A := ZeroPage()])
  }

  /** The first pages of n address spaces. */
  ghost function FirstPages(n: nat): (s: set<Key>)
    ensures |s| == n && forall k :: k in s <==> k.0 < n && k.1 == 0
  {
    if n == 0 then {} else FirstPages(n - 1) + {(n - 1, 0)}
  }

  lemma SharedCount(n: nat, q: nat)
    requires Counted(q)
    ensures PageIdx(q) < NUM_PAGES && SharedBy(n).refs[PageIdx(q)] == |Mappers(SharedBy(n).leaves, q)|
    ensures |Mappers(SharedBy(n).leaves, q)| <= n
  {
    PageIdxInjective(q, PAGE_A);
    if q == PAGE_A {
      assert Mappers(SharedBy(n).leaves, q) == FirstPages(n);
    } else {
      assert Mappers(SharedBy(n).leaves, q) == {};
    }
  }

  lemma SharedOk(n: nat)
    requires 0 < n < 256
    ensures MemInv(SharedBy(n))
  {
    hide Mappers, PageIdx, Counted;
    var m := SharedBy(n);
    forall q | Counted(q) ensures PageIdx(q) < NUM_PAGES && m.refs[PageIdx(q)] == |Mappers(m.leaves, q)| < 256 {
      SharedCount(n, q);
    }
    SharedData(n);
  }

  lemma SharedData(n: nat)
    requires 0 < n
    ensures DataOk(SharedBy(n)) && WritersAlone(SharedBy(n).leaves)
  {
    assert (0, 0) in SharedBy(n).leaves;
    assert MappedPages(SharedBy(n).leaves) == {PAGE_A};
  }

  /** With 255 sharers the page's count is full; one more fork makes it zero, although 256 leaves
      map the page, and the next exit frees it under all the others. */
  lemma SharerTooMany()
    ensures MemInv(SharedBy(255)) && ReadyToFork(SharedBy(255), 0, 255, 1)
    ensures !MemInv(ForkUpTo(SharedBy(255), 0, 255, 1))
    ensures var m := ForkUpTo(SharedBy(255), 0, 255, 1);
            (0, 0) in m.leaves && (1, 0) in m.leaves && m.leaves[(1, 0)].pa == m.leaves[(0, 0)].pa == PAGE_A
            && PAGE_A !in DropLeaf(m, (0, 0)).data
  {
    var m := SharedBy(255);
    SharedOk(255);
    assert m.leaves[(0, 0)].pa == PAGE_A;
    assert (0, 0) in Copied(m.leaves, 0, 1, PAGE_A);
    assert Counted(PAGE_A) && m.refs[PageIdx(PAGE_A)] == 255;
    assert !RoomToFork(m, 0, 1);
    ForkInvIff(m, 0, 255, 1);
    ForkUpToStep(m, 0, 255, 0);
    ForkUpToZero(m, 0, 255, 0);
  }

  // ---------------------------------------------------------------- first touches that are refused

  /** A page of a write-only region is readable once a store has mapped it, but a load as its first
      touch is fatal. */
  lemma WriteOnlyLoadKilled()
    ensures var t := Task(1, [Vma(0x6000_0000, 0x6000_1000, 2)], [], false);
            VmasOk(t) && Permitted(t, 0x6000_0000 / 4096, Load)
            && Handle(t, 0x6000_0000, Load) == KillTask && Handle(t, 0x6000_0000, Store) == MapVma(0)
  {
  }

  /** Of an image of one byte, only a touch of that byte maps its page. */
  lemma ImageRestKilled()
    ensures var t := Task(1, [], [7], false);
            Permitted(t, 0, Fetch) && Handle(t, 1, Fetch) == KillTask && Handle(t, 0, Fetch) == MapCode
  {
  }

  // ---------------------------------------------------------------- a store through an alias

  /** The stack page is shared with a child. */
  function SharedRun(): seq<Step> {
    StackRun() + [Fork(1, 2, 2)]
  }

  lemma {:induction false} OneMore(s: Sys, steps: seq<Step>, st: Step)
    requires Runs(s, steps)
    ensures After(s, steps + [st]) == Next(After(s, steps), st)
    ensures Runs(s, steps + [st]) <==> Enabled(After(s, steps), st)
    decreases |steps|
  {
    hide Enabled, Next;
    if steps == [] {
      assert [st][1..] == [];
    } else {
      assert (steps + [st])[1..] == steps[1..] + [st];
      OneMore(Next(s, steps[0]), steps[1..], st);
    }
  }

  lemma RoomForTwo(m: Mem, src: nat, n: nat)
    requires MemInv(m) && |m.leaves| <= 1
    ensures RoomToFork(m, src, n)
  {
    forall p | Counted(p) ensures m.refs[PageIdx(p)] + |Copied(m.leaves, src, n, p)| < 256 {
      FewerKeys(Mappers(m.leaves, p), m.leaves.Keys);
      FewerKeys(Copied(m.leaves, src, n, p), m.leaves.Keys);
    }
  }

  lemma FewerKeys(a: set<Key>, b: set<Key>)
    requires a <= b
    ensures |a| <= |b|
  {
    assert b == a + (b - a);
  }

  lemma SharedRunState(s: Sys)
    requires Booted(s)
    ensures var s' := After(s, SharedRun()); var k: Key := (1, STACK_LOW / 4096);
            && Runs(s, SharedRun()) && SysInv(s') && 1 in s'.tasks && s'.tasks[1] == Task(1, [], [], false)
            && k in s'.mem.leaves && s'.mem.leaves[k].f.cow && s'.mem.leaves[k].pa == PAGE_A && s'.mem.data.Keys == {PAGE_A}
  {
    hide SysInv, Booted, Runs, After, MemInv, ForkUpTo, RoomToFork;
    StackRunState(s);
    var s1 := After(s, StackRun());
    InvMem(s1);
    assert s1.mem.leaves.Keys == {(1, STACK_LOW / 4096)};
    RoomForTwo(s1.mem, 1, USER_PAGES);
    OneMore(s, StackRun(), Fork(1, 2, 2));
    ForkUpToLeaves(s1.mem, 1, 2, USER_PAGES);
    assert ForkedAt(s1.mem.leaves, ForkUpTo(s1.mem, 1, 2, USER_PAGES).leaves, 1, 2, USER_PAGES, (1, STACK_LOW / 4096));
    BootedInv(s);
    RunRefines(s, SharedRun());
  }

  lemma InvMem(s: Sys)
    requires SysInv(s)
    ensures MemInv(s.mem)
  {
  }

  /** A store to the stack's address plus 2^39, which is no address of the process, breaks the share
      of the stack page. */
  lemma AliasBreaksShare(s: Sys)
    requires Booted(s)
    ensures var s' := After(s, SharedRun()); var addr := STACK_LOW + 0x80_0000_0000;
            && Runs(s, SharedRun()) && SysInv(s') && 1 in s'.tasks && addr >= USER_END
            && Handle(s'.tasks[1], addr, Store) == KillTask && IsCowFault(s', 1, Sv39(addr), Store)
            && var m := FaultMem(s', 1, Sv39(addr), Store, PAGE_B);
               MemInv(m) && (1, STACK_LOW / 4096) in m.leaves && m.leaves[(1, STACK_LOW / 4096)].pa == PAGE_B
  {
    hide SysInv, Booted, Runs, After, MemInv;
    SharedRunState(s);
    var s' := After(s, SharedRun());
    FaultOutsideUserHalf(s', 1, STACK_LOW + 0x80_0000_0000, Store, PAGE_B);
  }
}
