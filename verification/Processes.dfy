/** The kernel's user memory as one object: the page tables of lab7/src/paging.c and the tasks they
    belong to.  Every operation is proved to be one step of VmSystem on its abstract state, and
    therefore one step, or none, of the eager machine on what each process sees. */
module Processes {
  import opened Bytes
  import opened Pte
  import opened PageTree
  import opened VmModel
  import opened VmSystem
  import opened VmInvariant
  import opened VmRefinement
  import opened VmAccess
  import opened Paging
  import Log = PageLog
  import C = PageConservation
  import B = BuddyTheorems
  import F = FaultHandler
  import M = Mmap

  /** From s the step could be taken and leads to s'; the invariant holds there, and every process
      sees what the eager machine shows it. */
  ghost predicate Stepped(s: Sys, st: Step, s': Sys) {
    Enabled(s, st) && s' == Next(s, st) && SysInv(s') && View(s') == EagerNext(View(s), st)
  }

  lemma StepTaken(s: Sys, st: Step)
    requires SysInv(s) && Enabled(s, st)
    ensures Stepped(s, st, Next(s, st))
  {
    hide SysInv, Enabled, Next, View, EagerNext;
    Keeps(s, st);
    Refines(s, st);
  }

  lemma SteppedFacts(s: Sys, st: Step, s': Sys)
    requires Stepped(s, st, s')
    ensures SysInv(s') && s' == Next(s, st)
  {
  }

  lemma MemOk(s: Sys)
    requires SysInv(s)
    ensures MemInv(s.mem)
  {
  }

  // ---------------------------------------------------------------- roots and their tasks

  ghost predicate HasTask(tasks: map<nat, Task>, r: nat) { exists p :: p in tasks && tasks[p].root == r }

  /** Every task has a root of its own, and every root a task. */
  ghost predicate RootsOk(role: map<nat, Role>, tasks: map<nat, Task>) {
    && (forall p :: p in tasks ==> IsRoot(role, tasks[p].root))
    && (forall r :: IsRoot(role, r) ==> HasTask(tasks, r))
  }

  lemma RootsGrow(role: map<nat, Role>, role': map<nat, Role>, tasks: map<nat, Task>)
    requires RootsOk(role, tasks) && Grows(role, role')
    ensures RootsOk(role', tasks)
  {
  }

  lemma RootsNew(role: map<nat, Role>, role': map<nat, Role>, root: nat, tasks: map<nat, Task>, pid: nat, t: Task)
    requires RootsOk(role, tasks) && root !in role && role' == role[root := Root] && pid !in tasks && t.root == root
    ensures RootsOk(role', tasks[pid := t])
    ensures forall p :: p in tasks ==> tasks[p].root != root
  {
    forall r | IsRoot(role', r) ensures HasTask(tasks[pid := t], r) {
      if r != root {
        assert IsRoot(role, r);
        var p :| p in tasks && tasks[p].root == r;
        assert tasks[pid := t][p].root == r;
      } else {
        assert tasks[pid := t][pid].root == r;
      }
    }
  }

  /** A task that keeps its root keeps all roots in order. */
  lemma RootsSame(role: map<nat, Role>, tasks: map<nat, Task>, pid: nat, t: Task)
    requires RootsOk(role, tasks) && pid in tasks && t.root == tasks[pid].root
    ensures RootsOk(role, tasks[pid := t])
  {
    forall r | IsRoot(role, r) ensures HasTask(tasks[pid := t], r) {
      var p :| p in tasks && tasks[p].root == r;
      assert tasks[pid := t][p].root == r;
    }
  }

  lemma RootsLost(role: map<nat, Role>, role': map<nat, Role>, tasks: map<nat, Task>, root: nat)
    requires RootsOk(role, tasks) && Lost(role, role', root) && IsRoot(role', root)
    ensures RootsOk(role', tasks)
  {
  }

  lemma RootsReaped(role: map<nat, Role>, role': map<nat, Role>, tasks: map<nat, Task>, pid: nat)
    requires RootsOk(role, tasks) && pid in tasks && Lost(role, role', tasks[pid].root) && tasks[pid].root !in role'
    requires forall p, q :: p in tasks && q in tasks && tasks[p].root == tasks[q].root ==> p == q
    ensures RootsOk(role', tasks - {pid})
  {
    forall r | IsRoot(role', r) ensures HasTask(tasks - {pid}, r) {
      assert IsRoot(role, r);
      var p :| p in tasks && tasks[p].root == r;
      assert (tasks - {pid})[p].root == r;
    }
  }

  lemma OwnRoots(s: Sys)
    requires SysInv(s)
    ensures forall p, q :: p in s.tasks && q in s.tasks && s.tasks[p].root == s.tasks[q].root ==> p == q
  {
  }

  /** Exact counts of no mappings are zeros. */
  lemma NothingCounted(m: Mem)
    requires MemInv(m) && m.leaves == map[]
    ensures |m.refs| == NUM_PAGES && forall i :: 0 <= i < NUM_PAGES ==> m.refs[i] == 0
  {
    forall i | 0 <= i < NUM_PAGES ensures m.refs[i] == 0 {
      var p := RAM_START + i * 4096;
      assert Counted(p) && PageIdx(p) == i && Mappers(m.leaves, p) == {};
    }
  }

  // ---------------------------------------------------------------- the object

  /** Done; refused or out of memory without any change; or an allocation whose result the code
      does not check has failed. */
  datatype Result = Done | NoMemory | Broken

  class Processes {
    const mm: AddressSpaces
    var tasks: map<nat, Task>

    ghost function Abs(): Sys
      reads this, mm, mm.refs
    {
      Sys(mm.Abs(), tasks)
    }

    ghost predicate Valid()
      reads this, mm, mm.refs
    {
      mm.Valid() && SysInv(Abs()) && RootsOk(mm.role, tasks)
    }

    constructor (kernelHalf: seq<Pte>)
      requires |kernelHalf| == USER_ENTRIES
      ensures Valid() && fresh(mm) && fresh(mm.refs) && tasks == map[] && mm.log == []
      ensures Booted(Abs())
    {
      mm := new AddressSpaces(kernelHalf);
      tasks := map[];
      new;
      NothingYet(mm.Abs());
      NothingCounted(mm.Abs());
      NoRoots(mm.tables, mm.role, mm.leaves, mm.kernelHalf);
    }

    /** create_user_process, as far as user memory goes: a root of its own, nothing mapped. */
    method Create(pid: nat, image: seq<byte>) returns (r: Result, ghost root: nat)
      requires Valid() && pid !in tasks && |image| <= STACK_LOW
      modifies this, mm, mm.refs
      ensures r != Broken
      ensures r == Done ==> Valid() && Stepped(old(Abs()), Spawn(pid, root, image), Abs())
      ensures r == NoMemory ==> Valid() && Abs() == old(Abs())
    {
      hide AddressSpaces.Shape, MemInv, SysInv, Stepped, RootsOk, View, EagerNext, VmasOk;
      ghost var s, role := Abs(), mm.role;
      ValidParts(mm);
      var p := mm.NewRoot();
      root := p;
      PartsValid(mm);
      if p == 0 { return NoMemory, 0; }
      NotARoot(old(mm.tables), role, old(mm.leaves), mm.kernelHalf, p);
      RootsNew(role, mm.role, p, tasks, pid, Task(p, [], image, false));
      StepTaken(s, Spawn(pid, p, image));
      SteppedFacts(s, Spawn(pid, p, image), Next(s, Spawn(pid, p, image)));
      tasks := tasks[pid := Task(p, [], image, false)];
      r := Done;
    }

    /** sys_fork, as far as user memory goes.  Memory is what VmSystem says in any case, and the state
        is valid again exactly when every count had room. */
    method Fork(parent: nat, child: nat) returns (r: Result, ghost root: nat)
      requires Valid() && Running(Abs(), parent) && child !in tasks
      modifies this, mm, mm.refs
      ensures r == Done ==> Abs() == Next(old(Abs()), Step.Fork(parent, child, root))
      ensures r == Done ==> (Valid() <==> RoomToFork(old(mm.Abs()), old(tasks)[parent].root, USER_PAGES))
      ensures r == Done && Valid() ==> Stepped(old(Abs()), Step.Fork(parent, child, root), Abs())
      ensures r == NoMemory ==> Valid() && Abs() == old(Abs())
    {
      hide AddressSpaces.Shape, MemInv, SysInv, Stepped, RootsOk, View, EagerNext, VmasOk, ForkUpTo, RoomToFork, Paged, ReadyToFork;
      ghost var s, role := Abs(), mm.role;
      ValidParts(mm);
      TaskRoot(mm.role, tasks, parent);
      CountedPaged(mm.Abs()) by { MemOkData(mm.Abs()); }
      var p := mm.NewRoot();
      root := p;
      PartsValid(mm);
      if p == 0 { return NoMemory, 0; }
      NotARoot(old(mm.tables), role, old(mm.leaves), mm.kernelHalf, p);
      var t := tasks[parent];
      RootsNew(role, mm.role, p, tasks, child, t.(root := p));
      ghost var role1 := mm.role;
      ForkResult(s, parent, child, p);
      var ok := mm.ForkCopy(p, t.root);
      if !ok { return Broken, p; }
      tasks := tasks[child := t.(root := p)];
      RootsGrow(role1, mm.role, tasks);
      ShapeValid(mm);
      r := Done;
    }

    /** A page fault: the handler resolves it, or thread_exit ends the process.  Memory is what VmSystem
        says in any case, and the state is valid again exactly when the fault was no access mapped in
        vain on a page already mapped. */
    method Fault(pid: nat, addr: nat, cause: Cause, kernelMark: bool) returns (r: F.Outcome)
      requires Valid() && Running(Abs(), pid)
      requires addr < USER_END && KeyOf(Abs(), pid, addr) in mm.leaves ==> !HardwareAllows(mm.leaves[KeyOf(Abs(), pid, addr)].f, cause)
      modifies this, mm, mm.refs
      ensures r.Resolved? ==> Abs() == Next(old(Abs()), Step.Fault(pid, Sv39(addr), cause, r.page))
      ensures r.Resolved? ==> (Valid() <==> !LosesCount(old(Abs()), pid, addr, cause))
      ensures r.Resolved? && Valid() ==> Stepped(old(Abs()), Step.Fault(pid, Sv39(addr), cause, r.page), Abs())
      ensures r.Killed? ==> Valid() && Stepped(old(Abs()), Step.Exit(pid), Abs())
      ensures !r.KernelRegion?
    {
      hide AddressSpaces.Shape, MemInv, SysInv, Stepped, RootsOk, View, EagerNext, VmasOk, FaultMem, Handle, IsCowFault, Fresh, HardwareAllows, MappedInVain, LosesCount;
      ghost var s, role := Abs(), mm.role;
      TaskRoot(mm.role, tasks, pid);
      if addr >= USER_END { AboveUserHalf(s, pid, addr, cause); }
      r := F.PageFault(mm, tasks[pid], addr, cause, kernelMark);
      if r.Resolved? {
        FaultAlone(s, pid, Sv39(addr), cause, r.page);
        FaultResult(s, pid, addr, cause, r.page);
        RootsGrow(role, mm.role, tasks);
        ShapeValid(mm);
      } else if r.Killed? {
        Exit(pid);
      }
    }

    /** thread_exit, as far as user memory goes. */
    method Exit(pid: nat)
      requires Valid() && Running(Abs(), pid)
      modifies this
      ensures Valid() && Stepped(old(Abs()), Step.Exit(pid), Abs())
    {
      hide AddressSpaces.Shape, MemInv, SysInv, Stepped, RootsOk, View, EagerNext;
      StepTaken(Abs(), Step.Exit(pid));
      SteppedFacts(Abs(), Step.Exit(pid), Next(Abs(), Step.Exit(pid)));
      RootsSame(mm.role, tasks, pid, tasks[pid].(zombie := true));
      tasks := tasks[pid := tasks[pid].(zombie := true)];
    }

    /** A store that the hardware permits. */
    method Store(pid: nat, addr: nat, b: byte)
      requires Valid() && Running(Abs(), pid) && addr < USER_END
      requires KeyOf(Abs(), pid, addr) in mm.leaves && mm.leaves[KeyOf(Abs(), pid, addr)].f.w
      modifies mm
      ensures Valid() && Stepped(old(Abs()), StoreTo(pid, addr, b), Abs())
    {
      hide MemInv, SysInv, Stepped, RootsOk, View, EagerNext, Forest, Log.Proper, Log.InUse;
      ghost var s, st := Abs(), StoreTo(pid, addr, b);
      TaskRoot(mm.role, tasks, pid);
      StepTaken(s, st);
      SteppedFacts(s, st, Next(s, st));
      MemOk(Next(s, st));
      MappedPageIs(mm.Abs(), KeyOf(s, pid, addr));
      var pa := mm.Walk(tasks[pid].root, addr).pa;
      var page: seq<byte> := mm.data[pa][..addr % 4096] + [b] + mm.data[pa][addr % 4096 + 1..];
      mm.data := mm.data[pa := page];
    }

    /** The part of exec that replaces the image: everything mapped so far goes. */
    method Exec(pid: nat, image: seq<byte>)
      requires Valid() && Running(Abs(), pid) && VmasOk(tasks[pid].(code := image)) && |image| <= STACK_LOW
      modifies this, mm, mm.refs
      ensures Valid() && Stepped(old(Abs()), Step.Exec(pid, image), Abs())
    {
      hide AddressSpaces.Valid, MemInv, SysInv, Stepped, RootsOk, View, EagerNext, VmasOk, DropUpTo, Lost;
      ghost var s, st, role := Abs(), Step.Exec(pid, image), mm.role;
      TaskRoot(mm.role, tasks, pid);
      StepTaken(s, st);
      SteppedFacts(s, st, Next(s, st));
      mm.ClearUserSpaceMappings(tasks[pid].root);
      RootsLost(role, mm.role, tasks, tasks[pid].root);
      RootsSame(mm.role, tasks, pid, tasks[pid].(code := image));
      tasks := tasks[pid := tasks[pid].(code := image)];
    }

    /** kill_zombies, as far as the user memory of one task goes. */
    method Reap(pid: nat)
      requires Valid() && pid in tasks && tasks[pid].zombie
      modifies this, mm, mm.refs
      ensures Valid() && Stepped(old(Abs()), Step.Reap(pid), Abs())
    {
      hide AddressSpaces.Valid, MemInv, SysInv, Stepped, RootsOk, View, EagerNext, VmasOk, DropUpTo, Lost;
      ghost var s, st, role := Abs(), Step.Reap(pid), mm.role;
      TaskRoot(mm.role, tasks, pid);
      OwnRoots(s);
      StepTaken(s, st);
      SteppedFacts(s, st, Next(s, st));
      mm.FreeUserPageTable(tasks[pid].root);
      RootsReaped(role, mm.role, tasks, pid);
      tasks := tasks - {pid};
    }

    /** sys_mmap: the region is recorded, and with MAP_POPULATE its pages are mapped until the heap is
        empty.  The state is valid again exactly when nothing wrapped; populating is modelled only
        then. */
    method Map(pid: nat, addr: M.word, length: M.word, prot: nat, populate: bool) returns (r: Result, ghost m: Vma, ghost pages: seq<nat>)
      requires Valid() && Running(Abs(), pid) && (populate ==> M.NoWrap(tasks[pid], addr, M.AlignUp(length)))
      modifies this, mm, mm.refs
      ensures r == Done ==> Abs() == Next(old(Abs()), Step.Mmap(pid, m, pages))
      ensures r == Done ==> (Valid() <==> M.NoWrap(old(tasks)[pid], addr, M.AlignUp(length)))
      ensures r == Done && Valid() ==> Stepped(old(Abs()), Step.Mmap(pid, m, pages), Abs())
      ensures r == NoMemory ==> Valid() && Abs() == old(Abs())
    {
      hide AddressSpaces.Valid, MemInv, SysInv, Stepped, RootsOk, View, EagerNext, VmasOk, Populate, M.NoWrap, M.Chosen, M.AlignUp, Unmapped, AllFresh;
      ghost var s, role := Abs(), mm.role;
      TaskRoot(mm.role, tasks, pid);
      TaskOk(s, pid);
      m, pages := Vma(0, 0, 0), [];
      var place := M.Place(tasks[pid], addr, length, prot);
      if place.Refused? { return NoMemory, m, pages; }
      m := place.vma;
      NewRegion(s, pid, addr, length, m);
      var t := tasks[pid].(vmas := tasks[pid].vmas + [place.vma]);
      RootsSame(mm.role, tasks, pid, t);
      tasks := tasks[pid := t];
      M.NothingPopulated(s.mem, t.root, m.start / 4096, VmaFlags(prot));
      if populate {
        var mapped;
        mapped, pages := M.PopulateRegion(mm, t.root, place.vma.start, place.vma.end - place.vma.start, prot);
        if mapped == NoTable { return Broken, m, pages; }
        RootsGrow(role, mm.role, tasks);
      }
      MapResultIs(s, pid, addr, length, m, pages);
      r := Done;
    }
  }

  // ---------------------------------------------------------------- what the methods use

  lemma NothingYet(m: Mem)
    requires MemInv(m) && m.leaves == map[]
    ensures SysInv(Sys(m, map[]))
  {
  }

  lemma NoRoots(t: map<nat, Table>, role: map<nat, Role>, leaves: Leaves, kh: seq<Pte>)
    requires Forest(t, role, leaves, kh) && t == map[]
    ensures RootsOk(role, map[])
  {
  }

  lemma ValidParts(mm: AddressSpaces)
    requires mm.Valid()
    ensures mm.Shape() && MemInv(mm.Abs())
  {
  }

  lemma PartsValid(mm: AddressSpaces)
    requires mm.Shape() && MemInv(mm.Abs())
    ensures mm.Valid()
  {
  }

  lemma MemOkData(m: Mem)
    requires MemInv(m)
    ensures DataOk(m)
  {
  }

  lemma NotARoot(t: map<nat, Table>, role: map<nat, Role>, leaves: Leaves, kh: seq<Pte>, p: nat)
    requires Forest(t, role, leaves, kh) && p !in t
    ensures p !in role
  {
  }

  lemma TaskRoot(role: map<nat, Role>, tasks: map<nat, Task>, pid: nat)
    requires RootsOk(role, tasks) && pid in tasks
    ensures IsRoot(role, tasks[pid].root)
  {
  }

  lemma TaskOk(s: Sys, pid: nat)
    requires SysInv(s) && pid in s.tasks
    ensures VmasOk(s.tasks[pid]) && |s.tasks[pid].code| <= STACK_LOW
  {
  }

  lemma MappedPageIs(m: Mem, k: Key)
    requires MemInv(m) && k in m.leaves
    ensures m.leaves[k].pa in m.data && |m.data[m.leaves[k].pa]| == 4096
  {
    LeafCounted(m, k);
  }

  /** What the handler does depends on memory and the faulting task alone. */
  lemma FaultAlone(s: Sys, pid: nat, addr: nat, c: Cause, p: nat)
    requires pid in s.tasks
    ensures FaultMem(F.Alone(s.mem, s.tasks[pid]), 0, addr, c, p) == FaultMem(s, pid, addr, c, p)
    ensures IsCowFault(F.Alone(s.mem, s.tasks[pid]), 0, addr, c) == IsCowFault(s, pid, addr, c)
  {
    hide Handle, BreakShare, MapPage, ZeroPage, CodePage, VmaFlags;
  }

  lemma AboveUserHalf(s: Sys, pid: nat, addr: nat, c: Cause)
    requires SysInv(s) && pid in s.tasks && addr >= USER_END
    ensures Handle(s.tasks[pid], addr, c) == KillTask
  {
    hide MemInv, Owned, LeafFits, VmasOk;
    NoRegionAbove(s.tasks[pid], addr, 0);
  }

  /** An access that the handler maps a page for in vain, on a page that is already mapped. */
  predicate LosesCount(s: Sys, pid: nat, addr: nat, c: Cause)
    requires pid in s.tasks
  {
    addr < USER_END && KeyOf(s, pid, addr) in s.mem.leaves && MappedInVain(s.tasks[pid], addr, c)
  }

  lemma ResolvedEnabled(s: Sys, pid: nat, addr: nat, c: Cause, p: nat)
    requires SysInv(s) && Running(s, pid) && Fresh(s.mem, p)
    requires addr < USER_END && KeyOf(s, pid, addr) in s.mem.leaves ==> !HardwareAllows(s.mem.leaves[KeyOf(s, pid, addr)].f, c)
    requires !LosesCount(s, pid, addr, c)
    requires if addr < USER_END then F.Resolvable(F.Alone(s.mem, s.tasks[pid]), addr, c)
             else IsCowFault(F.Alone(s.mem, s.tasks[pid]), 0, Sv39(addr), c)
    ensures Enabled(s, Step.Fault(pid, Sv39(addr), c, p))
  {
    hide MemInv, Owned, LeafFits, VmasOk, Handle, HardwareAllows, MappedInVain, Fresh;
    FaultAlone(s, pid, addr, c, p);
    FaultAlone(s, pid, Sv39(addr), c, p);
    if addr < USER_END {
      if KeyOf(s, pid, addr) in s.mem.leaves { MappedFault(s, pid, addr, c); }
    }
  }

  /** A resolved fault is a step exactly when it does not lose count. */
  lemma FaultResult(s: Sys, pid: nat, addr: nat, c: Cause, p: nat)
    requires SysInv(s) && Running(s, pid) && Fresh(s.mem, p)
    requires addr < USER_END && KeyOf(s, pid, addr) in s.mem.leaves ==> !HardwareAllows(s.mem.leaves[KeyOf(s, pid, addr)].f, c)
    requires if addr < USER_END then F.Resolvable(F.Alone(s.mem, s.tasks[pid]), addr, c)
             else IsCowFault(F.Alone(s.mem, s.tasks[pid]), 0, Sv39(addr), c)
    ensures var st := Step.Fault(pid, Sv39(addr), c, p); var s' := Next(s, st);
            && s' == s.(mem := FaultMem(s, pid, Sv39(addr), c, p))
            && (!LosesCount(s, pid, addr, c) ==> Stepped(s, st, s') && SysInv(s') && MemInv(s'.mem))
            && (LosesCount(s, pid, addr, c) ==> !MemInv(s'.mem))
  {
    hide MemInv, SysInv, VmasOk, Stepped, FaultMem, HardwareAllows, MappedInVain, Fresh, F.Resolvable, IsCowFault;
    var st := Step.Fault(pid, Sv39(addr), c, p);
    if LosesCount(s, pid, addr, c) {
      FaultKeepsMemIff(s, pid, addr, c, p);
    } else {
      ResolvedEnabled(s, pid, addr, c, p);
      StepTaken(s, st);
      SteppedFacts(s, st, Next(s, st));
      MemOk(Next(s, st));
    }
  }

  /** Fork is a step exactly when every count has room for the parent's mappings. */
  lemma ForkResult(s: Sys, parent: nat, child: nat, root: nat)
    requires SysInv(s) && Running(s, parent) && child !in s.tasks && forall p :: p in s.tasks ==> s.tasks[p].root != root
    ensures var st := Step.Fork(parent, child, root); var s' := Next(s, st);
            && s' == Sys(ForkUpTo(s.mem, s.tasks[parent].root, root, USER_PAGES), s.tasks[child := s.tasks[parent].(root := root)])
            && (RoomToFork(s.mem, s.tasks[parent].root, USER_PAGES) ==> Stepped(s, st, s') && SysInv(s') && MemInv(s'.mem))
            && (!RoomToFork(s.mem, s.tasks[parent].root, USER_PAGES) ==> !MemInv(s'.mem))
  {
    hide MemInv, SysInv, Stepped, ForkUpTo, RoomToFork, ReadyToFork, Owned, LeafFits, VmasOk;
    var st := Step.Fork(parent, child, root);
    MemOk(s);
    ForkReady(s, parent, root);
    ForkInvIff(s.mem, s.tasks[parent].root, root, USER_PAGES);
    if RoomToFork(s.mem, s.tasks[parent].root, USER_PAGES) {
      StepTaken(s, st);
      SteppedFacts(s, st, Next(s, st));
      MemOk(Next(s, st));
    }
  }

  lemma ShapeValid(mm: AddressSpaces)
    requires mm.Shape()
    ensures mm.Valid() <==> MemInv(mm.Abs())
  {
  }

  /** The region recorded is well formed exactly when nothing wraps, and then nothing is mapped in it. */
  lemma NewRegion(s: Sys, pid: nat, addr: M.word, length: M.word, m: Vma)
    requires SysInv(s) && pid in s.tasks && VmasOk(s.tasks[pid]) && |s.tasks[pid].code| <= STACK_LOW
    requires M.AlignUp(length) > 0 && m.start < M.WORD && M.Chosen(s.tasks[pid], addr, M.AlignUp(length), m.start)
    requires m.end == M.Add(m.start, M.AlignUp(length))
    ensures VmasOk(s.tasks[pid].(vmas := s.tasks[pid].vmas + [m])) <==> M.NoWrap(s.tasks[pid], addr, M.AlignUp(length))
    ensures M.NoWrap(s.tasks[pid], addr, M.AlignUp(length)) ==>
              && m.start % 4096 == 0 && m.end % 4096 == 0 && m.start < m.end <= USER_END
              && Unmapped(s.mem.leaves, s.tasks[pid].root, m.start / 4096, (m.end - m.start) / 4096)
  {
    hide SysInv, VmasOk, M.Chosen, M.AlignUp, M.NoWrap;
    var t := s.tasks[pid];
    M.PlacedOkIff(t, addr, M.AlignUp(length), m);
    if M.NoWrap(t, addr, M.AlignUp(length)) {
      LastVma(t.(vmas := t.vmas + [m]));
      forall v: nat | m.start / 4096 <= v < m.start / 4096 + (m.end - m.start) / 4096 ensures (t.root, v) !in s.mem.leaves {
        PagesFitRegion(m, (m.end - m.start) / 4096, v);
        NewRegionUnmapped(s, pid, m, v);
      }
    }
  }

  /** Recording a region is a step exactly when nothing wraps. */
  lemma MapResultIs(s: Sys, pid: nat, addr: M.word, length: M.word, m: Vma, pages: seq<nat>)
    requires SysInv(s) && Running(s, pid)
    requires VmasOk(s.tasks[pid].(vmas := s.tasks[pid].vmas + [m])) <==> M.NoWrap(s.tasks[pid], addr, M.AlignUp(length))
    requires M.NoWrap(s.tasks[pid], addr, M.AlignUp(length)) ==> |pages| <= (m.end - m.start) / 4096 && AllFresh(s.mem, pages)
    ensures var st := Step.Mmap(pid, m, pages); var s' := Next(s, st); var t := s.tasks[pid];
            && s' == Sys(Populate(s.mem, t.root, m.start / 4096, pages, VmaFlags(m.prot)), s.tasks[pid := t.(vmas := t.vmas + [m])])
            && (M.NoWrap(t, addr, M.AlignUp(length)) ==> Stepped(s, st, s') && SysInv(s'))
            && (!M.NoWrap(t, addr, M.AlignUp(length)) ==> !SysInv(s'))
  {
    hide SysInv, VmasOk, M.NoWrap, M.AlignUp, Stepped, Populate, AllFresh;
    var st := Step.Mmap(pid, m, pages);
    if M.NoWrap(s.tasks[pid], addr, M.AlignUp(length)) {
      RegionEnabled(s, pid, m, pages);
      StepTaken(s, st);
      SteppedFacts(s, st, Next(s, st));
    } else {
      BadRegion(Next(s, st), pid);
    }
  }

  lemma BadRegion(s: Sys, pid: nat)
    requires pid in s.tasks && !VmasOk(s.tasks[pid])
    ensures !SysInv(s)
  {
  }

  lemma LastVma(t: Task)
    requires VmasOk(t) && |t.vmas| > 0
    ensures var m := t.vmas[|t.vmas| - 1];
            m.start % 4096 == 0 && m.end % 4096 == 0 && m.start < m.end <= STACK_LOW
  {
    assert VmaOk(t, |t.vmas| - 1);
  }

  lemma RegionEnabled(s: Sys, pid: nat, m: Vma, pages: seq<nat>)
    requires Running(s, pid) && VmasOk(s.tasks[pid].(vmas := s.tasks[pid].vmas + [m]))
    requires |pages| <= (m.end - m.start) / 4096 && AllFresh(s.mem, pages)
    ensures Enabled(s, Step.Mmap(pid, m, pages))
  {
    hide VmasOk, Fresh;
  }

  // ---------------------------------------------------------------- the end

  /** Once every process is reaped, and the kernel's own allocations are back to what they were, the
      heap has its earlier allocations, and its earlier free blocks if and only if no request of at
      most half a page found its pool empty while a frame was free. */
  lemma AllReaped(u: Processes, k: Log.Kernel, calls: seq<Log.Call>, k': Log.Kernel)
    requires u.Valid() && u.tasks == map[] && Log.PagesOf(calls) == u.mm.log && Log.Serves(k, calls, k')
    requires k.live == k.others && k'.others == k.others
    ensures k'.live == k.live
    ensures (forall x, o :: B.FreeBlock(k'.heap.buddy, x, o) <==> B.FreeBlock(k.heap.buddy, x, o)) <==> !C.Refills(k, calls, k')
  {
    hide AddressSpaces.Valid, SysInv, Log.Serves, C.Refills, B.FreeBlock;
    C.AllReturned(u.mm, k, calls, k');
  }
}
