/** Processes over user memory: the page-fault handler's decisions (lab7/src/paging.c:325-463),
    fork, mmap, exec, exit and reaping as steps of one system. */
module VmSystem {
  import opened Bytes
  import opened Pte
  import opened VmModel

  const STACK_LOW := 0x3f_ffff_c000
  const STACK_SIZE := 0x4000

  datatype Vma = Vma(start: nat, end: nat, prot: nat)

  /** A process: its page-table root, its mmap regions, its program image, and whether it has exited. */
  datatype Task = Task(root: nat, vmas: seq<Vma>, code: seq<byte>, zombie: bool)

  datatype Sys = Sys(mem: Mem, tasks: map<nat, Task>)

  datatype Cause = Fetch | Load | Store

  datatype Region = InVma(i: nat) | InStack | InCode | Nowhere

  datatype Action = MapVma(i: nat) | MapStack | MapCode | KillTask

  // ---------------------------------------------------------------- permissions

  predicate ProtR(prot: nat) { prot % 2 == 1 }
  predicate ProtW(prot: nat) { prot / 2 % 2 == 1 }
  predicate ProtX(prot: nat) { prot / 4 % 2 == 1 }

  /** The page flags for an mmap protection: writing implies reading. */
  function VmaFlags(prot: nat): Flags {
    PROT_USER_BASE.(r := ProtR(prot) || ProtW(prot), w := ProtW(prot), x := ProtX(prot))
  }

  /** The handler's check of the cause of a fault against an mmap protection. */
  predicate VmaAllows(prot: nat, c: Cause) {
    match c
    case Fetch => ProtX(prot)
    case Load => ProtR(prot)
    case Store => ProtW(prot)
  }

  // ---------------------------------------------------------------- the handler's decision

  /** The first region from index i on that contains the address; |vmas| if there is none. */
  function FirstVma(vmas: seq<Vma>, addr: nat, i: nat): (r: nat)
    requires i <= |vmas|
    ensures i <= r <= |vmas|
    ensures r < |vmas| ==> vmas[r].start <= addr < vmas[r].end
    ensures forall h :: i <= h < r ==> !(vmas[h].start <= addr < vmas[h].end)
    decreases |vmas| - i
  {
    if i == |vmas| || vmas[i].start <= addr < vmas[i].end then i else FirstVma(vmas, addr, i + 1)
  }

  /** What the handler does with a fault that is not a copy-on-write store. */
  function Handle(t: Task, addr: nat, c: Cause): Action {
    var i := FirstVma(t.vmas, addr, 0);
    if i < |t.vmas| && VmaAllows(t.vmas[i].prot, c) then MapVma(i)
    else if STACK_LOW <= addr < STACK_LOW + STACK_SIZE then MapStack
    else if addr < |t.code| then MapCode
    else KillTask
  }

  /** The region that the page v belongs to. */
  function RegionOf(t: Task, v: nat): Region {
    var i := FirstVma(t.vmas, v * 4096, 0);
    if i < |t.vmas| then InVma(i)
    else if STACK_LOW <= v * 4096 < STACK_LOW + STACK_SIZE then InStack
    else if v * 4096 < |t.code| then InCode
    else Nowhere
  }

  function ZeroPage(): (r: seq<byte>)
    ensures |r| == 4096
  {
    seq(4096, _ => 0)
  }

  /** The page of the image that starts at va: the slice, padded with zeros. */
  function CodePage(code: seq<byte>, va: nat): (r: seq<byte>)
    requires va <= |code|
    ensures |r| == 4096
    ensures forall i :: 0 <= i < 4096 ==> r[i] == if va + i < |code| then code[va + i] else 0
  {
    var count := if |code| - va > 4096 then 4096 else |code| - va;
    code[va..va + count] + seq(4096 - count, _ => 0)
  }

  /** The contents a page has before anything is stored to it. */
  function InitialPage(t: Task, v: nat): (r: seq<byte>)
    ensures |r| == 4096
  {
    if RegionOf(t, v).InCode? then CodePage(t.code, v * 4096) else ZeroPage()
  }

  function RegionFlags(t: Task, r: Region): Flags
    requires r.InVma? ==> r.i < |t.vmas|
  {
    match r
    case InVma(i) => VmaFlags(t.vmas[i].prot)
    case InStack => PROT_USER_RW
    case InCode => PROT_USER_RX
    case Nowhere => NO_FLAGS
  }

  // ---------------------------------------------------------------- invariant

  predicate VmaOk(t: Task, i: nat)
    requires i < |t.vmas|
  {
    var m := t.vmas[i];
    && m.start % 4096 == 0 && m.end % 4096 == 0 && m.start < m.end
    && m.end <= STACK_LOW && |t.code| <= m.start
  }

  predicate VmasApart(t: Task, i: nat, j: nat)
    requires i < |t.vmas| && j < |t.vmas|
  {
    t.vmas[i].end <= t.vmas[j].start || t.vmas[j].end <= t.vmas[i].start
  }

  /** mmap regions are page-aligned, disjoint from each other, below the stack and above the code. */
  ghost predicate VmasOk(t: Task) {
    && (forall i :: 0 <= i < |t.vmas| ==> VmaOk(t, i))
    && (forall i, j :: 0 <= i < j < |t.vmas| ==> VmasApart(t, i, j))
  }

  /** A leaf belongs to user mode, is marked accessed and dirty, and has exactly the permissions of its
      region, with write permission either granted or withheld by the copy-on-write mark. */
  predicate LeafFits(t: Task, v: nat, e: Pte) {
    var r := RegionOf(t, v);
    && r != Nowhere && e.f.v && e.f.u && e.f.a && e.f.d && !e.f.g
    && var g := RegionFlags(t, r);
       e.f.r == g.r && e.f.x == g.x && (e.f.w || e.f.cow) == g.w && !(e.f.w && e.f.cow)
  }

  ghost predicate Owned(s: Sys, k: Key) {
    exists pid :: pid in s.tasks && s.tasks[pid].root == k.0
  }

  ghost predicate SysInv(s: Sys) {
    && MemInv(s.mem)
    && (forall p, q :: p in s.tasks && q in s.tasks && s.tasks[p].root == s.tasks[q].root ==> p == q)
    && (forall p :: p in s.tasks ==> VmasOk(s.tasks[p]) && |s.tasks[p].code| <= STACK_LOW)
    && (forall k :: k in s.mem.leaves ==> Owned(s, k) && k.1 < USER_PAGES)
    && (forall p, v: nat :: p in s.tasks && (s.tasks[p].root, v) in s.mem.leaves ==>
          LeafFits(s.tasks[p], v, s.mem.leaves[(s.tasks[p].root, v)]))
  }

  // ---------------------------------------------------------------- steps

  datatype Step =
    | Fault(pid: nat, addr: nat, cause: Cause, page: nat)
    | Exit(pid: nat)
    | Fork(parent: nat, child: nat, root: nat)
    | StoreTo(pid: nat, addr: nat, value: byte)
    | Mmap(pid: nat, vma: Vma, populated: seq<nat>)
    | Exec(pid: nat, image: seq<byte>)
    | Spawn(pid: nat, root: nat, image: seq<byte>)
    | Reap(pid: nat)

  predicate Running(s: Sys, pid: nat) { pid in s.tasks && !s.tasks[pid].zombie }

  function KeyOf(s: Sys, pid: nat, addr: nat): Key
    requires pid in s.tasks
  {
    (s.tasks[pid].root, addr / 4096)
  }

  /** The 39 bits of an address that a table walk looks at. */
  function Sv39(addr: nat): (r: nat)
    ensures r < 0x80_0000_0000 && (addr < 0x80_0000_0000 ==> r == addr)
  {
    addr % 0x80_0000_0000
  }

  /** A store to a page that the process shares copy-on-write. */
  predicate IsCowFault(s: Sys, pid: nat, addr: nat, c: Cause)
    requires pid in s.tasks
  {
    var k := KeyOf(s, pid, addr);
    c == Store && k in s.mem.leaves && s.mem.leaves[k].f.cow
  }

  /** Memory after a fault that the handler resolves with the fresh page p. */
  function FaultMem(s: Sys, pid: nat, addr: nat, c: Cause, p: nat): Mem
    requires pid in s.tasks
  {
    var t, k := s.tasks[pid], KeyOf(s, pid, addr);
    if IsCowFault(s, pid, addr, c) then
      if s.mem.leaves[k].pa in s.mem.data then BreakShare(s.mem, k, p) else s.mem
    else
      match Handle(t, addr, c)
      case MapVma(i) => if i < |t.vmas| then MapPage(s.mem, k, p, VmaFlags(t.vmas[i].prot), ZeroPage()) else s.mem
      case MapStack => MapPage(s.mem, k, p, PROT_USER_RW, ZeroPage())
      case MapCode =>
        if addr / 4096 * 4096 <= |t.code| then MapPage(s.mem, k, p, PROT_USER_RX, CodePage(t.code, addr / 4096 * 4096)) else s.mem
      case KillTask => s.mem
  }

  /** The pages that MAP_POPULATE maps, in order. */
  function Populate(m: Mem, root: nat, v: nat, pages: seq<nat>, f: Flags): Mem {
    if pages == [] then m
    else MapPage(Populate(m, root, v, pages[..|pages| - 1], f), (root, v + |pages| - 1), pages[|pages| - 1], f, ZeroPage())
  }

  /** A page the heap may hand out now. */
  predicate Fresh(m: Mem, p: nat) { Counted(p) && p !in m.data }

  /** When a step can happen.  Faults: nothing is mapped at the address, or it is a store to a
      shared page; the handler does not kill the process. */
  ghost predicate Enabled(s: Sys, st: Step) {
    match st
    case Fault(pid, addr, c, p) =>
      && Running(s, pid) && addr < USER_END && Fresh(s.mem, p)
      && (IsCowFault(s, pid, addr, c) || (KeyOf(s, pid, addr) !in s.mem.leaves && Handle(s.tasks[pid], addr, c) != KillTask))
    case Exit(pid) => Running(s, pid)
    case Fork(parent, child, root) =>
      && Running(s, parent) && child !in s.tasks && (forall p :: p in s.tasks ==> s.tasks[p].root != root)
      && RoomToFork(s.mem, s.tasks[parent].root, USER_PAGES)
    case StoreTo(pid, addr, b) =>
      Running(s, pid) && addr < USER_END && KeyOf(s, pid, addr) in s.mem.leaves && s.mem.leaves[KeyOf(s, pid, addr)].f.w
    case Mmap(pid, m, pages) =>
      && Running(s, pid) && VmasOk(s.tasks[pid].(vmas := s.tasks[pid].vmas + [m]))
      && |pages| <= (m.end - m.start) / 4096
      && (forall i :: 0 <= i < |pages| ==> Fresh(s.mem, pages[i]))
      && (forall i, j :: 0 <= i < j < |pages| ==> pages[i] != pages[j])
    case Exec(pid, image) => Running(s, pid) && VmasOk(s.tasks[pid].(code := image)) && |image| <= STACK_LOW
    case Spawn(pid, root, image) => pid !in s.tasks && (forall p :: p in s.tasks ==> s.tasks[p].root != root) && |image| <= STACK_LOW
    case Reap(pid) => pid in s.tasks && s.tasks[pid].zombie
  }

  function StoreMem(s: Sys, pid: nat, addr: nat, b: byte): Mem
    requires pid in s.tasks
  {
    var k := KeyOf(s, pid, addr);
    if k in s.mem.leaves && s.mem.leaves[k].pa in s.mem.data && addr % 4096 < |s.mem.data[s.mem.leaves[k].pa]|
    then StoreByte(s.mem, k, addr % 4096, b) else s.mem
  }

  function Next(s: Sys, st: Step): Sys {
    match st
    case Fault(pid, addr, c, p) => if pid in s.tasks then s.(mem := FaultMem(s, pid, addr, c, p)) else s
    case Exit(pid) => if pid in s.tasks then s.(tasks := s.tasks[pid := s.tasks[pid].(zombie := true)]) else s
    case Fork(parent, child, root) =>
      if parent in s.tasks then
        Sys(ForkUpTo(s.mem, s.tasks[parent].root, root, USER_PAGES), s.tasks[child := s.tasks[parent].(root := root)])
      else s
    case StoreTo(pid, addr, b) => if pid in s.tasks then s.(mem := StoreMem(s, pid, addr, b)) else s
    case Mmap(pid, m, pages) =>
      if pid in s.tasks then
        var t := s.tasks[pid];
        Sys(Populate(s.mem, t.root, m.start / 4096, pages, VmaFlags(m.prot)), s.tasks[pid := t.(vmas := t.vmas + [m])])
      else s
    case Exec(pid, image) =>
      if pid in s.tasks then
        Sys(DropUpTo(s.mem, s.tasks[pid].root, USER_PAGES), s.tasks[pid := s.tasks[pid].(code := image)])
      else s
    case Spawn(pid, root, image) => s.(tasks := s.tasks[pid := Task(root, [], image, false)])
    case Reap(pid) => if pid in s.tasks then Sys(DropUpTo(s.mem, s.tasks[pid].root, USER_PAGES), s.tasks - {pid}) else s
  }
}
