/** Lazy, shared, reference-counted user memory behaves like eager private memory. */
module VmRefinement {
  import opened Bytes
  import opened Pte
  import opened VmModel
  import opened VmSystem
  import opened VmInvariant

  // ---------------------------------------------------------------- the eager machine

  type Pages = imap<nat, seq<byte>>

  /** A process that owns every page of its address space outright. */
  datatype Private = Private(vmas: seq<Vma>, code: seq<byte>, pages: Pages)

  type Eager = map<nat, Private>

  ghost function InitialPages(code: seq<byte>, vmas: seq<Vma>): Pages {
    imap v: nat :: InitialPage(Task(0, vmas, code, false), v)
  }

  function Spliced(page: seq<byte>, off: nat, b: byte): (r: seq<byte>)
    requires off < |page|
    ensures |r| == |page| && r[off] == b && forall i :: 0 <= i < |page| && i != off ==> r[i] == page[i]
  {
    page[..off] + [b] + page[off + 1..]
  }

  /** The pages with those of a region zero-filled. */
  ghost function ZeroedIn(p: Pages, m: Vma): Pages {
    imap v: nat | v in p :: if m.start <= v * 4096 < m.end then ZeroPage() else p[v]
  }

  lemma ZeroedAt(p: Pages, m: Vma, v: nat)
    ensures v in ZeroedIn(p, m) <==> v in p
    ensures v in p ==> ZeroedIn(p, m)[v] == if m.start <= v * 4096 < m.end then ZeroPage() else p[v]
  {
  }

  /** The specification: fork copies every page, a store changes one byte of one process, a new
      region is zero-filled, exec starts from the image again, faults and reaping are invisible. */
  ghost function EagerNext(e: Eager, st: Step): Eager {
    match st
    case Fault(_, _, _, _) => e
    case Reap(_) => e
    case Exit(pid) => e - {pid}
    case Fork(parent, child, _) => if parent in e then e[child := e[parent]] else e
    case StoreTo(pid, addr, b) =>
      if pid in e && addr / 4096 in e[pid].pages && |e[pid].pages[addr / 4096]| == 4096 then
        e[pid := e[pid].(pages := e[pid].pages[addr / 4096 := Spliced(e[pid].pages[addr / 4096], addr % 4096, b)])]
      else e
    case Mmap(pid, m, _) =>
      if pid in e then
        var p := e[pid];
        e[pid := Private(p.vmas + [m], p.code, ZeroedIn(p.pages, m))]
      else e
    case Exec(pid, image) => if pid in e then e[pid := Private(e[pid].vmas, image, InitialPages(image, e[pid].vmas))] else e
    case Spawn(pid, _, image) => e[pid := Private([], image, InitialPages(image, []))]
  }

  // ---------------------------------------------------------------- what a process sees

  /** The contents of page v for a process: the mapped page, or what it will be filled with. */
  function PageBytes(s: Sys, pid: nat, v: nat): seq<byte>
    requires pid in s.tasks
  {
    var k: Key := (s.tasks[pid].root, v);
    if k in s.mem.leaves && s.mem.leaves[k].pa in s.mem.data then s.mem.data[s.mem.leaves[k].pa] else InitialPage(s.tasks[pid], v)
  }

  ghost function ViewOf(s: Sys, pid: nat): Private
    requires pid in s.tasks
  {
    Private(s.tasks[pid].vmas, s.tasks[pid].code, imap v: nat :: PageBytes(s, pid, v))
  }

  ghost function View(s: Sys): Eager {
    map pid | pid in s.tasks && !s.tasks[pid].zombie :: ViewOf(s, pid)
  }

  lemma PageLength(s: Sys, pid: nat, v: nat)
    requires SysInv(s) && pid in s.tasks
    ensures |PageBytes(s, pid, v)| == 4096
  {
    hide RefsExact, FewMappers, WritersAlone, LeafFits, Owned, VmasOk, Counted;
  }

  lemma LeafHasData(m: Mem, k: Key)
    requires MemInv(m) && k in m.leaves
    ensures m.leaves[k].pa in m.data && Counted(m.leaves[k].pa) && |m.data[m.leaves[k].pa]| == 4096
  {
    hide RefsExact, FewMappers, WritersAlone, Counted;
    assert m.leaves[k].pa in MappedPages(m.leaves);
  }

  /** Two views agree when their regions, images and pages do. */
  lemma SameView(s: Sys, pid: nat, s': Sys, pid': nat)
    requires pid in s.tasks && pid' in s'.tasks
    requires s.tasks[pid].vmas == s'.tasks[pid'].vmas && s.tasks[pid].code == s'.tasks[pid'].code
    requires forall v: nat :: PageBytes(s, pid, v) == PageBytes(s', pid', v)
    ensures ViewOf(s, pid) == ViewOf(s', pid')
  {
    hide PageBytes;
    assert (imap v: nat :: PageBytes(s, pid, v)) == (imap v: nat :: PageBytes(s', pid', v));
  }

  lemma SameInitial(t: Task, t': Task, v: nat)
    requires t'.vmas == t.vmas && t'.code == t.code
    ensures InitialPage(t', v) == InitialPage(t, v)
  {
  }

  /** A page that nothing was stored to: the bytes of the image in the image, and zeros behind its
      end and everywhere else. */
  lemma FirstBytes(t: Task, v: nat, i: nat)
    requires i < 4096
    ensures InitialPage(t, v)[i] == if RegionOf(t, v).InCode? && v * 4096 + i < |t.code| then t.code[v * 4096 + i] else 0
  {
    InitialOf(t, v);
  }

  // ---------------------------------------------------------------- faults are invisible

  /** A private copy has the contents of the page it replaces, and no other page changes. */
  lemma BreakShareBytes(m: Mem, k: Key, p: nat, h: Key)
    requires MemInv(m) && k in m.leaves && p !in m.data && Counted(p) && h in m.leaves
    ensures m.leaves[k].pa in m.data
    ensures var m' := BreakShare(m, k, p);
            h in m'.leaves && m'.leaves[h].pa in m'.data && m.leaves[h].pa in m.data
            && m'.data[m'.leaves[h].pa] == m.data[m.leaves[h].pa]
  {
    LeafHasData(m, k);
    LeafHasData(m, h);
    BreakShareInv(m, k, p);
    hide MemInv, Decrement, SetOne, Unshared;
    LeafHasData(BreakShare(m, k, p), h);
  }

  lemma MapPageBytes(m: Mem, k: Key, p: nat, f: Flags, bytes: seq<byte>, h: Key)
    requires MemInv(m) && p !in m.data && h in m.leaves && h != k
    ensures var m' := MapPage(m, k, p, f, bytes);
            h in m'.leaves && m.leaves[h].pa in m.data && m'.leaves[h].pa in m'.data
            && m'.data[m'.leaves[h].pa] == m.data[m.leaves[h].pa]
  {
    LeafHasData(m, h);
    hide MemInv, SetOne;
  }

  /** Resolving a fault changes the bytes of no page of any process. */
  lemma FaultBytes(s: Sys, pid: nat, addr: nat, c: Cause, p: nat, q: nat, v: nat)
    requires SysInv(s) && Enabled(s, Fault(pid, addr, c, p)) && q in s.tasks
    ensures PageBytes(Next(s, Fault(pid, addr, c, p)), q, v) == PageBytes(s, q, v)
  {
    hide MemInv, LeafFits, VmasOk, Owned, InitialPage, RegionOf, RegionFlags, Handle;
    var t, k := s.tasks[pid], KeyOf(s, pid, addr);
    var h: Key := (s.tasks[q].root, v);
    if IsCowFault(s, pid, addr, c) {
      hide BreakShare;
      LeafHasData(s.mem, k);
      if h in s.mem.leaves {
        BreakShareBytes(s.mem, k, p, h);
      } else {
        BreakShareKeys(s.mem, k, p);
      }
    } else {
      FaultMapsInitial(s, pid, addr, c, p);
      if h in s.mem.leaves {
        MapPageBytes(s.mem, k, p, RegionFlags(t, RegionOf(t, k.1)), InitialPage(t, k.1), h);
      }
    }
  }

  lemma BreakShareKeys(m: Mem, k: Key, p: nat)
    requires k in m.leaves && m.leaves[k].pa in m.data
    ensures BreakShare(m, k, p).leaves.Keys == m.leaves.Keys
  {
  }

  // ---------------------------------------------------------------- fork copies

  lemma ForkBytes(s: Sys, parent: nat, child: nat, root: nat, q: nat, v: nat)
    requires SysInv(s) && Enabled(s, Fork(parent, child, root))
    requires q in s.tasks || q == child
    ensures q in Next(s, Fork(parent, child, root)).tasks
    ensures PageBytes(Next(s, Fork(parent, child, root)), q, v) == PageBytes(s, if q == child then parent else q, v)
  {
    hide MemInv, LeafFits, VmasOk, Owned, ForkUpTo, InitialPage, FewMappers, ReadyToFork;
    var s' := Next(s, Fork(parent, child, root));
    var src := s.tasks[parent].root;
    ForkUpToLeaves(s.mem, src, root, USER_PAGES);
    ForkReady(s, parent, root);
    ForkSources(s, parent, root);
    var k: Key := (s'.tasks[q].root, v);
    assert ForkedAt(s.mem.leaves, s'.mem.leaves, src, root, USER_PAGES, k);
    SameInitial(s.tasks[parent], s.tasks[parent].(root := root), v);
  }

  /** The child starts without leaves and the parent's all lie in the user half. */
  lemma ForkSources(s: Sys, parent: nat, root: nat)
    requires SysInv(s) && parent in s.tasks && forall p :: p in s.tasks ==> s.tasks[p].root != root
    ensures forall k :: k in s.mem.leaves ==> k.0 != root && k.1 < USER_PAGES
  {
    hide MemInv, LeafFits, VmasOk;
    forall k | k in s.mem.leaves ensures k.0 != root {
      assert Owned(s, k);
    }
  }

  // ---------------------------------------------------------------- stores are private

  lemma StoreBytes(s: Sys, pid: nat, addr: nat, b: byte, q: nat, v: nat)
    requires SysInv(s) && Enabled(s, StoreTo(pid, addr, b)) && q in s.tasks
    ensures |PageBytes(s, q, v)| == 4096
    ensures PageBytes(Next(s, StoreTo(pid, addr, b)), q, v) ==
            if q == pid && v == addr / 4096 then Spliced(PageBytes(s, q, v), addr % 4096, b) else PageBytes(s, q, v)
  {
    hide MemInv, LeafFits, VmasOk, Owned, InitialPage;
    var k := KeyOf(s, pid, addr);
    StoreIsPrivate(s.mem, k, addr % 4096, b);
    PageLength(s, q, v);
    var h: Key := (s.tasks[q].root, v);
    assert h == k ==> q == pid;
  }

  // ---------------------------------------------------------------- mmap

  lemma MmapBytes(s: Sys, pid: nat, m: Vma, pages: seq<nat>, q: nat, v: nat)
    requires SysInv(s) && Enabled(s, Mmap(pid, m, pages)) && q in s.tasks
    ensures PageBytes(Next(s, Mmap(pid, m, pages)), q, v) ==
            if q == pid && m.start <= v * 4096 < m.end then ZeroPage() else PageBytes(s, q, v)
  {
    hide MemInv, LeafFits, VmasOk, Owned, InitialPage, ZeroPage, CodePage, Populate, Unmapped, VmaFlags, RegionOf;
    var s' := Next(s, Mmap(pid, m, pages));
    var t := s.tasks[pid];
    var lo := m.start / 4096;
    MmapMemory(s, pid, m, pages);
    PopulateLeaves(s.mem, t.root, lo, pages, VmaFlags(m.prot));
    PopulateData(s.mem, t.root, lo, pages, VmaFlags(m.prot));
    var k: Key := (s.tasks[q].root, v);
    if k in s.mem.leaves {
      LeafHasData(s.mem, k);
      FreshNotMapped(s.mem, pages, s.mem.leaves[k].pa);
    }
    if q == pid {
      RegionAfterMmap(t, m, v);
      InitialAfterMmap(t, m, v);
      if m.start <= v * 4096 < m.end {
        NewRegionUnmapped(s, pid, m, v);
      }
    }
  }

  lemma FreshNotMapped(m: Mem, pages: seq<nat>, p: nat)
    requires AllFresh(m, pages) && p in m.data
    ensures p !in pages
  {
    forall i | 0 <= i < |pages| ensures pages[i] != p {
      assert Fresh(m, pages[i]);
    }
  }

  lemma InitialAfterMmap(t: Task, m: Vma, v: nat)
    requires VmasOk(t.(vmas := t.vmas + [m]))
    ensures InitialPage(t.(vmas := t.vmas + [m]), v) == if m.start <= v * 4096 < m.end then ZeroPage() else InitialPage(t, v)
  {
    hide VmasOk, ZeroPage, CodePage;
    RegionAfterMmap(t, m, v);
    hide RegionOf;
    InitialOf(t, v);
    InitialOf(t.(vmas := t.vmas + [m]), v);
  }

  // ---------------------------------------------------------------- exec, reap

  /** Dropping one process's leaves leaves every other process's pages alone. */
  lemma DropBytes(s: Sys, s': Sys, pid: nat, q: nat, v: nat)
    requires SysInv(s) && pid in s.tasks && q in s.tasks && q in s'.tasks && q != pid && s'.tasks[q] == s.tasks[q]
    requires s'.mem == DropUpTo(s.mem, s.tasks[pid].root, USER_PAGES)
    ensures PageBytes(s', q, v) == PageBytes(s, q, v)
  {
    hide MemInv, LeafFits, VmasOk, Owned, InitialPage, DropUpTo;
    DropAll(s, s.tasks[pid].root);
    var k: Key := (s.tasks[q].root, v);
    if k in s.mem.leaves {
      LeafHasData(s.mem, k);
      LeafHasData(s'.mem, k);
    }
  }

  lemma ExecBytes(s: Sys, pid: nat, image: seq<byte>, v: nat)
    requires SysInv(s) && Enabled(s, Exec(pid, image))
    ensures PageBytes(Next(s, Exec(pid, image)), pid, v) == InitialPages(image, s.tasks[pid].vmas)[v]
  {
    hide MemInv, LeafFits, VmasOk, Owned, InitialPage, DropUpTo;
    DropAll(s, s.tasks[pid].root);
    SameInitial(s.tasks[pid].(code := image), Task(0, s.tasks[pid].vmas, image, false), v);
  }

  lemma SpawnBytes(s: Sys, pid: nat, root: nat, image: seq<byte>, v: nat)
    requires SysInv(s) && Enabled(s, Spawn(pid, root, image))
    ensures PageBytes(Next(s, Spawn(pid, root, image)), pid, v) == InitialPages(image, [])[v]
  {
    hide MemInv, LeafFits, VmasOk, InitialPage;
    assert !Owned(s, (root, v));
    SameInitial(Task(root, [], image, false), Task(0, [], image, false), v);
  }

  // ---------------------------------------------------------------- one step

  lemma ViewEq(s: Sys, e: Eager)
    requires forall p :: p in e <==> p in s.tasks && !s.tasks[p].zombie
    requires forall p :: p in e ==> e[p] == ViewOf(s, p)
    ensures View(s) == e
  {
    hide ViewOf;
  }

  lemma FaultView(s: Sys, pid: nat, addr: nat, c: Cause, p: nat)
    requires SysInv(s) && Enabled(s, Fault(pid, addr, c, p))
    ensures View(Next(s, Fault(pid, addr, c, p))) == View(s)
  {
    hide SysInv, Enabled, FaultMem, PageBytes, ViewOf;
    var s' := Next(s, Fault(pid, addr, c, p));
    assert s'.tasks == s.tasks;
    forall q | q in s.tasks && !s.tasks[q].zombie ensures ViewOf(s', q) == ViewOf(s, q) {
      forall v: nat ensures PageBytes(s, q, v) == PageBytes(s', q, v) {
        FaultBytes(s, pid, addr, c, p, q, v);
      }
      SameView(s, q, s', q);
    }
    ViewEq(s', View(s));
  }

  lemma ForkView(s: Sys, parent: nat, child: nat, root: nat)
    requires SysInv(s) && Enabled(s, Fork(parent, child, root))
    ensures View(Next(s, Fork(parent, child, root))) == EagerNext(View(s), Fork(parent, child, root))
  {
    hide SysInv, ForkUpTo, FewMappers, PageBytes, ViewOf;
    var s' := Next(s, Fork(parent, child, root));
    forall q | q in s'.tasks && !s'.tasks[q].zombie
      ensures ViewOf(s', q) == ViewOf(s, if q == child then parent else q)
    {
      var o := if q == child then parent else q;
      forall v: nat ensures PageBytes(s, o, v) == PageBytes(s', q, v) {
        ForkBytes(s, parent, child, root, q, v);
      }
      SameView(s, o, s', q);
    }
    ViewEq(s', EagerNext(View(s), Fork(parent, child, root)));
  }

  lemma StoreViewAt(s: Sys, pid: nat, addr: nat, b: byte, q: nat)
    requires SysInv(s) && Enabled(s, StoreTo(pid, addr, b)) && Running(s, q)
    ensures q in View(s) && q in EagerNext(View(s), StoreTo(pid, addr, b)) && q in Next(s, StoreTo(pid, addr, b)).tasks
    ensures EagerNext(View(s), StoreTo(pid, addr, b))[q] == ViewOf(Next(s, StoreTo(pid, addr, b)), q)
  {
    hide SysInv, StoreMem, PageBytes, Spliced;
    var s' := Next(s, StoreTo(pid, addr, b));
    var e := EagerNext(View(s), StoreTo(pid, addr, b));
    StoreBytes(s, pid, addr, b, pid, addr / 4096);
    forall v: nat ensures PageBytes(s', q, v) == e[q].pages[v] {
      StoreBytes(s, pid, addr, b, q, v);
    }
    assert e[q].pages == ViewOf(s', q).pages;
  }

  lemma StoreView(s: Sys, pid: nat, addr: nat, b: byte)
    requires SysInv(s) && Enabled(s, StoreTo(pid, addr, b))
    ensures View(Next(s, StoreTo(pid, addr, b))) == EagerNext(View(s), StoreTo(pid, addr, b))
  {
    hide SysInv, StoreMem, PageBytes, Spliced, ViewOf;
    var s' := Next(s, StoreTo(pid, addr, b));
    var e := EagerNext(View(s), StoreTo(pid, addr, b));
    forall q | q in s'.tasks && !s'.tasks[q].zombie ensures q in e && e[q] == ViewOf(s', q) {
      StoreViewAt(s, pid, addr, b, q);
    }
    ViewEq(s', e);
  }

  lemma MmapViewAt(s: Sys, pid: nat, m: Vma, pages: seq<nat>, q: nat)
    requires SysInv(s) && Enabled(s, Mmap(pid, m, pages)) && Running(s, q)
    ensures q in View(s) && q in EagerNext(View(s), Mmap(pid, m, pages)) && q in Next(s, Mmap(pid, m, pages)).tasks
    ensures EagerNext(View(s), Mmap(pid, m, pages))[q] == ViewOf(Next(s, Mmap(pid, m, pages)), q)
  {
    hide SysInv, Populate, PageBytes, VmasOk, Fresh, ZeroPage, ZeroedIn;
    var s' := Next(s, Mmap(pid, m, pages));
    var e := EagerNext(View(s), Mmap(pid, m, pages));
    forall v: nat ensures v in e[q].pages && PageBytes(s', q, v) == e[q].pages[v] {
      MmapBytes(s, pid, m, pages, q, v);
      ZeroedAt(ViewOf(s, pid).pages, m, v);
    }
    assert e[q].pages == ViewOf(s', q).pages;
  }

  lemma MmapView(s: Sys, pid: nat, m: Vma, pages: seq<nat>)
    requires SysInv(s) && Enabled(s, Mmap(pid, m, pages))
    ensures View(Next(s, Mmap(pid, m, pages))) == EagerNext(View(s), Mmap(pid, m, pages))
  {
    hide SysInv, Populate, PageBytes, VmasOk, Fresh, ZeroPage, ViewOf;
    var s' := Next(s, Mmap(pid, m, pages));
    var e := EagerNext(View(s), Mmap(pid, m, pages));
    forall q | q in s'.tasks && !s'.tasks[q].zombie ensures q in e && e[q] == ViewOf(s', q) {
      MmapViewAt(s, pid, m, pages, q);
    }
    ViewEq(s', e);
  }

  lemma ExecView(s: Sys, pid: nat, image: seq<byte>)
    requires SysInv(s) && Enabled(s, Exec(pid, image))
    ensures View(Next(s, Exec(pid, image))) == EagerNext(View(s), Exec(pid, image))
  {
    hide SysInv, DropUpTo, PageBytes, VmasOk, InitialPages;
    var s' := Next(s, Exec(pid, image));
    var e := EagerNext(View(s), Exec(pid, image));
    forall q | q in s'.tasks && !s'.tasks[q].zombie ensures e[q] == ViewOf(s', q) {
      forall v: nat ensures v in e[q].pages && PageBytes(s', q, v) == e[q].pages[v] {
        InitialEverywhere(image, s.tasks[pid].vmas, v);
        if q == pid {
          ExecBytes(s, pid, image, v);
        } else {
          DropBytes(s, s', pid, q, v);
        }
      }
      assert e[q].pages == ViewOf(s', q).pages;
    }
    ViewEq(s', e);
  }

  lemma InitialEverywhere(image: seq<byte>, vmas: seq<Vma>, v: nat)
    ensures v in InitialPages(image, vmas)
  {
  }

  lemma SpawnView(s: Sys, pid: nat, root: nat, image: seq<byte>)
    requires SysInv(s) && Enabled(s, Spawn(pid, root, image))
    ensures View(Next(s, Spawn(pid, root, image))) == EagerNext(View(s), Spawn(pid, root, image))
  {
    hide SysInv, PageBytes, InitialPages;
    var s' := Next(s, Spawn(pid, root, image));
    var e := EagerNext(View(s), Spawn(pid, root, image));
    forall q | q in s'.tasks && !s'.tasks[q].zombie ensures e[q] == ViewOf(s', q) {
      forall v: nat ensures v in e[q].pages && PageBytes(s', q, v) == e[q].pages[v] {
        InitialEverywhere(image, [], v);
        if q == pid {
          SpawnBytes(s, pid, root, image, v);
        } else {
          SameMemBytes(s, s', q, v);
        }
      }
      assert e[q].pages == ViewOf(s', q).pages;
    }
    ViewEq(s', e);
  }

  lemma SameMemBytes(s: Sys, s': Sys, q: nat, v: nat)
    requires s'.mem == s.mem && q in s.tasks && q in s'.tasks && s'.tasks[q] == s.tasks[q]
    ensures PageBytes(s', q, v) == PageBytes(s, q, v)
  {
  }

  lemma ExitView(s: Sys, pid: nat)
    requires SysInv(s) && Enabled(s, Exit(pid))
    ensures View(Next(s, Exit(pid))) == EagerNext(View(s), Exit(pid))
  {
    hide SysInv, PageBytes, ViewOf;
    var s' := Next(s, Exit(pid));
    forall q | q in s'.tasks && !s'.tasks[q].zombie ensures ViewOf(s', q) == ViewOf(s, q) {
      forall v: nat ensures PageBytes(s, q, v) == PageBytes(s', q, v) {
        SameMemBytes(s, s', q, v);
      }
      SameView(s, q, s', q);
    }
    ViewEq(s', EagerNext(View(s), Exit(pid)));
  }

  lemma ReapView(s: Sys, pid: nat)
    requires SysInv(s) && Enabled(s, Reap(pid))
    ensures View(Next(s, Reap(pid))) == View(s)
  {
    hide SysInv, DropUpTo, PageBytes, ViewOf;
    var s' := Next(s, Reap(pid));
    forall q | q in s'.tasks && !s'.tasks[q].zombie ensures ViewOf(s', q) == ViewOf(s, q) {
      forall v: nat ensures PageBytes(s, q, v) == PageBytes(s', q, v) {
        DropBytes(s, s', pid, q, v);
      }
      SameView(s, q, s', q);
    }
    ViewEq(s', View(s));
  }

  /** Each step of the kernel is the eager step, or invisible where the eager machine stands still. */
  lemma Refines(s: Sys, st: Step)
    requires SysInv(s) && Enabled(s, st)
    ensures View(Next(s, st)) == EagerNext(View(s), st)
  {
    hide SysInv, Enabled, Next, View;
    match st
    case Fault(pid, addr, c, p) => FaultView(s, pid, addr, c, p);
    case Exit(pid) => ExitView(s, pid);
    case Fork(parent, child, root) => ForkView(s, parent, child, root);
    case StoreTo(pid, addr, b) => StoreView(s, pid, addr, b);
    case Mmap(pid, m, pages) => MmapView(s, pid, m, pages);
    case Exec(pid, image) => ExecView(s, pid, image);
    case Spawn(pid, root, image) => SpawnView(s, pid, root, image);
    case Reap(pid) => ReapView(s, pid);
  }

  // ---------------------------------------------------------------- whole runs

  /** No processes, nothing mapped, every count zero. */
  ghost predicate Booted(s: Sys) {
    s.tasks == map[] && s.mem.leaves == map[] && s.mem.data == map[]
    && |s.mem.refs| == NUM_PAGES && forall i :: 0 <= i < NUM_PAGES ==> s.mem.refs[i] == 0
  }

  /** A run: every step is enabled where it is taken. */
  ghost predicate Runs(s: Sys, steps: seq<Step>)
    decreases |steps|
  {
    steps == [] || (Enabled(s, steps[0]) && Runs(Next(s, steps[0]), steps[1..]))
  }

  function After(s: Sys, steps: seq<Step>): Sys
    decreases |steps|
  {
    if steps == [] then s else After(Next(s, steps[0]), steps[1..])
  }

  ghost function EagerAfter(e: Eager, steps: seq<Step>): Eager
    decreases |steps|
  {
    if steps == [] then e else EagerAfter(EagerNext(e, steps[0]), steps[1..])
  }

  lemma BootedInv(s: Sys)
    requires Booted(s)
    ensures SysInv(s) && View(s) == map[]
  {
    forall p | Counted(p) ensures s.mem.refs[PageIdx(p)] == |Mappers(s.mem.leaves, p)| {
      PageIdxInjective(p, p);
      assert Mappers(s.mem.leaves, p) == {};
    }
    assert FewMappers(s.mem.leaves) by {
      forall p | Counted(p) ensures |Mappers(s.mem.leaves, p)| < 256 {
        assert Mappers(s.mem.leaves, p) == {};
      }
    }
    assert MappedPages(s.mem.leaves) == {};
  }

  /** Over every run: the invariant holds and each process sees exactly what the eager machine
      would show it. */
  lemma {:induction false} RunRefines(s: Sys, steps: seq<Step>)
    requires SysInv(s) && Runs(s, steps)
    ensures SysInv(After(s, steps)) && View(After(s, steps)) == EagerAfter(View(s), steps)
    decreases |steps|
  {
    hide SysInv, Enabled, Next, View, EagerNext;
    if steps != [] {
      Keeps(s, steps[0]);
      Refines(s, steps[0]);
      RunRefines(Next(s, steps[0]), steps[1..]);
    }
  }

  /** From boot, in every reachable state: counts are exact, no shared page is writable, and the
      whole of user memory is the eager machine's. */
  lemma LazyIsEager(s: Sys, steps: seq<Step>)
    requires Booted(s) && Runs(s, steps)
    ensures SysInv(After(s, steps)) && View(After(s, steps)) == EagerAfter(map[], steps)
  {
    hide SysInv, Booted, Runs, After, EagerAfter, View;
    BootedInv(s);
    RunRefines(s, steps);
  }

  /** The steps that a process takes itself and that change what it sees. */
  predicate OwnStep(st: Step, q: nat) {
    match st
    case StoreTo(pid, _, _) => pid == q
    case Mmap(pid, _, _) => pid == q
    case Exec(pid, _) => pid == q
    case Exit(pid) => pid == q
    case Fork(_, _, _) => false
    case Spawn(_, _, _) => false
    case Fault(_, _, _, _) => false
    case Reap(_) => false
  }

  lemma EagerOthers(e: Eager, st: Step, q: nat)
    requires q in e && !OwnStep(st, q) && (st.Fork? ==> st.child != q) && (st.Spawn? ==> st.pid != q)
    ensures q in EagerNext(e, st) && EagerNext(e, st)[q] == e[q]
  {
    hide InitialPages, Spliced, ZeroedIn;
  }

  lemma NewPids(s: Sys, st: Step, q: nat)
    requires Enabled(s, st) && Running(s, q)
    ensures (st.Fork? ==> st.child != q) && (st.Spawn? ==> st.pid != q)
  {
    hide VmasOk, Fresh, FewMappers, ForkUpTo;
  }

  /** A process's view changes only by its own steps: whatever others store, fork, fault in,
      execute or give back, it sees what it saw. */
  lemma OthersAreInvisible(s: Sys, st: Step, q: nat)
    requires SysInv(s) && Enabled(s, st) && Running(s, q) && !OwnStep(st, q)
    ensures q in View(Next(s, st)) && View(Next(s, st))[q] == ViewOf(s, q)
  {
    hide SysInv, Enabled, Next, ViewOf, EagerNext, OwnStep;
    Refines(s, st);
    NewPids(s, st, q);
    EagerOthers(View(s), st, q);
  }
}
