/** What the processor finds in the page tables: address translation as Sv39 defines it (sections
    4.3.2 and 4.4 of the RISC-V Privileged Architecture, version 20211203), against the map of leaves
    that the kernel keeps and against what each process sees. */
module Mmu {
  import opened Pte
  import opened PageTree
  import opened VmModel
  import opened VmSystem
  import opened VmAccess
  import opened VmRefinement
  import opened Paging
  import opened Processes

  /** The pages that one entry of a table of the given level spans. */
  function Span(level: nat): (n: nat)
    ensures n > 0
  {
    if level == 0 then 1 else ENTRIES * Span(level - 1)
  }

  /** The nine bits of an address that index a table of the given level. */
  function Index(va: nat, level: nat): (i: nat)
    ensures i < ENTRIES
  {
    va / 4096 / Span(level) % ENTRIES
  }

  /** A page fault; a leaf entry found at some level; or a pointer to a page that is no table. */
  datatype Translation = PageFault | Page(level: nat, e: Pte) | Stray

  /** Steps 2 to 4 of the algorithm, from the table at a. */
  function Translate(t: map<nat, Table>, a: nat, va: nat, level: nat): Translation
    decreases level
  {
    if a !in t || |t[a]| != ENTRIES then Stray
    else
      var e := t[a][Index(va, level)];
      if !e.f.v || (!e.f.r && e.f.w) then PageFault
      else if e.f.r || e.f.x then Page(level, e)
      else if level == 0 then PageFault
      else Translate(t, e.pa, va, level - 1)
  }

  datatype Option<T> = None | Some(value: T)

  /** The algorithm for user mode, starting at the root: the physical address, or a page fault. */
  function UserAccess(t: map<nat, Table>, root: nat, va: nat, c: Cause): Option<nat> {
    match Translate(t, root, va, 2)
    case Page(level, e) =>
      var size := 4096 * Span(level);
      if HardwareAllows(e.f, c) && e.pa % size == 0 then Some(e.pa + va % size) else None
    case PageFault => None
    case Stray => None
  }

  /** A valid entry that is a leaf and not one of the reserved combinations. */
  predicate IsLeaf(f: Flags) { f.v && (f.r || (f.x && !f.w)) }

  lemma UserIndices(va: nat)
    requires va < USER_END
    ensures Index(va, 2) == va / 0x4000_0000 % 512 < USER_ENTRIES
    ensures Index(va, 1) == va / 0x20_0000 % 512 && Index(va, 0) == va / 0x1000 % 512
  {
    assert Span(0) == 1 && Span(1) == 512 && Span(2) == 262144;
    assert va / 4096 / 262144 == va / 0x4000_0000 && va / 4096 / 512 == va / 0x20_0000;
  }

  /** From every root, for every address of the user half, the processor finds the leaf of the
      finite map, at the last level, and a page fault where there is none; it never leaves the tables. */
  lemma HardwareFinds(t: map<nat, Table>, role: map<nat, Role>, leaves: Leaves, root: nat, va: nat)
    requires TreeOk(t, role) && Sync(t, role, leaves) && IsRoot(role, root) && va < USER_END
    ensures Translate(t, root, va, 2) ==
            if (root, va / 4096) in leaves && IsLeaf(leaves[(root, va / 4096)].f) then Page(0, leaves[(root, va / 4096)]) else PageFault
  {
    WalkFacts(t, role, leaves, root, va);
    UserIndices(va);
    var i, j, k := Index(va, 2), Index(va, 1), Index(va, 0);
    assert DownOk(t, role, root, i);
    if t[root][i].f.v {
      var m := t[root][i].pa;
      assert DownOk(t, role, m, j);
      if t[m][j].f.v {
        var l := t[m][j].pa;
        assert Translate(t, l, va, 0) == if IsLeaf(t[l][k].f) then Page(0, t[l][k]) else PageFault;
        assert Translate(t, m, va, 1) == Translate(t, l, va, 0);
        assert Translate(t, root, va, 2) == Translate(t, m, va, 1);
        assert LeafAt(t, root, i, j, k) == if t[l][k].f.v then t[l][k] else ZERO;
      } else {
        assert Translate(t, m, va, 1) == PageFault;
      }
    }
  }

  /** The entries of user memory are leaves to the processor whenever they allow anything. */
  lemma UserLeaf(t: Task, v: nat, e: Pte, c: Cause)
    requires LeafFits(t, v, e) && (RegionOf(t, v).InVma? ==> RegionOf(t, v).i < |t.vmas|)
    ensures HardwareAllows(e.f, c) ==> IsLeaf(e.f)
  {
  }

  lemma LeafOf(s: Sys, pid: nat, va: nat)
    requires SysInv(s) && pid in s.tasks && KeyOf(s, pid, va) in s.mem.leaves
    ensures LeafFits(s.tasks[pid], va / 4096, s.mem.leaves[KeyOf(s, pid, va)])
    ensures s.mem.leaves[KeyOf(s, pid, va)].pa in s.mem.data && Counted(s.mem.leaves[KeyOf(s, pid, va)].pa)
    ensures |s.mem.data[s.mem.leaves[KeyOf(s, pid, va)].pa]| == 4096
  {
    LeafHasData(s.mem, KeyOf(s, pid, va));
  }

  /** Through the real tables of a process the processor makes exactly the accesses that its leaves
      allow, and each at the byte that the process sees at that address. */
  lemma HardwareSees(ps: Processes, pid: nat, va: nat, c: Cause)
    requires ps.Valid() && pid in ps.tasks && va < USER_END
    ensures var k, l := KeyOf(ps.Abs(), pid, va), ps.mm.leaves;
            match UserAccess(ps.mm.tables, ps.tasks[pid].root, va, c)
            case None => !(k in l && HardwareAllows(l[k].f, c))
            case Some(pa) =>
              && k in l && HardwareAllows(l[k].f, c)
              && var page := pa / 4096 * 4096;
                 page in ps.mm.data && |ps.mm.data[page]| == 4096 && |PageBytes(ps.Abs(), pid, va / 4096)| == 4096
                 && ps.mm.data[page][pa % 4096] == PageBytes(ps.Abs(), pid, va / 4096)[va % 4096]
  {
    hide SysInv, MemInv, TreeOk, Sync, LeafFits, Translate, HardwareAllows;
    var s, root := ps.Abs(), ps.tasks[pid].root;
    HardwareFinds(ps.mm.tables, ps.mm.role, ps.mm.leaves, root, va);
    assert Span(0) == 1;
    if KeyOf(s, pid, va) in s.mem.leaves {
      LeafOf(s, pid, va);
      FirstIsIndex(s.tasks[pid], va / 4096);
      UserLeaf(s.tasks[pid], va / 4096, s.mem.leaves[KeyOf(s, pid, va)], c);
      Offset(s.mem.leaves[KeyOf(s, pid, va)].pa, va % 4096);
    }
  }

  lemma Offset(p: nat, o: nat)
    requires Counted(p) && o < 4096
    ensures p % 4096 == 0 && (p + o) / 4096 * 4096 == p && (p + o) % 4096 == o
  {
  }
}
