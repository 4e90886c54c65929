/** The page-table code of lab7/src/paging.c over physical memory: table pages, data pages and
    reference counts.  Each method is proved to do to the finite map of leaves what VmModel says;
    the walk through three levels, the table pages it creates or frees, and every page taken
    from or returned to the heap are accounted for. */
module Paging {
  import opened Bytes
  import opened Pte
  import opened PageTree
  import opened VmModel
  import opened PageLog

  /** Tables, leaf map and the kernel's shared upper half fit together. */
  ghost predicate Forest(t: map<nat, Table>, role: map<nat, Role>, leaves: Leaves, kernelHalf: seq<Pte>) {
    TreeOk(t, role) && Sync(t, role, leaves) && KernelMapped(t, role, kernelHalf)
  }

  ghost predicate KernelMapped(t: map<nat, Table>, role: map<nat, Role>, kernelHalf: seq<Pte>) {
    && |kernelHalf| == USER_ENTRIES
    && forall r :: IsRoot(role, r) && r in t && |t[r]| == ENTRIES ==> t[r][USER_ENTRIES..] == kernelHalf
  }

  lemma AddTableForest(t: map<nat, Table>, role: map<nat, Role>, leaves: Leaves, kh: seq<Pte>, p: nat, i: nat, c: nat)
    requires Forest(t, role, leaves, kh) && p in t && i < ENTRIES && |t[p]| == ENTRIES && c !in t && c != 0 && !t[p][i].f.v
    requires p in role && !role[p].Low? && (role[p].Root? ==> i < USER_ENTRIES)
    ensures Forest(AddTable(t, p, i, c), role[c := Below(role, p, i)], leaves, kh)
    ensures AddTable(t, p, i, c).Keys == t.Keys + {c}
  {
    AddTableOk(t, role, p, i, c);
    AddTableSync(t, role, leaves, p, i, c);
  }

  lemma AddRootForest(t: map<nat, Table>, role: map<nat, Role>, leaves: Leaves, kh: seq<Pte>, r: nat, page: Table)
    requires Forest(t, role, leaves, kh) && r !in t && r != 0
    requires |page| == ENTRIES && (forall i :: 0 <= i < USER_ENTRIES ==> page[i] == ZERO) && page[USER_ENTRIES..] == kh
    ensures Forest(t[r := page], role[r := Root], leaves, kh) && t[r := page].Keys == t.Keys + {r}
    ensures forall m :: m in leaves ==> m.0 != r
  {
    AddRootOk(t, role, leaves, r, page);
  }

  lemma SetLeafForest(t: map<nat, Table>, role: map<nat, Role>, leaves: Leaves, kh: seq<Pte>, l: nat, k: nat, e: Pte)
    requires Forest(t, role, leaves, kh) && l in t && |t[l]| == ENTRIES && l in role && role[l].Low? && k < ENTRIES
    ensures var Low(r, i, j) := role[l]; Forest(SetEntry(t, l, k, e), role, Updated(leaves, r, Vpn(i, j, k), e), kh)
    ensures SetEntry(t, l, k, e).Keys == t.Keys
  {
    SetLeafOk(t, role, l, k, e);
    SetLeafSync(t, role, leaves, l, k, e);
  }

  lemma TablePage(t: map<nat, Table>, role: map<nat, Role>, leaves: Leaves, kh: seq<Pte>, p: nat)
    requires Forest(t, role, leaves, kh) && p in role
    ensures p in t && |t[p]| == ENTRIES && p != 0
  {
  }

  class AddressSpaces {
    const kernelHalf: seq<Pte>
    const refs: array<int>
    var tables: map<nat, Table>
    var data: map<nat, seq<byte>>
    var active: nat  // active_user_pgd
    ghost var role: map<nat, Role>
    ghost var leaves: Leaves
    ghost var log: seq<Event>
    ghost var view: map<nat, Table>  // during a teardown: the tables without the links to freed ones

    ghost function Abs(): Mem
      reads this, refs
    {
      Mem(leaves, refs[..], data)
    }

    /** The pages held from the heap are exactly the table pages and the data pages. */
    ghost predicate PagesOk()
      reads this
    {
      tables.Keys !! data.Keys && Proper(log) && InUse(log) == tables.Keys + data.Keys
    }

    ghost predicate Shape()
      reads this
    {
      refs.Length == NUM_PAGES && Forest(tables, role, leaves, kernelHalf) && PagesOk()
    }

    /** The shape during a teardown, when pages in stale may still link to freed tables. */
    ghost predicate ShapeBut(stale: set<nat>)
      reads this
    {
      refs.Length == NUM_PAGES && Forest(view, role, leaves, kernelHalf) && PagesOk() && Stale(tables, view, stale)
    }

    ghost predicate Valid()
      reads this, refs
    {
      Shape() && MemInv(Abs())
    }

    constructor (kernelHalf: seq<Pte>)
      requires |kernelHalf| == USER_ENTRIES
      ensures Valid() && leaves == map[] && tables == map[] && data == map[] && log == [] && fresh(refs)
    {
      this.kernelHalf := kernelHalf;
      tables, data, active := map[], map[], 0;
      role, leaves, log, view := map[], map[], [], map[];
      var rc := new int[NUM_PAGES];
      refs := rc;
      new;
      for i := 0 to NUM_PAGES
        modifies refs
        invariant forall j :: 0 <= j < i ==> refs[j] == 0
      {
        refs[i] := 0;
      }
      EmptyMem(Abs());
    }

    // ------------------------------------------------------------ pages of the heap

    /** allocate(PAGE_SIZE): any page the heap may return, or 0. */
    method AllocPage() returns (pa: nat)
      requires PagesOk()
      modifies this`log
      ensures pa == 0 ==> log == old(log)
      ensures pa != 0 ==> Counted(pa) && pa !in tables && pa !in data && log == old(log) + [Take(pa)]
      ensures pa != 0 ==> Proper(log) && InUse(log) == tables.Keys + data.Keys + {pa}
    {
      var p: nat := *;
      if Counted(p) && p !in tables && p !in data {
        pa := p;
        Extend(log, Take(p));
        log := log + [Take(p)];
      } else {
        pa := 0;
      }
    }

    /** free of a page in use. */
    method FreePage(pa: nat)
      requires Proper(log) && pa in InUse(log)
      modifies this`log
      ensures Proper(log) && InUse(log) == old(InUse(log)) - {pa} && log == old(log) + [Give(pa)]
    {
      Extend(log, Give(pa));
      log := log + [Give(pa)];
    }

    // ------------------------------------------------------------ table pages

    /** The contents of a fresh root: zeros below, the kernel's entries above. */
    method RootPage() returns (page: Table)
      requires |kernelHalf| == USER_ENTRIES
      ensures |page| == ENTRIES && page[USER_ENTRIES..] == kernelHalf
      ensures forall h :: 0 <= h < USER_ENTRIES ==> page[h] == ZERO
    {
      page := Zeros();
      var i := USER_ENTRIES;
      while i < ENTRIES
        invariant USER_ENTRIES <= i <= ENTRIES && |page| == ENTRIES
        invariant forall h :: 0 <= h < USER_ENTRIES ==> page[h] == ZERO
        invariant forall h :: USER_ENTRIES <= h < i ==> page[h] == kernelHalf[h - USER_ENTRIES]
      {
        page := page[i := kernelHalf[i - USER_ENTRIES]];
        i := i + 1;
      }
    }

    /** A new page-table root (sched.c:208-213, syscall.c:169-175). */
    method NewRoot() returns (root: nat)
      requires Shape()
      modifies this`tables, this`role, this`log
      ensures Shape()
      ensures root == 0 ==> tables == old(tables) && role == old(role)
      ensures root != 0 ==> root !in old(tables) && role == old(role)[root := Root] && forall m :: m in leaves ==> m.0 != root
    {
      hide TreeOk, Sync;
      root := AllocPage();
      if root == 0 { return; }
      var page := RootPage();
      AddRootForest(tables, role, leaves, kernelHalf, root, page);
      tables := tables[root := page];
      role := role[root := Root];
    }

    /** The blocks of pagewalk and fork that create a missing middle or last table. */
    method LinkTable(p: nat, i: nat) returns (ok: bool)
      requires Shape() && p in tables && i < ENTRIES && |tables[p]| == ENTRIES && !tables[p][i].f.v
      requires p in role && !role[p].Low? && (role[p].Root? ==> i < USER_ENTRIES)
      modifies this`tables, this`role, this`log
      ensures Shape()
      ensures ok ==> Grown(old(tables), old(role), tables, role, p, i)
      ensures !ok ==> tables == old(tables) && role == old(role)
    {
      hide TreeOk, Sync, KernelMapped;
      var c := AllocPage();
      if c == 0 { return false; }
      AddTableForest(tables, role, leaves, kernelHalf, p, i, c);
      var e := TableEntry(c);
      tables := tables[p := tables[p][i := e]][c := Zeros()];
      role := role[c := Below(role, p, i)];
      ok := true;
    }

    // ------------------------------------------------------------ mapping

    /** One level of a walk that creates what is missing. */
    method Descend(p: nat, i: nat) returns (ok: bool, c: nat)
      requires Shape() && p in tables && i < ENTRIES && |tables[p]| == ENTRIES
      requires p in role && !role[p].Low? && (role[p].Root? ==> i < USER_ENTRIES)
      modifies this`tables, this`role, this`log
      ensures Shape() && Grows(old(role), role)
      ensures ok ==> p in role && !role[p].Low? && HasRole(role, c, Below(role, p, i)) && c in tables && |tables[c]| == ENTRIES
      ensures forall q :: q in old(tables) && q != p ==> q in tables && tables[q] == old(tables[q])
      ensures old(tables[p][i].f.v) ==> ok && tables == old(tables) && role == old(role) && c == tables[p][i].pa
    {
      if !tables[p][i].f.v {
        ok := LinkTable(p, i);
        if !ok { return false, 0; }
      }
      c := tables[p][i].pa;
      ok := true;
      assert DownOk(tables, role, p, i);
    }

    /** Write one entry of a last-level table. */
    method SetLeaf(l: nat, k: nat, e: Pte)
      requires Shape() && l in tables && |tables[l]| == ENTRIES && l in role && role[l].Low? && k < ENTRIES
      modifies this`tables, this`leaves
      ensures Shape() && tables == SetEntry(old(tables), l, k, e)
      ensures leaves == Updated(old(leaves), role[l].root, Vpn(role[l].i, role[l].j, k), e)
    {
      hide TreeOk, Sync, KernelMapped;
      SetLeafForest(tables, role, leaves, kernelHalf, l, k, e);
      tables := SetEntry(tables, l, k, e);
      leaves := Updated(leaves, role[l].root, Vpn(role[l].i, role[l].j, k), e);
    }

    /** The part of pagewalk that finds, or creates, the last-level table of an address. */
    method FindLow(va: nat) returns (ok: bool, pte: nat)
      requires Shape() && IsRoot(role, active) && va < USER_END
      modifies this`tables, this`role, this`log
      ensures Shape() && Grows(old(role), role)
      ensures ok ==> HasRole(role, pte, Low(active, va / 0x4000_0000 % 512, va / 0x20_0000 % 512)) && pte in tables && |tables[pte]| == ENTRIES
      ensures (active, va / 4096) in leaves ==> ok
    {
      hide Forest;
      TablePage(tables, role, leaves, kernelHalf, active);
      MappedPath(tables, role, leaves, kernelHalf, active, va);
      var vpn2, vpn1 := va / 0x4000_0000 % 512, va / 0x20_0000 % 512;
      VaParts(va);
      var pmd;
      pte := 0;
      ok, pmd := Descend(active, vpn2);
      if ok {
        ok, pte := Descend(pmd, vpn1);
      }
    }

    /** pagewalk in the user half: install one leaf, creating tables on the way.  The result is
        false when an unchecked allocation of a table fails. */
    method PageWalk(va: nat, pa: nat, prot: Flags) returns (ok: bool)
      requires Shape() && IsRoot(role, active) && va < USER_END && PhysPage(pa)
      modifies this`tables, this`role, this`leaves, this`log
      ensures Shape() && Grows(old(role), role)
      ensures ok ==> leaves == WithLeaf(old(leaves), old(active), va, pa, prot)
      ensures !ok ==> leaves == old(leaves)
      ensures old((active, va / 4096) in leaves) ==> ok
    {
      hide Forest;
      var pte;
      ok, pte := FindLow(va);
      if ok {
        VaParts(va);
        var e := LeafEntry(pa, prot);
        SetLeaf(pte, va / 0x1000 % 512, e);
      }
    }

    /** map_pages: a run of pages, in ascending order. */
    method MapPages(va: nat, size: nat, pa: nat, prot: Flags) returns (ok: bool)
      requires Shape() && IsRoot(role, active) && va % 4096 == 0 && va + size <= USER_END
      requires PhysPage(pa) && pa + size <= 0x100_0000_0000_0000
      modifies this`tables, this`role, this`leaves, this`log
      ensures Shape() && IsRoot(role, active)
      ensures ok ==> leaves == MapRun(old(leaves), active, va, PagesIn(size), pa, prot)
    {
      hide Forest;
      var i := 0;
      ghost var root, l := active, leaves;
      ghost var n: nat := 0;
      while i < size
        invariant i == n * 4096 && (n > 0 ==> i - 4096 < size)
        invariant Shape() && active == root && IsRoot(role, root)
        invariant leaves == MapRun(l, root, va, n, pa, prot)
      {
        MapRunStep(l, root, va, n, i, pa, prot);
        ghost var next := WithLeaf(leaves, active, va + i, pa + i, prot);
        assert next == MapRun(l, root, va, n + 1, pa, prot);
        ok := PageWalk(va + i, pa + i, prot);
        if !ok { return; }
        assert leaves == next;
        i := i + 4096;
        n := n + 1;
      }
      ok := true;
      CountedPages(size, n);
    }

    // ------------------------------------------------------------ reading

    /** iterate_page_table up to the switch: the leaf entry, or a word that is not valid. */
    function Walk(root: nat, va: nat): (e: Pte)
      requires Shape() && IsRoot(role, root) && va < USER_END
      reads this
      ensures e.f.v <==> (root, va / 4096) in leaves
      ensures e.f.v ==> e == leaves[(root, va / 4096)]
    {
      WalkFacts(tables, role, leaves, root, va);
      var vpn2, vpn1, vpn0 := va / 0x4000_0000 % 512, va / 0x20_0000 % 512, va / 0x1000 % 512;
      if !tables[root][vpn2].f.v then ZERO
      else
        var pmd := tables[root][vpn2].pa;
        if !tables[pmd][vpn1].f.v then ZERO
        else
          var pte := tables[pmd][vpn1].pa;
          if !tables[pte][vpn0].f.v then ZERO else tables[pte][vpn0]
    }

    /** iterate_page_table(pgd, va, CHECK_COW) */
    predicate CheckCow(root: nat, va: nat)
      requires Shape() && IsRoot(role, root) && va < USER_END
      reads this
    {
      Walk(root, va).f.v && Walk(root, va).f.cow
    }

    /** iterate_page_table(pgd, va, GET_PA); 0 when nothing is mapped */
    function GetPa(root: nat, va: nat): nat
      requires Shape() && IsRoot(role, root) && va < USER_END
      reads this
    {
      if Walk(root, va).f.v then Walk(root, va).pa else 0
    }

    // ------------------------------------------------------------ reference counts

    method IncrementRef(pa: nat)
      requires refs.Length == NUM_PAGES
      modifies refs
      ensures refs[..] == Increment(old(refs[..]), pa)
    {
      var idx := PageIdx(pa);
      if idx < refs.Length { refs[idx] := (refs[idx] + 1) % 256; }
    }

    method DecrementRef(pa: nat) returns (n: int)
      requires refs.Length == NUM_PAGES
      modifies refs
      ensures (refs[..], n) == Decrement(old(refs[..]), pa)
    {
      var idx := PageIdx(pa);
      if idx < refs.Length {
        if refs[idx] > 0 { refs[idx] := refs[idx] - 1; }
        n := refs[idx];
        assert refs[..] == old(refs[..])[idx := n];
      } else {
        n := 0;
      }
    }

    method SetRefInit(pa: nat)
      requires refs.Length == NUM_PAGES
      modifies refs
      ensures refs[..] == SetOne(old(refs[..]), pa)
    {
      var idx := PageIdx(pa);
      if idx < refs.Length { refs[idx] := 1; }
    }

    // ------------------------------------------------------------ fork

    /** The innermost loop of fork_copy_page_table_cow: one pair of last-level tables. */
    method ForkLow(srcPte: nat, dstPte: nat, ghost src: nat, ghost dst: nat, ghost i: nat, ghost j: nat, ghost m: Mem)
      requires Shape() && src != dst && HasRole(role, srcPte, Low(src, i, j)) && HasRole(role, dstPte, Low(dst, i, j))
      requires Abs() == ForkUpTo(m, src, dst, Vpn(i, j, 0)) && Paged(m.leaves)
      modifies this`tables, this`leaves, refs
      ensures Shape() && Abs() == ForkUpTo(m, src, dst, Vpn(i, j, ENTRIES))
    {
      hide Forest, ForkUpTo, ForkLeaf, Paged;
      TablePage(tables, role, leaves, kernelHalf, srcPte);
      TablePage(tables, role, leaves, kernelHalf, dstPte);
      var k := 0;
      ghost var done := Abs();
      while k < ENTRIES
        invariant 0 <= k <= ENTRIES && Shape() && srcPte in tables && dstPte in tables
        invariant |tables[srcPte]| == |tables[dstPte]| == ENTRIES
        invariant Abs() == done && done == ForkUpTo(m, src, dst, Vpn(i, j, k))
      {
        ForkUpToStep(m, src, dst, Vpn(i, j, k));
        ForkPaged(m, src, dst, Vpn(i, j, k));
        ForkLowStep(srcPte, dstPte, src, dst, i, j, k);
        done := ForkLeaf(done, src, dst, Vpn(i, j, k));
        k := k + 1;
      }
    }

    /** The body of that loop. */
    method ForkLowStep(srcPte: nat, dstPte: nat, ghost src: nat, ghost dst: nat, ghost i: nat, ghost j: nat, k: nat)
      requires Shape() && src != dst && HasRole(role, srcPte, Low(src, i, j)) && HasRole(role, dstPte, Low(dst, i, j))
      requires srcPte in tables && dstPte in tables && |tables[srcPte]| == |tables[dstPte]| == ENTRIES && k < ENTRIES
      requires Paged(leaves)
      modifies this`tables, this`leaves, refs
      ensures Shape() && Abs() == ForkLeaf(old(Abs()), src, dst, Vpn(i, j, k))
      ensures tables.Keys == old(tables.Keys) && |tables[srcPte]| == |tables[dstPte]| == ENTRIES
    {
      hide Forest;
      LowLeaf(tables, role, leaves, kernelHalf, srcPte, k);
      var e := tables[srcPte][k];
      if e.f.v {
        ghost var l := leaves;
        var writable, pteVal := ShareEntry(e);
        if writable {
          SetLeaf(srcPte, k, pteVal);
        }
        IncrementRef(pteVal.pa);
        SetLeaf(dstPte, k, pteVal);
        ShareBoth(l, (src, Vpn(i, j, k)), (dst, Vpn(i, j, k)));
      }
    }

    /** The middle loop: one pair of middle tables. */
    method ForkMid(srcPmd: nat, dstPmd: nat, ghost src: nat, ghost dst: nat, ghost i: nat, ghost m: Mem) returns (ok: bool)
      requires Shape() && src != dst && HasRole(role, srcPmd, Mid(src, i)) && HasRole(role, dstPmd, Mid(dst, i))
      requires Abs() == ForkUpTo(m, src, dst, Vpn(i, 0, 0)) && Paged(m.leaves)
      modifies this`tables, this`role, this`leaves, this`log, refs
      ensures Shape() && Grows(old(role), role)
      ensures ok ==> Abs() == ForkUpTo(m, src, dst, Vpn(i, ENTRIES, 0))
    {
      hide Forest, ForkUpTo, ForkLeaf, Below, Paged;
      ok := true;
      var j := 0;
      while ok && j < ENTRIES
        invariant 0 <= j <= ENTRIES && Shape() && Grows(old(role), role)
        invariant ok ==> Abs() == ForkUpTo(m, src, dst, Vpn(i, j, 0))
      {
        ok := ForkMidStep(srcPmd, dstPmd, src, dst, i, j, m);
        j := j + 1;
      }
    }

    /** The body of the middle loop. */
    method ForkMidStep(srcPmd: nat, dstPmd: nat, ghost src: nat, ghost dst: nat, ghost i: nat, j: nat, ghost m: Mem) returns (ok: bool)
      requires Shape() && src != dst && HasRole(role, srcPmd, Mid(src, i)) && HasRole(role, dstPmd, Mid(dst, i)) && j < ENTRIES
      requires Abs() == ForkUpTo(m, src, dst, Vpn(i, j, 0)) && Paged(m.leaves)
      modifies this`tables, this`role, this`leaves, this`log, refs
      ensures Shape() && Grows(old(role), role)
      ensures ok ==> Abs() == ForkUpTo(m, src, dst, Vpn(i, j + 1, 0))
    {
      hide Forest, ForkUpTo, ForkLeaf, Paged;
      TablePage(tables, role, leaves, kernelHalf, srcPmd);
      TablePage(tables, role, leaves, kernelHalf, dstPmd);
      if tables[srcPmd][j].f.v {
        var dstPte;
        ok, dstPte := Descend(dstPmd, j);
        if ok {
          ChildPage(tables, role, leaves, kernelHalf, srcPmd, j);
          var srcPte := tables[srcPmd][j].pa;
          ForkLow(srcPte, dstPte, src, dst, i, j, m);
        }
      } else {
        ok := true;
        EmptyMidSlot(tables, role, leaves, kernelHalf, srcPmd, j);
        ForkSkipHere(m, src, dst, Vpn(i, j, 0), Vpn(i, j + 1, 0));
      }
    }

    /** fork_copy_page_table_cow: the child's tables get every user leaf of the parent, both
        sides read-only where the parent could write. */
    method ForkCopy(dst: nat, src: nat) returns (ok: bool)
      requires Shape() && src != dst && IsRoot(role, src) && IsRoot(role, dst) && Paged(leaves)
      modifies this`tables, this`role, this`leaves, this`log, refs
      ensures Shape() && Grows(old(role), role)
      ensures ok ==> Abs() == ForkUpTo(old(Abs()), src, dst, USER_PAGES)
    {
      hide Forest, ForkUpTo, ForkLeaf, Vpn, Paged;
      ok := true;
      var i := 0;
      ghost var m := Abs();
      VpnEnds();
      ForkUpToZero(m, src, dst, Vpn(i, 0, 0));
      while ok && i < USER_ENTRIES
        invariant 0 <= i <= USER_ENTRIES && Shape() && Grows(old(role), role)
        invariant ok ==> Abs() == ForkUpTo(m, src, dst, Vpn(i, 0, 0))
      {
        ok := ForkRootStep(src, dst, i, m);
        i := i + 1;
      }
    }

    /** The body of the outer loop. */
    method ForkRootStep(src: nat, dst: nat, i: nat, ghost m: Mem) returns (ok: bool)
      requires Shape() && src != dst && IsRoot(role, src) && IsRoot(role, dst) && i < USER_ENTRIES
      requires Abs() == ForkUpTo(m, src, dst, Vpn(i, 0, 0)) && Paged(m.leaves)
      modifies this`tables, this`role, this`leaves, this`log, refs
      ensures Shape() && Grows(old(role), role)
      ensures ok ==> Abs() == ForkUpTo(m, src, dst, Vpn(i + 1, 0, 0))
    {
      hide Forest, ForkUpTo, ForkLeaf, Paged;
      TablePage(tables, role, leaves, kernelHalf, src);
      TablePage(tables, role, leaves, kernelHalf, dst);
      if tables[src][i].f.v {
        var dstPmd;
        ok, dstPmd := Descend(dst, i);
        if ok {
          ChildPage(tables, role, leaves, kernelHalf, src, i);
          var srcPmd := tables[src][i].pa;
          ok := ForkMid(srcPmd, dstPmd, src, dst, i, m);
        }
      } else {
        ok := true;
        EmptyRootSlot(tables, role, leaves, kernelHalf, src, i);
        ForkSkipHere(m, src, dst, Vpn(i, 0, 0), Vpn(i + 1, 0, 0));
      }
    }

    // ------------------------------------------------------------ teardown

    /** The innermost loop of free_user_page_table and clear_user_space_mappings. */
    method TearLow(pte: nat, ghost root: nat, ghost i: nat, ghost j: nat, ghost m: Mem, ghost stale: set<nat>)
      requires ShapeBut(stale) && pte !in stale && HasRole(role, pte, Low(root, i, j)) && MemInv(m)
      requires Abs() == DropUpTo(m, root, Vpn(i, j, 0))
      modifies this`tables, this`view, this`leaves, this`data, this`log, refs
      ensures ShapeBut(stale) && Abs() == DropUpTo(m, root, Vpn(i, j, ENTRIES))
      ensures pte in view && |view[pte]| == ENTRIES && NoEntries(view[pte])
      ensures SameBut(old(tables), tables, pte) && SameBut(old(view), view, pte)
    {
      hide Forest, DropUpTo, DropAt, MemInv, Stale, SameBut, PagesOk;
      TablePage(view, role, leaves, kernelHalf, pte);
      SameButRefl(tables, pte);
      SameButRefl(view, pte);
      var k := 0;
      while k < ENTRIES
        invariant 0 <= k <= ENTRIES && ShapeBut(stale) && pte in view && |view[pte]| == ENTRIES
        invariant forall h :: 0 <= h < k ==> !view[pte][h].f.v
        invariant Abs() == DropUpTo(m, root, Vpn(i, j, k))
        invariant SameBut(old(tables), tables, pte) && SameBut(old(view), view, pte)
      {
        ghost var t, v := tables, view;
        TearLowStep(pte, root, i, j, k, m, stale);
        SameButTrans(old(tables), t, tables, pte);
        SameButTrans(old(view), v, view, pte);
        k := k + 1;
      }
    }

    /** The body of that loop: unmap, decrement, free a page that lost its last owner. */
    method TearLowStep(pte: nat, ghost root: nat, ghost i: nat, ghost j: nat, k: nat, ghost m: Mem, ghost stale: set<nat>)
      requires ShapeBut(stale) && pte !in stale && HasRole(role, pte, Low(root, i, j)) && MemInv(m)
      requires pte in view && |view[pte]| == ENTRIES && k < ENTRIES
      requires Abs() == DropUpTo(m, root, Vpn(i, j, k))
      modifies this`tables, this`view, this`leaves, this`data, this`log, refs
      ensures ShapeBut(stale) && Abs() == DropUpTo(m, root, Vpn(i, j, k + 1))
      ensures pte in view && |view[pte]| == ENTRIES && !view[pte][k].f.v
      ensures forall h :: 0 <= h < k ==> view[pte][h] == old(view[pte][h])
      ensures SameBut(old(tables), tables, pte) && SameBut(old(view), view, pte)
    {
      hide Forest, DropUpTo, MemInv, Mappers, MappedPages, SameBut, Stale, DropLeaf, InUse, Proper;
      LowLeaf(view, role, leaves, kernelHalf, pte, k);
      StaleSame(tables, view, stale, pte);
      ghost var key: Key := (root, Vpn(i, j, k));
      DropUpToStep(m, root, Vpn(i, j, k));
      if tables[pte][k].f.v {
        DropUpToInv(m, root, Vpn(i, j, k));
        DropPage(tables[pte][k].pa, key);
        ClearEntry(pte, k, stale);
      } else {
        SameButRefl(tables, pte);
        SameButRefl(view, pte);
      }
    }

    /** decrement_page_ref and, at zero, free. */
    method Release(pagePa: nat)
      requires refs.Length == NUM_PAGES && PagesOk() && pagePa in data
      modifies this`data, this`log, refs
      ensures PagesOk() && refs[..] == Decrement(old(refs[..]), pagePa).0
      ensures data == if Decrement(old(refs[..]), pagePa).1 == 0 then old(data) - {pagePa} else old(data)
    {
      hide InUse, Proper, Decrement;
      var remaining := DecrementRef(pagePa);
      if remaining == 0 {
        FreePage(pagePa);
        data := data - {pagePa};
      }
    }

    /** What happens to the page of a leaf that is removed. */
    method DropPage(pagePa: nat, ghost key: Key)
      requires refs.Length == NUM_PAGES && PagesOk() && MemInv(Abs()) && key in leaves && leaves[key].pa == pagePa
      modifies this`data, this`log, refs
      ensures PagesOk() && Abs().(leaves := leaves - {key}) == DropLeaf(old(Abs()), key)
    {
      hide MemInv, Mappers, MappedPages, InUse, Proper, Decrement;
      DropLeafFreesSole(Abs(), key);
      Release(pagePa);
    }

    /** pte[k] = 0 */
    method ClearEntry(pte: nat, k: nat, ghost stale: set<nat>)
      requires ShapeBut(stale) && pte !in stale && pte in role && role[pte].Low? && pte in view && |view[pte]| == ENTRIES && k < ENTRIES
      modifies this`tables, this`view, this`leaves
      ensures ShapeBut(stale) && leaves == old(leaves) - {(role[pte].root, Vpn(role[pte].i, role[pte].j, k))}
      ensures pte in view && view[pte] == old(view[pte])[k := ZERO]
      ensures SameBut(old(tables), tables, pte) && SameBut(old(view), view, pte)
    {
      hide Forest, Stale, SameBut, InUse, Proper;
      StaleSame(tables, view, stale, pte);
      ClearStale(tables, view, stale, pte, k);
      SetLeafForest(view, role, leaves, kernelHalf, pte, k, ZERO);
      tables := SetEntry(tables, pte, k, ZERO);
      view := SetEntry(view, pte, k, ZERO);
      leaves := leaves - {(role[pte].root, Vpn(role[pte].i, role[pte].j, k))};
    }

    /** free of an emptied table: it disappears, and so does the link to it from the view. */
    method FreeTable(p: nat, i: nat, c: nat, ghost stale: set<nat>)
      requires ShapeBut(stale + {c}) && p in stale && p in view && |view[p]| == ENTRIES && i < ENTRIES
      requires p in role && !role[p].Low? && (role[p].Root? ==> i < USER_ENTRIES)
      requires c == Child(view, p, i) && c in view && NoEntries(view[c])
      modifies this`tables, this`view, this`role, this`log
      ensures ShapeBut(stale) && role == old(role) - {c}
      ensures SameExcept(old(tables), tables, c) && SameExcept(old(view)[p := old(view[p])[i := ZERO]], view, c)
    {
      hide Forest, Stale, InUse, Proper;
      RemoveForest(view, role, leaves, kernelHalf, p, i);
      RemoveStale(tables, view, stale, p, i);
      FreePage(c);
      tables := tables - {c};
      view := RemoveTable(view, p, i);
      role := role - {c};
    }

    /** The middle loop: everything below one middle table. */
    method TearMid(pmd: nat, ghost root: nat, ghost i: nat, ghost m: Mem)
      requires ShapeBut({root}) && IsRoot(role, root) && HasRole(role, pmd, Mid(root, i)) && MemInv(m)
      requires Abs() == DropUpTo(m, root, Vpn(i, 0, 0))
      modifies this`tables, this`view, this`leaves, this`data, this`role, this`log, refs
      ensures ShapeBut({root, pmd}) && Abs() == DropUpTo(m, root, Vpn(i, ENTRIES, 0))
      ensures pmd in view && |view[pmd]| == ENTRIES && NoEntries(view[pmd]) && Shrinks(old(role), role, root, i)
      ensures SamePage(old(tables), tables, root) && SamePage(old(view), view, root)
    {
      hide Forest, DropUpTo, DropAt, MemInv, Stale, PagesOk, Vpn;
      TablePage(view, role, leaves, kernelHalf, pmd);
      TablePage(view, role, leaves, kernelHalf, root);
      StaleSame(tables, view, {root}, pmd);
      StaleMore(tables, view, {root}, pmd);
      StaleKeys(tables, view, {root});
      assert {root} + {pmd} == {root, pmd};
      var j := 0;
      while j < ENTRIES
        invariant 0 <= j <= ENTRIES && ShapeBut({root, pmd}) && IsRoot(role, root) && HasRole(role, pmd, Mid(root, i))
        invariant MidProgress(tables, view, pmd, j) && Shrinks(old(role), role, root, i)
        invariant SamePage(old(tables), tables, root) && SamePage(old(view), view, root)
        invariant Abs() == DropUpTo(m, root, Vpn(i, j, 0))
      {
        TearMidStep(pmd, root, i, j, m);
        j := j + 1;
      }
    }

    /** The body of the middle loop. */
    method TearMidStep(pmd: nat, ghost root: nat, ghost i: nat, j: nat, ghost m: Mem)
      requires ShapeBut({root, pmd}) && IsRoot(role, root) && HasRole(role, pmd, Mid(root, i)) && MemInv(m) && j < ENTRIES
      requires MidProgress(tables, view, pmd, j)
      requires Abs() == DropUpTo(m, root, Vpn(i, j, 0))
      modifies this`tables, this`view, this`leaves, this`data, this`role, this`log, refs
      ensures ShapeBut({root, pmd}) && Abs() == DropUpTo(m, root, Vpn(i, j + 1, 0))
      ensures MidProgress(tables, view, pmd, j + 1) && Shrinks(old(role), role, root, i)
      ensures SamePage(old(tables), tables, root) && SamePage(old(view), view, root)
    {
      hide Forest, DropUpTo, MemInv, Stale, PagesOk, SameBut, SameExcept, Shrinks, MidProgress, Vpn;
      TablePage(view, role, leaves, kernelHalf, root);
      StaleKeys(tables, view, {root, pmd});
      MidNow(tables, view, pmd, j);
      if tables[pmd][j].f.v {
        ghost var t, v, ro := tables, view, role;
        ChildPage(view, role, leaves, kernelHalf, pmd, j);
        var pte := tables[pmd][j].pa;
        TearLow(pte, root, i, j, m, {root, pmd});
        ghost var t1, v1 := tables, view;
        StaleMore(tables, view, {root, pmd}, pte);
        VpnNext(i, j);
        SlotTorn(t, t1, v, v1, pmd, root, pte, j);
        FreeTable(pmd, j, pte, {root, pmd});
        SlotFreed(t, t1, tables, v, v1, view, ro, pmd, root, i, pte, j);
      } else {
        SlotSkipped(tables, view, role, pmd, root, i, j);
        VpnNext(i, j);
        EmptyMidSlot(view, role, leaves, kernelHalf, pmd, j);
        DropSkipHere(m, root, Vpn(i, j, 0), Vpn(i, j + 1, 0));
      }
    }

    /** One entry of the root: everything below it is unmapped and freed; the root itself is
        not written. */
    method TearRootStep(root: nat, i: nat, ghost m: Mem)
      requires ShapeBut({root}) && IsRoot(role, root) && MemInv(m) && i < USER_ENTRIES
      requires root in tables && root in view && |tables[root]| == |view[root]| == ENTRIES && view[root][i] == tables[root][i]
      requires Abs() == DropUpTo(m, root, Vpn(i, 0, 0))
      modifies this`tables, this`view, this`leaves, this`data, this`role, this`log, refs
      ensures ShapeBut({root}) && IsRoot(role, root) && Abs() == DropUpTo(m, root, Vpn(i + 1, 0, 0))
      ensures SamePage(old(tables), tables, root) && root in view && Lost(old(role), role, root)
      ensures view[root] == if tables[root][i].f.v then old(view[root])[i := ZERO] else old(view[root])
    {
      hide Forest, DropUpTo, MemInv, Stale, PagesOk, SameExcept, Shrinks, Lost, Vpn;
      if tables[root][i].f.v {
        ghost var t, v, ro := tables, view, role;
        ChildPage(view, role, leaves, kernelHalf, root, i);
        var pmd := tables[root][i].pa;
        TearMid(pmd, root, i, m);
        ghost var t1, v1, ro1 := tables, view, role;
        VpnNext(i, 0);
        RootTorn(t, t1, v, v1, ro, ro1, root, i, pmd);
        FreeTable(root, i, pmd, {root});
        RootFreed(t, t1, tables, v, v1, view, ro, ro1, root, i, pmd);
      } else {
        EmptyRootSlot(view, role, leaves, kernelHalf, root, i);
        VpnNext(i, 0);
        VpnOrder(i);
        DropSkipHere(m, root, Vpn(i, 0, 0), Vpn(i + 1, 0, 0));
        LostNothing(role, root);
      }
    }

    /** clear_user_space_mappings: the user half of a root becomes empty, every table below it goes
        back to the heap, and no other root's tables do. */
    method ClearUserSpaceMappings(root: nat)
      requires Valid() && IsRoot(role, root)
      modifies this`tables, this`view, this`leaves, this`data, this`role, this`log, refs
      ensures Valid() && IsRoot(role, root) && Lost(old(role), role, root)
      ensures Abs() == DropUpTo(old(Abs()), root, USER_PAGES)
      ensures root in old(tables) && root in tables && Cleared(old(tables)[root], tables[root], USER_ENTRIES)
      ensures NoneOwned(role, root)
    {
      hide Forest, DropUpTo, MemInv, Stale, InUse, Proper, Lost, Vpn, Cleared;
      var i := 0;
      ghost var m := Abs();
      view := tables;
      VpnEnds();
      DropUpToZero(m, root, Vpn(0, 0, 0));
      LostNothing(role, root);
      TablePage(tables, role, leaves, kernelHalf, root);
      NotStale(tables, root);
      ghost var page := tables[root];
      NothingCleared(page);
      while i < USER_ENTRIES
        invariant 0 <= i <= USER_ENTRIES && ShapeBut({root}) && IsRoot(role, root) && Lost(old(role), role, root)
        invariant root in tables && root in view && tables[root] == view[root] && |view[root]| == ENTRIES
        invariant Cleared(page, tables[root], i)
        invariant Abs() == DropUpTo(m, root, Vpn(i, 0, 0))
      {
        ghost var ro, e := role, tables[root];
        TearRootStep(root, i, m);
        LostMore(old(role), ro, role, root);
        if tables[root][i].f.v {
          RewriteStale(tables, view, root, i);
          tables := tables[root := tables[root][i := ZERO]];
        }
        OneMoreCleared(page, e, tables[root], i);
        i := i + 1;
      }
      AgreeNotStale(tables, view, root);
      NoneBelowCleared(tables, role, leaves, kernelHalf, root, page);
      DropUpToInv(m, root, USER_PAGES);
    }

    /** free_user_page_table: the root and everything it owns goes. */
    method FreeUserPageTable(root: nat)
      requires Valid() && IsRoot(role, root)
      modifies this`tables, this`view, this`leaves, this`data, this`role, this`log, refs
      ensures Valid() && root !in role && Lost(old(role), role, root) && NoneOwned(role, root)
      ensures Abs() == DropUpTo(old(Abs()), root, USER_PAGES)
    {
      hide Forest, DropUpTo, MemInv, Stale, InUse, Proper, Lost, Vpn;
      var i := 0;
      ghost var m := Abs();
      view := tables;
      VpnEnds();
      DropUpToZero(m, root, Vpn(0, 0, 0));
      LostNothing(role, root);
      TablePage(tables, role, leaves, kernelHalf, root);
      NotStale(tables, root);
      while i < USER_ENTRIES
        invariant 0 <= i <= USER_ENTRIES && ShapeBut({root}) && IsRoot(role, root) && Lost(old(role), role, root)
        invariant root in tables && root in view && |tables[root]| == |view[root]| == ENTRIES
        invariant forall h :: 0 <= h < i ==> !view[root][h].f.v
        invariant forall h :: i <= h < ENTRIES ==> view[root][h] == tables[root][h]
        invariant Abs() == DropUpTo(m, root, Vpn(i, 0, 0))
      {
        ghost var ro := role;
        TearRootStep(root, i, m);
        LostMore(old(role), ro, role, root);
        i := i + 1;
      }
      DropUpToInv(m, root, USER_PAGES);
      FreeRoot(root);
      LostRoot(old(role), role, root);
      NoneWithoutRoot(tables, role, leaves, kernelHalf, root);
    }

    /** free(pgd) */
    method FreeRoot(root: nat)
      requires ShapeBut({root}) && IsRoot(role, root) && root in view && |view[root]| == ENTRIES
      requires forall h :: 0 <= h < USER_ENTRIES ==> !view[root][h].f.v
      modifies this`tables, this`view, this`role, this`log
      ensures Shape() && role == old(role) - {root}
    {
      hide TreeOk, Sync, Stale, InUse, Proper;
      RemoveRootOk(view, role, leaves, root);
      DropStale(tables, view, root);
      FreePage(root);
      tables := tables - {root};
      view := view - {root};
      role := role - {root};
    }

    // ------------------------------------------------------------ page faults

    /** The statements that every demand-paging branch shares: a fresh page with the given
        contents, its count set to one, and map_pages of one page at the page of va. */
    method DemandPage(root: nat, va: nat, bytes: seq<byte>, prot: Flags) returns (r: MapResult, p: nat)
      requires Valid() && IsRoot(role, root) && va < USER_END && |bytes| == 4096
      modifies this`tables, this`role, this`leaves, this`data, this`active, this`log, refs
      ensures r == Mapped ==> Shape() && Grows(old(role), role) && Counted(p) && p !in old(data)
                              && Abs() == MapPage(old(Abs()), (root, va / 4096), p, prot, bytes)
      ensures r == NoPage ==> Valid() && Abs() == old(Abs()) && role == old(role)
    {
      hide Forest, MemInv, SetOne, InUse, Proper;
      p := FreshPage();
      if p == 0 { return NoPage, 0; }
      data := data[p := bytes];
      active := root;
      var ok := PageWalk(va / 4096 * 4096, p, prot);
      r := if ok then Mapped else NoTable;
    }

    /** The copy-on-write branch of page_fault_handler.  The result is false when the unchecked
        allocation of the copy fails. */
    method CowFault(root: nat, va: nat) returns (ok: bool, p: nat)
      requires Valid() && IsRoot(role, root) && va < USER_END && (root, va / 4096) in leaves && leaves[(root, va / 4096)].f.cow
      modifies this`tables, this`role, this`leaves, this`data, this`active, this`log, refs
      ensures ok ==> Valid() && Grows(old(role), role) && Counted(p) && p !in old(data)
      ensures ok ==> old(leaves[(root, va / 4096)].pa in data) && Abs() == BreakShare(old(Abs()), (root, va / 4096), p)
      ensures !ok ==> Valid() && Abs() == old(Abs()) && role == old(role)
    {
      hide Forest, MemInv, BreakShare, Decrement, SetOne, InUse, Proper;
      ghost var m := Abs();
      ghost var key: Key := (root, va / 4096);
      LeafHasPage(m, key);
      p := FreshPage();
      if p == 0 { return false, 0; }
      BreakShareInv(m, key, p);
      var oldPa := GetPa(root, va);
      data := data[p := data[oldPa]];
      var prot := WritableProt(Walk(root, va));
      active := root;
      ok := PageWalk(va / 4096 * 4096, p, prot);
      Release(oldPa);
      BreakShareParts(m, key, p, Abs(), prot);
    }

    /** allocate, memzero and set_page_ref_init of a data page. */
    method FreshPage() returns (p: nat)
      requires Shape()
      modifies this`data, this`log, refs
      ensures Shape()
      ensures p == 0 ==> data == old(data) && refs[..] == old(refs[..])
      ensures p != 0 ==> Counted(p) && p !in old(data) && p !in tables
      ensures p != 0 ==> data == old(data)[p := seq(4096, _ => 0)] && refs[..] == SetOne(old(refs[..]), p)
    {
      hide Forest, SetOne, InUse, Proper;
      p := AllocPage();
      if p == 0 { return; }
      data := data[p := seq(4096, _ => 0)];
      SetRefInit(p);
    }
  }

  /** The statements of the branch, one after the other, are BreakShare. */
  lemma BreakShareParts(m: Mem, k: Key, p: nat, m': Mem, prot: Flags)
    requires k in m.leaves && m.leaves[k].pa in m.data && p !in m.data
    requires prot == m.leaves[k].f.(cow := false).(w := true)
    requires m'.leaves == m.leaves[k := Pte(p, prot.(v := true))]
    requires var (refs, n) := Decrement(SetOne(m.refs, p), m.leaves[k].pa);
             && m'.refs == refs
             && var d := m.data[p := seq(4096, _ => 0)][p := m.data[m.leaves[k].pa]];
                m'.data == if n == 0 then d - {m.leaves[k].pa} else d
    ensures m' == BreakShare(m, k, p)
  {
  }

  /** Whether a demand page could be mapped; NoTable stands for an unchecked allocation failure. */
  datatype MapResult = Mapped | NoPage | NoTable

  lemma LeafHasPage(m: Mem, k: Key)
    requires MemInv(m) && k in m.leaves
    ensures m.leaves[k].pa in m.data && Counted(m.leaves[k].pa)
  {
    assert m.leaves[k].pa in MappedPages(m.leaves);
  }

  /** Everything lost belonged to the root, and nothing else changed. */
  ghost predicate Lost(role: map<nat, Role>, role': map<nat, Role>, root: nat) {
    && (forall p :: p in role' ==> p in role && role'[p] == role[p])
    && (forall p :: p in role && p !in role' ==> p == root || (!role[p].Root? && role[p].root == root))
  }

  lemma LostNothing(role: map<nat, Role>, root: nat)
    ensures Lost(role, role, root)
  {
  }

  lemma LostMore(a: map<nat, Role>, b: map<nat, Role>, c: map<nat, Role>, root: nat)
    requires Lost(a, b, root) && Lost(b, c, root)
    ensures Lost(a, c, root)
  {
  }

  lemma LostRoot(a: map<nat, Role>, c: map<nat, Role>, root: nat)
    requires exists b :: Lost(a, b, root) && c == b - {root}
    ensures Lost(a, c, root) && root !in c
  {
  }

  lemma VpnOrder(i: nat)
    ensures Vpn(i, 0, 0) <= Vpn(i + 1, 0, 0)
  {
  }

  lemma RootTorn(t: map<nat, Table>, t1: map<nat, Table>, v: map<nat, Table>, v1: map<nat, Table>,
                 role: map<nat, Role>, role1: map<nat, Role>, root: nat, i: nat, pmd: nat)
    requires SamePage(t, t1, root) && SamePage(v, v1, root) && Shrinks(role, role1, root, i) && IsRoot(role, root)
    requires i < |v[root]| && pmd == Child(v, root, i) && HasRole(role, pmd, Mid(root, i)) && pmd != root
    ensures Child(v1, root, i) == pmd && IsRoot(role1, root) && HasRole(role1, pmd, Mid(root, i)) && {root} + {pmd} == {root, pmd}
  {
  }

  lemma RootFreed(t: map<nat, Table>, t1: map<nat, Table>, t2: map<nat, Table>, v: map<nat, Table>, v1: map<nat, Table>, v2: map<nat, Table>,
                  role: map<nat, Role>, role1: map<nat, Role>, root: nat, i: nat, pmd: nat)
    requires SamePage(t, t1, root) && SamePage(v, v1, root) && Shrinks(role, role1, root, i) && IsRoot(role, root) && pmd != root
    requires HasRole(role, pmd, Mid(root, i)) && i < |v[root]|
    requires SameExcept(t1, t2, pmd) && SameExcept(v1[root := v1[root][i := ZERO]], v2, pmd)
    ensures SamePage(t, t2, root) && root in v2 && v2[root] == v[root][i := ZERO]
    ensures Lost(role, role1 - {pmd}, root) && IsRoot(role1 - {pmd}, root)
  {
  }

  /** The valid entries below n of a root have been zeroed, all others are as they were. */
  ghost predicate Cleared(page: Table, page': Table, n: nat) {
    && |page| == |page'| == ENTRIES
    && (forall h :: 0 <= h < ENTRIES ==> page'[h] == if h < n && page[h].f.v then ZERO else page[h])
  }

  lemma NothingCleared(page: Table)
    requires |page| == ENTRIES
    ensures Cleared(page, page, 0)
  {
  }

  lemma OneMoreCleared(page: Table, e: Table, e': Table, i: nat)
    requires Cleared(page, e, i) && i < ENTRIES && e' == if e[i].f.v then e[i := ZERO] else e
    ensures Cleared(page, e', i + 1)
  {
  }

  /** No table page belongs to the root. */
  ghost predicate NoneOwned(role: map<nat, Role>, root: nat) {
    forall p :: p in role ==> role[p].Root? || role[p].root != root
  }

  lemma NoneBelowCleared(t: map<nat, Table>, role: map<nat, Role>, leaves: Leaves, kh: seq<Pte>, root: nat, page: Table)
    requires Forest(t, role, leaves, kh) && root in t && Cleared(page, t[root], USER_ENTRIES)
    ensures NoneOwned(role, root)
  {
    forall p | p in role ensures role[p].Root? || role[p].root != root {
      assert UpOk(t, role, p);
    }
  }

  lemma NoneWithoutRoot(t: map<nat, Table>, role: map<nat, Role>, leaves: Leaves, kh: seq<Pte>, root: nat)
    requires Forest(t, role, leaves, kh) && root !in role
    ensures NoneOwned(role, root)
  {
    forall p | p in role ensures role[p].Root? || role[p].root != root {
      assert UpOk(t, role, p);
    }
  }

  lemma NotStale(t: map<nat, Table>, root: nat)
    requires root in t ==> |t[root]| == ENTRIES
    ensures Stale(t, t, {root})
  {
  }

  lemma AgreeNotStale(t: map<nat, Table>, view: map<nat, Table>, root: nat)
    requires Stale(t, view, {root}) && root in t && root in view && t[root] == view[root]
    ensures t == view
  {
  }

  lemma RewriteStale(t: map<nat, Table>, view: map<nat, Table>, root: nat, i: nat)
    requires Stale(t, view, {root}) && root in t && root in view && i < |t[root]| == |view[root]| == ENTRIES && view[root] == t[root][i := ZERO]
    ensures Stale(t[root := t[root][i := ZERO]], view, {root})
  {
  }

  lemma DropStale(t: map<nat, Table>, view: map<nat, Table>, root: nat)
    requires Stale(t, view, {root})
    ensures t - {root} == view - {root} && t.Keys == view.Keys
  {
  }

  /** The entries of the middle table before j are torn down, the others untouched. */
  ghost predicate MidProgress(t: map<nat, Table>, view: map<nat, Table>, pmd: nat, j: nat) {
    && pmd in t && pmd in view && |t[pmd]| == |view[pmd]| == ENTRIES
    && forall h :: 0 <= h < ENTRIES ==> if h < j then !view[pmd][h].f.v else view[pmd][h] == t[pmd][h]
  }

  lemma MidNow(t: map<nat, Table>, view: map<nat, Table>, pmd: nat, j: nat)
    requires MidProgress(t, view, pmd, j) && j < ENTRIES
    ensures pmd in t && pmd in view && |t[pmd]| == |view[pmd]| == ENTRIES && view[pmd][j] == t[pmd][j]
  {
  }

  lemma SlotTorn(t: map<nat, Table>, t1: map<nat, Table>, v: map<nat, Table>, v1: map<nat, Table>, pmd: nat, root: nat, c: nat, j: nat)
    requires SameBut(t, t1, c) && SameBut(v, v1, c) && pmd in t && pmd in v && root in t && root in v && pmd != c && root != c
    requires j < |v[pmd]| && c == Child(v, pmd, j)
    ensures pmd in t1 && pmd in v1 && t1[pmd] == t[pmd] && v1[pmd] == v[pmd] && Child(v1, pmd, j) == c
    ensures SamePage(t, t1, root) && SamePage(v, v1, root)
  {
  }

  lemma SlotFreed(t: map<nat, Table>, t1: map<nat, Table>, t2: map<nat, Table>, v: map<nat, Table>, v1: map<nat, Table>, v2: map<nat, Table>,
                  role: map<nat, Role>, pmd: nat, root: nat, i: nat, c: nat, j: nat)
    requires MidProgress(t, v, pmd, j) && SamePage(t, t1, root) && SamePage(v, v1, root) && root != pmd && root != c && pmd != c
    requires pmd in t1 && pmd in v1 && t1[pmd] == t[pmd] && v1[pmd] == v[pmd] && j < ENTRIES && |v[pmd]| == ENTRIES
    requires SameExcept(t1, t2, c) && SameExcept(v1[pmd := v1[pmd][j := ZERO]], v2, c)
    requires HasRole(role, c, Low(root, i, j))
    ensures MidProgress(t2, v2, pmd, j + 1) && SamePage(t, t2, root) && SamePage(v, v2, root)
    ensures Shrinks(role, role - {c}, root, i)
  {
  }

  lemma SlotSkipped(t: map<nat, Table>, v: map<nat, Table>, role: map<nat, Role>, pmd: nat, root: nat, i: nat, j: nat)
    requires MidProgress(t, v, pmd, j) && j < ENTRIES && pmd in t && j < |t[pmd]| && !t[pmd][j].f.v && root in t && root in v
    ensures MidProgress(t, v, pmd, j + 1) && SamePage(t, t, root) && SamePage(v, v, root) && Shrinks(role, role, root, i)
  {
  }

  lemma VpnNext(i: nat, j: nat)
    ensures Vpn(i, j, 0) <= Vpn(i, j + 1, 0) && Vpn(i, j, ENTRIES) == Vpn(i, j + 1, 0) && Vpn(i, ENTRIES, 0) == Vpn(i + 1, 0, 0)
  {
  }

  predicate SamePage(t: map<nat, Table>, t': map<nat, Table>, p: nat) {
    p in t && p in t' && t'[p] == t[p]
  }

  ghost predicate SameExcept(t: map<nat, Table>, t': map<nat, Table>, c: nat) {
    t' == t - {c}
  }

  /** Only last-level tables of one slot have gone. */
  ghost predicate Shrinks(role: map<nat, Role>, role': map<nat, Role>, root: nat, i: nat) {
    && (forall p :: p in role' ==> p in role && role'[p] == role[p])
    && (forall p :: p in role && p !in role' ==> role[p].Low? && role[p].root == root && role[p].i == i)
  }

  lemma RemoveForest(t: map<nat, Table>, role: map<nat, Role>, leaves: Leaves, kh: seq<Pte>, p: nat, i: nat)
    requires Forest(t, role, leaves, kh) && p in t && p in role && |t[p]| == ENTRIES && !role[p].Low? && i < ENTRIES
    requires (role[p].Root? ==> i < USER_ENTRIES) && Child(t, p, i) in t && NoEntries(t[Child(t, p, i)])
    ensures Forest(RemoveTable(t, p, i), role - {Child(t, p, i)}, leaves, kh) && Child(t, p, i) != p
  {
    ChildRole(t, role, p, i);
    RemoveTableOk(t, role, p, i);
    RemoveTableSync(t, role, leaves, p, i);
  }

  lemma RemoveStale(t: map<nat, Table>, view: map<nat, Table>, stale: set<nat>, p: nat, i: nat)
    requires Stale(t, view, stale + {Child(view, p, i)}) && p in stale && p in view && i < |view[p]| && Child(view, p, i) != p
    ensures Stale(t - {Child(view, p, i)}, RemoveTable(view, p, i), stale) && t.Keys == view.Keys
  {
  }

  lemma StaleMore(t: map<nat, Table>, view: map<nat, Table>, stale: set<nat>, p: nat)
    requires Stale(t, view, stale) && (p in view && p !in stale ==> |view[p]| == ENTRIES)
    ensures Stale(t, view, stale + {p})
  {
  }

  lemma StaleKeys(t: map<nat, Table>, view: map<nat, Table>, stale: set<nat>)
    requires Stale(t, view, stale)
    ensures t.Keys == view.Keys
  {
  }

  lemma SameButRefl(t: map<nat, Table>, p: nat)
    ensures SameBut(t, t, p)
  {
  }

  lemma ClearStale(t: map<nat, Table>, view: map<nat, Table>, stale: set<nat>, p: nat, k: nat)
    requires Stale(t, view, stale) && p !in stale && p in t && p in view && k < |t[p]| == |view[p]|
    ensures Stale(SetEntry(t, p, k, ZERO), SetEntry(view, p, k, ZERO), stale)
    ensures SameBut(t, SetEntry(t, p, k, ZERO), p) && SameBut(view, SetEntry(view, p, k, ZERO), p)
  {
  }

  lemma SameButTrans(a: map<nat, Table>, b: map<nat, Table>, c: map<nat, Table>, p: nat)
    requires SameBut(a, b, p) && SameBut(b, c, p)
    ensures SameBut(a, c, p)
  {
  }

  lemma StaleSame(t: map<nat, Table>, view: map<nat, Table>, stale: set<nat>, p: nat)
    requires Stale(t, view, stale) && p in view && p !in stale
    ensures p in t && t[p] == view[p]
  {
  }

  /** t and view have the same pages; they agree outside the stale pages, and in those every
      entry that view still has is the one in t. */
  ghost predicate Stale(t: map<nat, Table>, view: map<nat, Table>, stale: set<nat>) {
    && t.Keys == view.Keys
    && (forall p :: p in view && p !in stale ==> t[p] == view[p])
    && (forall p :: p in view && p in stale ==> StalePage(t[p], view[p]))
  }

  predicate StalePage(t: Table, v: Table) {
    |t| == |v| == ENTRIES && forall h :: 0 <= h < ENTRIES && v[h].f.v ==> v[h] == t[h]
  }

  ghost predicate SameBut(t: map<nat, Table>, t': map<nat, Table>, p: nat) {
    t'.Keys == t.Keys && forall q :: q in t && q != p ==> t'[q] == t[q]
  }

  lemma VpnEnds()
    ensures Vpn(0, 0, 0) == 0 && Vpn(USER_ENTRIES, 0, 0) == USER_PAGES
  {
  }

  /** A valid entry of a root's user half or of a middle table leads to the table its slot owns. */
  lemma ChildPage(t: map<nat, Table>, role: map<nat, Role>, leaves: Leaves, kh: seq<Pte>, p: nat, i: nat)
    requires Forest(t, role, leaves, kh) && p in role && !role[p].Low? && i < ENTRIES && (role[p].Root? ==> i < USER_ENTRIES)
    requires p in t && |t[p]| == ENTRIES && t[p][i].f.v
    ensures HasRole(role, t[p][i].pa, Below(role, p, i)) && t[p][i].pa in t && |t[t[p][i].pa]| == ENTRIES
    ensures Child(t, p, i) == t[p][i].pa && t[p][i].pa != 0 && t[p][i].pa != p
  {
    assert DownOk(t, role, p, i);
  }

  /** No leaves below an empty entry of a middle table. */
  lemma EmptyMidSlot(t: map<nat, Table>, role: map<nat, Role>, leaves: Leaves, kh: seq<Pte>, p: nat, j: nat)
    requires Forest(t, role, leaves, kh) && p in role && role[p].Mid? && j < ENTRIES
    requires p in t && |t[p]| == ENTRIES && !t[p][j].f.v
    ensures var Mid(r, i) := role[p]; forall v :: Vpn(i, j, 0) <= v < Vpn(i, j + 1, 0) ==> (r, v) !in leaves
  {
    var Mid(r, i) := role[p];
    assert UpOk(t, role, p);
    forall v | Vpn(i, j, 0) <= v < Vpn(i, j + 1, 0) ensures (r, v) !in leaves {
      var k := v - Vpn(i, j, 0);
      VpnParts(i, j, k);
      EmptySlot(t, role, r, i, j, k);
      assert Leaf(t, r, v) == ZERO;
    }
  }

  /** No leaves below an empty entry of a root. */
  lemma EmptyRootSlot(t: map<nat, Table>, role: map<nat, Role>, leaves: Leaves, kh: seq<Pte>, r: nat, i: nat)
    requires Forest(t, role, leaves, kh) && IsRoot(role, r) && i < USER_ENTRIES
    requires r in t && |t[r]| == ENTRIES && !t[r][i].f.v
    ensures forall v :: Vpn(i, 0, 0) <= v < Vpn(i + 1, 0, 0) ==> (r, v) !in leaves
  {
    forall v | Vpn(i, 0, 0) <= v < Vpn(i + 1, 0, 0) ensures (r, v) !in leaves {
      var d := v - Vpn(i, 0, 0);
      VpnParts(i, d / 512, d % 512);
      EmptySlot(t, role, r, i, d / 512, d % 512);
      assert Leaf(t, r, v) == ZERO;
    }
  }

  /** Every leaf holds the address of a page. */
  ghost predicate Paged(l: Leaves) { forall k :: k in l ==> PhysPage(l[k].pa) }

  lemma ForkPaged(m: Mem, src: nat, dst: nat, n: nat)
    requires src != dst && Paged(m.leaves)
    ensures Paged(ForkUpTo(m, src, dst, n).leaves)
  {
    hide PhysPage, ForkUpTo;
    ForkUpToLeaves(m, src, dst, n);
    var l' := ForkUpTo(m, src, dst, n).leaves;
    forall k | k in l' ensures PhysPage(l'[k].pa) {
      assert ForkedAt(m.leaves, l', src, dst, n, k);
    }
  }

  lemma CountedPaged(m: Mem)
    requires DataOk(m)
    ensures Paged(m.leaves)
  {
    forall k | k in m.leaves ensures PhysPage(m.leaves[k].pa) {
      LeafCounted(m, k);
    }
  }

  /** Rewriting an entry with itself is no change. */
  lemma ShareBoth(l: Leaves, a: Key, b: Key)
    requires a in l
    ensures var e := CowShare(l[a]);
            l[a := e][b := e] == if l[a].f.w then l[a := e][b := e] else l[b := e]
  {
  }

  /** Entry k of a last-level table is the leaf of its slot. */
  lemma LowLeaf(t: map<nat, Table>, role: map<nat, Role>, leaves: Leaves, kh: seq<Pte>, l: nat, k: nat)
    requires Forest(t, role, leaves, kh) && l in role && role[l].Low? && k < ENTRIES && l in t && |t[l]| == ENTRIES
    ensures var Low(r, i, j) := role[l];
            var key := (r, Vpn(i, j, k));
            i < USER_ENTRIES && j < ENTRIES && IsRoot(role, r)
            && (t[l][k].f.v <==> key in leaves) && (key in leaves ==> leaves[key] == t[l][k])
  {
    LowEntry(t, role, l, k);
    var Low(r, i, j) := role[l];
    VpnParts(i, j, k);
    assert t[l][k].f.v ==> Leaf(t, r, Vpn(i, j, k)).f.v;
  }

  /** Every step of a walk stays inside table pages, and the leaf it ends at is the mapped one. */
  lemma WalkFacts(t: map<nat, Table>, role: map<nat, Role>, leaves: Leaves, root: nat, va: nat)
    requires TreeOk(t, role) && Sync(t, role, leaves) && IsRoot(role, root) && va < USER_END
    ensures var i, j, k := va / 0x4000_0000 % 512, va / 0x20_0000 % 512, va / 0x1000 % 512;
            && root in t && |t[root]| == ENTRIES
            && (t[root][i].f.v ==>
                  var m := t[root][i].pa;
                  m in t && |t[m]| == ENTRIES && Child(t, root, i) == m
                  && (t[m][j].f.v ==> t[m][j].pa in t && |t[t[m][j].pa]| == ENTRIES && Child(t, m, j) == t[m][j].pa))
            && LeafAt(t, root, i, j, k) == if (root, va / 4096) in leaves then leaves[(root, va / 4096)] else ZERO
  {
    VaParts(va);
    var i, j, k := va / 0x4000_0000 % 512, va / 0x20_0000 % 512, va / 0x1000 % 512;
    assert Leaf(t, root, va / 4096) == LeafAt(t, root, i, j, k);
    assert DownOk(t, role, root, i);
    if t[root][i].f.v { assert DownOk(t, role, t[root][i].pa, j); }
  }

  /** The tables on the way to a mapped page exist. */
  lemma MappedPath(t: map<nat, Table>, role: map<nat, Role>, leaves: Leaves, kh: seq<Pte>, root: nat, va: nat)
    requires Forest(t, role, leaves, kh) && IsRoot(role, root) && va < USER_END
    ensures root in t && |t[root]| == ENTRIES
    ensures (root, va / 4096) in leaves ==>
              var i, j := va / 0x4000_0000 % 512, va / 0x20_0000 % 512;
              t[root][i].f.v && var m := t[root][i].pa; m in t && |t[m]| == ENTRIES && t[m][j].f.v
  {
    WalkFacts(t, role, leaves, root, va);
  }


  /** Table pages keep their role, and new ones are not roots. */
  ghost predicate Grows(role: map<nat, Role>, role': map<nat, Role>) {
    && (forall p :: p in role ==> p in role' && role'[p] == role[p])
    && (forall p :: p in role' && p !in role ==> !role'[p].Root?)
  }

  lemma VaParts(va: nat)
    requires va < USER_END
    ensures var v := va / 4096;
            && v < USER_PAGES && va / 0x4000_0000 % 512 < USER_ENTRIES
            && v == Vpn(va / 0x4000_0000 % 512, va / 0x20_0000 % 512, va / 0x1000 % 512)
            && v / 262144 == va / 0x4000_0000 % 512 && v / 512 % 512 == va / 0x20_0000 % 512 && v % 512 == va / 0x1000 % 512
  {
    var v := va / 4096;
    PartsVpn(v);
    assert v / 262144 == va / 0x4000_0000;
    assert v / 512 == va / 0x20_0000;
  }

  /** The number of iterations of a loop that counts to size in steps of a page. */
  function PagesIn(size: nat): nat { (size + 4095) / 4096 }

  lemma CountedPages(size: nat, n: nat)
    requires size <= n * 4096 && (n > 0 ==> (n - 1) * 4096 < size)
    ensures n == PagesIn(size)
  {
  }

  /** The leaf map after mapping the page of address va. */
  function WithLeaf(l: Leaves, root: nat, va: nat, pa: nat, prot: Flags): Leaves {
    l[(root, va / 4096) := Pte(pa, prot.(v := true))]
  }

  /** n consecutive pages from address va mapped to consecutive physical pages from pa. */
  function MapRun(l: Leaves, root: nat, va: nat, n: nat, pa: nat, prot: Flags): Leaves {
    if n == 0 then l else WithLeaf(MapRun(l, root, va, n - 1, pa, prot), root, va + (n - 1) * 4096, pa + (n - 1) * 4096, prot)
  }

  lemma MapRunStep(l: Leaves, root: nat, va: nat, n: nat, i: nat, pa: nat, prot: Flags)
    requires i == n * 4096
    ensures MapRun(l, root, va, n + 1, pa, prot) == WithLeaf(MapRun(l, root, va, n, pa, prot), root, va + i, pa + i, prot)
  {
  }

  /** map_pages gives every page of the run its address and permissions and changes no other
      page of any root. */
  lemma {:induction false} MapRunLeaves(l: Leaves, root: nat, va: nat, n: nat, pa: nat, prot: Flags, k: Key)
    requires va % 4096 == 0
    ensures var l', v := MapRun(l, root, va, n, pa, prot), va / 4096;
            if k.0 == root && v <= k.1 < v + n
            then k in l' && l'[k] == Pte(pa + (k.1 - v) * 4096, prot.(v := true))
            else (k in l' <==> k in l) && (k in l ==> l'[k] == l[k])
    decreases n
  {
    if n > 0 {
      MapRunLeaves(l, root, va, n - 1, pa, prot, k);
      assert (va + (n - 1) * 4096) / 4096 == va / 4096 + (n - 1);
    }
  }

  /** One more table, below entry i of page p. */
  ghost predicate Grown(t: map<nat, Table>, role: map<nat, Role>, t': map<nat, Table>, role': map<nat, Role>, p: nat, i: nat) {
    && p in t && i < |t[p]| && p in role && !role[p].Low?
    && var c := Child(t', p, i);
       c != 0 && c !in t && t' == AddTable(t, p, i, c) && role' == role[c := Below(role, p, i)]
  }

  lemma EmptyMem(m: Mem)
    requires m.leaves == map[] && m.data == map[] && |m.refs| == NUM_PAGES && forall i :: 0 <= i < NUM_PAGES ==> m.refs[i] == 0
    ensures MemInv(m)
  {
    forall p | Counted(p) ensures Mappers(m.leaves, p) == {} && m.refs[PageIdx(p)] == 0 {
      PageIdxInjective(p, p);
    }
    assert MappedPages(m.leaves) == {};
  }
}
