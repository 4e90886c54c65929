/** sys_mmap (lab7/src/syscall.c:376-455): where a region is placed, and populating it. */
module Mmap {
  import opened Pte
  import opened PageTree
  import opened VmModel
  import opened VmSystem
  import opened VmInvariant
  import opened Paging
  import FaultHandler

  const WORD := 0x1_0000_0000_0000_0000
  const MMAP_BASE := 0x6000_0000
  const MAX_VMAS := 32

  type word = w: nat | w < WORD

  function Add(a: word, b: word): word { (a + b) % WORD }

  /** align(n, 4096) in 64-bit arithmetic */
  function AlignUp(n: word): (r: word)
    ensures r % 4096 == 0
    ensures n <= WORD - 4096 ==> n <= r < n + 4096
  {
    Add(n, 4095) / 4096 * 4096
  }

  /** An interval meets a region, the stack, or the image. */
  predicate Meets(t: Task, i: nat, start: nat, end: nat)
    requires i < |t.vmas|
  {
    start < t.vmas[i].end && end > t.vmas[i].start
  }

  ghost predicate Overlaps(t: Task, start: nat, end: nat) {
    || (exists i :: 0 <= i < |t.vmas| && Meets(t, i, start, end))
    || (start < STACK_LOW + STACK_SIZE && end > STACK_LOW)
    || start < |t.code|
  }

  /** An address that belongs to a region, the stack or the image. */
  ghost predicate Taken(t: Task, x: nat) {
    || (exists i :: 0 <= i < |t.vmas| && t.vmas[i].start <= x < t.vmas[i].end)
    || STACK_LOW <= x < STACK_LOW + STACK_SIZE
    || x < |t.code|
  }

  /** An interval that is not empty overlaps exactly when one of its addresses is taken. */
  lemma OverlapsIff(t: Task, start: nat, end: nat)
    requires VmasOk(t) && start < end
    ensures Overlaps(t, start, end) <==> exists x :: start <= x < end && Taken(t, x)
  {
    if Overlaps(t, start, end) {
      if i :| 0 <= i < |t.vmas| && Meets(t, i, start, end) {
        assert VmaOk(t, i);
        assert Taken(t, if start < t.vmas[i].start then t.vmas[i].start else start);
      } else if start < |t.code| {
        assert Taken(t, start);
      } else {
        assert Taken(t, if start < STACK_LOW then STACK_LOW else start);
      }
    }
    if x :| start <= x < end && Taken(t, x) {
      if i :| 0 <= i < |t.vmas| && t.vmas[i].start <= x < t.vmas[i].end {
        assert Meets(t, i, start, end);
      }
    }
  }

  /** check_vma_overlap */
  method CheckVmaOverlap(t: Task, start: nat, end: nat) returns (r: bool)
    ensures r <==> Overlaps(t, start, end)
  {
    var i := 0;
    while i < |t.vmas|
      invariant 0 <= i <= |t.vmas| && forall h :: 0 <= h < i ==> !Meets(t, h, start, end)
    {
      if start < t.vmas[i].end && end > t.vmas[i].start {
        assert Meets(t, i, start, end);
        return true;
      }
      i := i + 1;
    }
    if start < STACK_LOW + STACK_SIZE && end > STACK_LOW { return true; }
    if start < |t.code| { return true; }
    return false;
  }

  /** Where a region that starts at base would end, while the search counts up from MMAP_BASE. */
  function SearchEnd(base: nat, length: word): int
    requires base >= MMAP_BASE
  {
    Add(MMAP_BASE, length) + (base - MMAP_BASE)
  }

  /** A base the search may return. */
  ghost predicate Candidate(t: Task, base: nat, length: word) {
    base % 4096 == 0 && MMAP_BASE <= base && SearchEnd(base, length) <= STACK_LOW && !Overlaps(t, base, SearchEnd(base, length))
  }

  lemma SearchStep(base: word, length: word)
    requires MMAP_BASE <= base && SearchEnd(base, length) <= STACK_LOW + 4096
    ensures SearchEnd(base, length) == Add(base, length)
    ensures base <= MMAP_BASE + STACK_LOW + 4096 && SearchEnd(base + 4096, length) == SearchEnd(base, length) + 4096
  {
  }

  /** find_free_vma_space: the lowest candidate, or 0 when there is none. */
  method FindFreeVmaSpace(t: Task, length: word) returns (r: word)
    ensures r != 0 ==> Candidate(t, r, length) && forall b :: Candidate(t, b, length) ==> r <= b
    ensures r == 0 ==> forall b :: !Candidate(t, b, length)
  {
    hide Overlaps, SearchEnd;
    var base: word := MMAP_BASE;
    SearchStarts(length);
    if Add(base, length) <= STACK_LOW {
      SearchStep(base, length);
    }
    while Add(base, length) <= STACK_LOW
      invariant base % 4096 == 0 && MMAP_BASE <= base
      invariant SearchEnd(base, length) == Add(base, length) && (SearchEnd(base, length) <= STACK_LOW + 4096 || base == MMAP_BASE)
      invariant forall b :: Candidate(t, b, length) ==> base <= b
      decreases STACK_LOW + 4096 - Add(base, length)
    {
      SearchStep(base, length);
      var busy := CheckVmaOverlap(t, base, Add(base, length));
      if !busy { return base; }
      base := Add(base, 4096);
      SearchStep(base, length);
    }
    forall b ensures !Candidate(t, b, length) {
      if Candidate(t, b, length) { SearchGrows(base, b, length); }
    }
    return 0;
  }

  lemma SearchStarts(length: word)
    ensures SearchEnd(MMAP_BASE, length) == Add(MMAP_BASE, length)
  {
  }

  lemma SearchGrows(base: nat, b: nat, length: word)
    requires MMAP_BASE <= base <= b
    ensures SearchEnd(base, length) <= SearchEnd(b, length)
  {
  }

  /** The address is usable as given. */
  ghost predicate HintFits(t: Task, addr: word, length: word) {
    addr != 0 && addr % 4096 == 0 && !Overlaps(t, addr, Add(addr, length))
  }

  /** The start that sys_mmap chooses: the hint, or the lowest candidate. */
  ghost predicate Chosen(t: Task, addr: word, length: word, start: nat) {
    if HintFits(t, addr, length) then start == addr
    else Candidate(t, start, length) && forall b :: Candidate(t, b, length) ==> start <= b
  }

  datatype Placement = Placed(vma: Vma) | Refused

  /** sys_mmap up to the region table, in the code's 64-bit arithmetic: it refuses exactly when the
      table is full, the length is zero after rounding, or there is neither a usable hint nor a
      candidate. */
  method Place(t: Task, addr: word, length: word, prot: nat) returns (r: Placement)
    ensures r.Placed? ==> |t.vmas| < MAX_VMAS && AlignUp(length) > 0
    ensures r.Placed? ==> r.vma.prot == prot && r.vma.start < WORD && r.vma.end == Add(r.vma.start, AlignUp(length))
    ensures r.Placed? ==> Chosen(t, addr, AlignUp(length), r.vma.start)
    ensures r.Refused? <==> |t.vmas| >= MAX_VMAS || AlignUp(length) == 0
                            || (!HintFits(t, addr, AlignUp(length)) && forall b :: !Candidate(t, b, AlignUp(length)))
  {
    hide Overlaps, AlignUp, SearchEnd;
    if |t.vmas| >= MAX_VMAS { return Refused; }
    var len := AlignUp(length);
    if len == 0 { return Refused; }
    var start := addr;
    var busy := CheckVmaOverlap(t, start, Add(start, len));
    if start == 0 || start % 4096 != 0 || busy {
      start := FindFreeVmaSpace(t, len);
      if start == 0 { return Refused; }
    }
    return Placed(Vma(start, Add(start, len), prot));
  }

  /** No sum in the placement wraps, and a hint that is used lies in the user half. */
  ghost predicate NoWrap(t: Task, addr: word, length: word) {
    if HintFits(t, addr, length) then addr < USER_END && addr + length < WORD else MMAP_BASE + length < WORD
  }

  /** The region that sys_mmap records is page-aligned, below the stack, above the image and apart
      from the others exactly when nothing wraps and a used hint lies in the user half: the code
      checks neither. */
  lemma PlacedOkIff(t: Task, addr: word, length: word, m: Vma)
    requires VmasOk(t) && |t.code| <= STACK_LOW && length % 4096 == 0 && 0 < length
    requires m.start < WORD && Chosen(t, addr, length, m.start) && m.end == Add(m.start, length)
    ensures VmasOk(t.(vmas := t.vmas + [m])) <==> NoWrap(t, addr, length)
  {
    hide VmasOk, Overlaps, Candidate;
    var t' := t.(vmas := t.vmas + [m]);
    var n := |t.vmas|;
    ChosenEnd(t, addr, length, m.start);
    if NoWrap(t, addr, length) {
      FreePlaceOk(t, m);
    } else {
      assert t'.vmas[n] == m && !VmaOk(t', n);
      BadVma(t', n);
    }
  }

  lemma BadVma(t: Task, i: nat)
    requires i < |t.vmas| && !VmaOk(t, i)
    ensures !VmasOk(t)
  {
  }

  /** The end of the chosen region lies behind its start and below the stack, or sums wrapped. */
  lemma ChosenEnd(t: Task, addr: word, length: word, start: nat)
    requires |t.code| <= STACK_LOW && length % 4096 == 0 && 0 < length && start < WORD && Chosen(t, addr, length, start)
    ensures start % 4096 == 0 && !Overlaps(t, start, Add(start, length))
    ensures NoWrap(t, addr, length) ==> start < USER_END && Add(start, length) == start + length
    ensures !NoWrap(t, addr, length) ==> start >= Add(start, length) || start >= USER_END
  {
    hide VmasOk;
    if !HintFits(t, addr, length) { SearchStep(start, length); }
  }

  lemma FreePlaceOk(t: Task, m: Vma)
    requires VmasOk(t) && m.start % 4096 == 0 && m.end % 4096 == 0 && m.start < m.end && m.start < USER_END
    requires !Overlaps(t, m.start, m.end)
    ensures VmasOk(t.(vmas := t.vmas + [m]))
  {
    var t' := t.(vmas := t.vmas + [m]);
    var n := |t.vmas|;
    forall i | 0 <= i < |t'.vmas| ensures VmaOk(t', i) {
      if i < n { assert VmaOk(t, i); }
    }
    forall i, j | 0 <= i < j < |t'.vmas| ensures VmasApart(t', i, j) {
      if j < n {
        assert VmasApart(t, i, j);
      } else {
        assert !Meets(t, i, m.start, m.end);
      }
    }
  }

  lemma NewTaskOk(m: Vma)
    ensures var t := Task(1, [], [], false);
            VmasOk(t) && t.(vmas := t.vmas + [m]) == t.(vmas := [m])
            && forall start: nat, end: nat :: Overlaps(t, start, end) <==> start < STACK_LOW + STACK_SIZE && end > STACK_LOW
  {
  }

  /** A page-aligned hint in the kernel half is accepted as it stands. */
  lemma KernelHalfHintAccepted()
    ensures var t, m := Task(1, [], [], false), Vma(0xffff_ffc0_0000_0000, 0xffff_ffc0_0000_1000, 3);
            Chosen(t, 0xffff_ffc0_0000_0000, 4096, m.start) && m.end == Add(m.start, 4096) && !VmasOk(t.(vmas := [m]))
  {
    var t, m := Task(1, [], [], false), Vma(0xffff_ffc0_0000_0000, 0xffff_ffc0_0000_1000, 3);
    NewTaskOk(m);
    PlacedOkIff(t, 0xffff_ffc0_0000_0000, 4096, m);
  }

  /** Without any hint, a length whose sum with the base of the search wraps to zero is accepted:
      the region recorded ends before it starts. */
  lemma WrappedLengthAccepted()
    ensures var t, m := Task(1, [], [], false), Vma(MMAP_BASE, 0, 3);
            Chosen(t, 0, AlignUp(0xffff_ffff_a000_0000), m.start) && m.end == Add(m.start, AlignUp(0xffff_ffff_a000_0000))
            && !VmasOk(t.(vmas := [m]))
  {
    var t, m := Task(1, [], [], false), Vma(MMAP_BASE, 0, 3);
    NewTaskOk(m);
    assert AlignUp(0xffff_ffff_a000_0000) == 0xffff_ffff_a000_0000;
    PlacedOkIff(t, 0, 0xffff_ffff_a000_0000, m);
  }

  // ---------------------------------------------------------------- MAP_POPULATE

  /** The loop that maps every page of the new region at once.  It stops early when the heap is
      empty; the region stays recorded, with the pages mapped so far. */
  method PopulateRegion(a: AddressSpaces, root: nat, start: nat, length: nat, prot: nat)
    returns (r: MapResult, ghost pages: seq<nat>)
    requires a.Valid() && IsRoot(a.role, root) && start % 4096 == 0 && length % 4096 == 0 && start + length <= USER_END
    requires Unmapped(a.leaves, root, start / 4096, length / 4096)
    modifies a`tables, a`role, a`leaves, a`data, a`active, a`log, a.refs
    ensures r != NoTable ==> a.Valid() && Grows(old(a.role), a.role) && |pages| <= length / 4096
    ensures r != NoTable ==> AllFresh(old(a.Abs()), pages)
                             && a.Abs() == Populate(old(a.Abs()), root, start / 4096, pages, VmaFlags(prot))
    ensures r == Mapped ==> |pages| == length / 4096
  {
    hide AddressSpaces.Valid, AddressSpaces.Shape, MapPage, MemInv, ZeroPage, VmaFlags, Grows, Populate, AllFresh, Unmapped;
    var f := FaultHandler.PagePermissions(prot);
    ghost var m := a.Abs();
    pages := [];
    var offset := 0;
    r := Mapped;
    NothingPopulated(m, root, start / 4096, f);
    GrowsItself(a.role);
    ValidMem(a);
    while offset < length
      invariant 0 <= offset <= length && offset % 4096 == 0 && offset == |pages| * 4096 && a.Valid() && IsRoot(a.role, root)
      invariant Grows(old(a.role), a.role) && AllFresh(m, pages)
      invariant a.Abs() == Populate(m, root, start / 4096, pages, f)
    {
      ghost var before, role := a.Abs(), a.role;
      var p;
      r, p := a.DemandPage(root, start + offset, ZeroPage(), f);
      if r != Mapped { return; }
      PageOfOffset(start, offset, |pages|);
      PopulateStep(m, root, start / 4096, pages, p, f, length / 4096);
      GrowsRoot(old(a.role), role, a.role, root);
      ShapeValid(a);
      pages := pages + [p];
      offset := offset + 4096;
    }
  }

  lemma NothingPopulated(m: Mem, root: nat, v: nat, f: Flags)
    ensures Populate(m, root, v, [], f) == m && AllFresh(m, [])
  {
  }

  lemma PageOfOffset(start: nat, offset: nat, n: nat)
    requires start % 4096 == 0 && offset == n * 4096
    ensures (start + offset) / 4096 == start / 4096 + n
  {
  }

  /** One more page is populating a sequence that is one longer. */
  lemma PopulateStep(m: Mem, root: nat, v: nat, pages: seq<nat>, p: nat, f: Flags, n: nat)
    requires MemInv(m) && AllFresh(m, pages) && Unmapped(m.leaves, root, v, n) && |pages| < n
    requires Counted(p) && p !in Populate(m, root, v, pages, f).data
    ensures MapPage(Populate(m, root, v, pages, f), (root, v + |pages|), p, f, ZeroPage()) == Populate(m, root, v, pages + [p], f)
    ensures AllFresh(m, pages + [p]) && MemInv(Populate(m, root, v, pages + [p], f))
  {
    hide MemInv, MapPage, ZeroPage, Counted;
    assert (pages + [p])[..|pages|] == pages;
    PopulateData(m, root, v, pages, f);
    assert AllFresh(m, pages + [p]);
    PopulateInv(m, root, v, pages + [p], f);
  }

  lemma ShapeValid(a: AddressSpaces)
    requires a.Shape() && MemInv(a.Abs())
    ensures a.Valid()
  {
  }

  lemma ValidMem(a: AddressSpaces)
    requires a.Valid()
    ensures MemInv(a.Abs())
  {
  }

  lemma GrowsRoot(role: map<nat, Role>, role': map<nat, Role>, role'': map<nat, Role>, root: nat)
    requires Grows(role, role') && Grows(role', role'') && IsRoot(role', root)
    ensures Grows(role, role'') && IsRoot(role'', root)
  {
  }

  lemma GrowsItself(role: map<nat, Role>)
    ensures Grows(role, role)
  {
  }
}
