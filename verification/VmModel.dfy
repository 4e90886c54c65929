/** User memory as the page-table code keeps it: leaf entries, one-byte reference counts and
    page contents (lab7/src/paging.c:29-59, 163-459), on values. */
module VmModel {
  import opened Bytes
  import opened Pte

  const PAGE_SIZE := 4096
  const RAM_START := 0x8000_0000
  const NUM_PAGES := 0x4_0000

  type Key = (nat, nat)  // page-table root and virtual page number
  type Leaves = map<Key, Pte>

  datatype Mem = Mem(leaves: Leaves, refs: seq<int>, data: map<nat, seq<byte>>)

  // ---------------------------------------------------------------- reference counts

  /** (pa - RAM_START) >> 12 in unsigned 64-bit arithmetic */
  function PageIdx(pa: nat): nat {
    if pa < RAM_START then (pa + 0x1_0000_0000_0000_0000 - RAM_START) / PAGE_SIZE else (pa - RAM_START) / PAGE_SIZE
  }

  /** A page of the RAM that the reference counts cover. */
  predicate Counted(p: nat) {
    p % PAGE_SIZE == 0 && RAM_START <= p < RAM_START + NUM_PAGES * PAGE_SIZE
  }

  lemma PageIdxInjective(p: nat, q: nat)
    requires Counted(p) && Counted(q)
    ensures PageIdx(p) < NUM_PAGES
    ensures PageIdx(p) == PageIdx(q) <==> p == q
  {
  }

  /** increment_page_ref: the count is an unsigned char and wraps */
  function Increment(refs: seq<int>, pa: nat): (r: seq<int>)
    ensures |r| == |refs|
  {
    if PageIdx(pa) < |refs| then refs[PageIdx(pa) := (refs[PageIdx(pa)] + 1) % 256] else refs
  }

  /** decrement_page_ref: the new counts and the count it returns */
  function Decrement(refs: seq<int>, pa: nat): (r: (seq<int>, int))
    ensures |r.0| == |refs|
  {
    if PageIdx(pa) < |refs| then
      var n := if refs[PageIdx(pa)] > 0 then refs[PageIdx(pa)] - 1 else refs[PageIdx(pa)];
      (refs[PageIdx(pa) := n], n)
    else (refs, 0)
  }

  /** set_page_ref_init */
  function SetOne(refs: seq<int>, pa: nat): (r: seq<int>)
    ensures |r| == |refs|
  {
    if PageIdx(pa) < |refs| then refs[PageIdx(pa) := 1] else refs
  }

  // ---------------------------------------------------------------- invariant

  /** The leaf entries, over all page tables, that map page p. */
  function Mappers(l: Leaves, p: nat): set<Key> {
    set m | m in l && l[m].pa == p
  }

  function MappedPages(l: Leaves): set<nat> {
    set m | m in l :: l[m].pa
  }

  /** Every count is the number of mappers of its page. */
  ghost predicate RefsExact(l: Leaves, refs: seq<int>) {
    |refs| == NUM_PAGES && forall p :: Counted(p) ==> refs[PageIdx(p)] == |Mappers(l, p)|
  }

  /** Every count is the number of mappers of its page, modulo the width of the counter. */
  ghost predicate RefsModulo(l: Leaves, refs: seq<int>) {
    |refs| == NUM_PAGES && forall p :: Counted(p) ==> refs[PageIdx(p)] == |Mappers(l, p)| % 256
  }

  /** No page has more mappers than the counter can hold. */
  ghost predicate FewMappers(l: Leaves) {
    forall p :: Counted(p) ==> |Mappers(l, p)| < 256
  }

  /** A page that some leaf can write has that leaf as its only mapper. */
  ghost predicate WritersAlone(l: Leaves) {
    forall m, m' :: m in l && m' in l && l[m].f.w && l[m'].pa == l[m].pa ==> m' == m
  }

  /** The contents held are exactly those of the mapped pages. */
  ghost predicate DataOk(m: Mem) {
    && m.data.Keys == MappedPages(m.leaves)
    && (forall p :: p in m.data ==> Counted(p) && |m.data[p]| == PAGE_SIZE)
  }

  ghost predicate MemInv(m: Mem) {
    RefsExact(m.leaves, m.refs) && FewMappers(m.leaves) && WritersAlone(m.leaves) && DataOk(m)
  }

  lemma ExactIsModulo(l: Leaves, refs: seq<int>)
    requires RefsModulo(l, refs)
    ensures RefsExact(l, refs) <==> FewMappers(l)
  {
    if RefsExact(l, refs) {
      forall p | Counted(p) ensures |Mappers(l, p)| < 256 {
        assert refs[PageIdx(p)] == |Mappers(l, p)| % 256;
      }
    }
    if FewMappers(l) {
      forall p | Counted(p) ensures refs[PageIdx(p)] == |Mappers(l, p)| {
        assert |Mappers(l, p)| < 256;
      }
    }
  }

  /** Hence a page with a writable leaf has reference count exactly one: hardware can never
      write a shared page. */
  lemma WritableCountIsOne(m: Mem, k: Key)
    requires MemInv(m) && k in m.leaves && m.leaves[k].f.w
    ensures Counted(m.leaves[k].pa) && m.refs[PageIdx(m.leaves[k].pa)] == 1
  {
    assert m.leaves[k].pa in MappedPages(m.leaves);
    assert Mappers(m.leaves, m.leaves[k].pa) == {k};
  }

  // ---------------------------------------------------------------- mapping a page

  /** set_page_ref_init and map_pages of one new page: install leaf k on page p. */
  function MapPage(m: Mem, k: Key, p: nat, f: Flags, bytes: seq<byte>): Mem {
    Mem(m.leaves[k := Pte(p, f.(v := true))], SetOne(m.refs, p), m.data[p := bytes])
  }

  lemma MappersAfterMap(l: Leaves, k: Key, e: Pte, q: nat)
    ensures Mappers(l[k := e], q) == (Mappers(l, q) - {k}) + (if e.pa == q then {k} else {})
  {
  }

  lemma NewPageUnmapped(m: Mem, p: nat)
    requires DataOk(m) && p !in m.data
    ensures Mappers(m.leaves, p) == {} && forall k :: k in m.leaves ==> m.leaves[k].pa != p
  {
    forall k | k in m.leaves ensures m.leaves[k].pa != p {
      assert m.leaves[k].pa in MappedPages(m.leaves);
    }
  }

  /** The count of page q is its number of mappers, which it can hold. */
  predicate CountExact(l: Leaves, refs: seq<int>, q: nat) {
    |refs| == NUM_PAGES && PageIdx(q) < NUM_PAGES && refs[PageIdx(q)] == |Mappers(l, q)| < 256
  }

  lemma MapPageCount(m: Mem, k: Key, p: nat, f: Flags, bytes: seq<byte>, q: nat)
    requires MemInv(m) && p !in m.data && Counted(p) && k !in m.leaves && Counted(q)
    ensures CountExact(MapPage(m, k, p, f, bytes).leaves, MapPage(m, k, p, f, bytes).refs, q)
  {
    hide WritersAlone, DataOk;
    NewPageUnmapped(m, p);
    MappersAfterMap(m.leaves, k, Pte(p, f.(v := true)), q);
    PageIdxInjective(p, q);
    PageIdxInjective(q, q);
    hide PageIdx, Counted;
    assert |Mappers(m.leaves, q)| < 256;
    assert k !in Mappers(m.leaves, q);
  }

  lemma MapPageRefs(m: Mem, k: Key, p: nat, f: Flags, bytes: seq<byte>)
    requires MemInv(m) && p !in m.data && Counted(p) && k !in m.leaves
    ensures RefsExact(MapPage(m, k, p, f, bytes).leaves, MapPage(m, k, p, f, bytes).refs)
    ensures FewMappers(MapPage(m, k, p, f, bytes).leaves)
  {
    hide MemInv, PageIdx, Mappers, SetOne;
    var m' := MapPage(m, k, p, f, bytes);
    SameLength(m, k, p, f, bytes);
    forall q | Counted(q) ensures CountExact(m'.leaves, m'.refs, q) {
      MapPageCount(m, k, p, f, bytes, q);
    }
  }

  lemma SameLength(m: Mem, k: Key, p: nat, f: Flags, bytes: seq<byte>)
    requires MemInv(m)
    ensures |MapPage(m, k, p, f, bytes).refs| == |m.refs| == NUM_PAGES
  {
  }

  /** Demand paging keeps the invariant where the page had no leaf. */
  lemma MapPageInv(m: Mem, k: Key, p: nat, f: Flags, bytes: seq<byte>)
    requires MemInv(m) && p !in m.data && Counted(p) && |bytes| == PAGE_SIZE && k !in m.leaves
    ensures MemInv(MapPage(m, k, p, f, bytes))
  {
    hide RefsExact, FewMappers, Counted, SetOne;
    var m' := MapPage(m, k, p, f, bytes);
    MapPageRefs(m, k, p, f, bytes);
    NewPageUnmapped(m, p);
    assert MappedPages(m'.leaves) == MappedPages(m.leaves) + {p} by {
      assert m'.leaves[k].pa == p;
      forall q | q in MappedPages(m.leaves) ensures q in MappedPages(m'.leaves) {
        var h :| h in m.leaves && m.leaves[h].pa == q;
        assert m'.leaves[h].pa == q;
      }
    }
  }

  /** The stack and code branches map without looking for an existing leaf; the invariant
      survives exactly when there was none. */
  lemma MapPageInvIff(m: Mem, k: Key, p: nat, f: Flags, bytes: seq<byte>)
    requires MemInv(m) && p !in m.data && Counted(p) && |bytes| == PAGE_SIZE
    ensures MemInv(MapPage(m, k, p, f, bytes)) <==> k !in m.leaves
  {
    if k in m.leaves {
      var m' := MapPage(m, k, p, f, bytes);
      var q := m.leaves[k].pa;
      assert q in MappedPages(m.leaves);
      MappersAfterMap(m.leaves, k, Pte(p, f.(v := true)), q);
      PageIdxInjective(p, q);
      assert k in Mappers(m.leaves, q);
      assert |Mappers(m'.leaves, q)| == |Mappers(m.leaves, q)| - 1;
      assert m'.refs[PageIdx(q)] == m.refs[PageIdx(q)];
    } else {
      MapPageInv(m, k, p, f, bytes);
    }
  }

  // ---------------------------------------------------------------- dropping a leaf

  /** Remove leaf k, decrement the count of its page and free the page when it reaches zero. */
  function DropLeaf(m: Mem, k: Key): Mem
    requires k in m.leaves
  {
    var (refs, n) := Decrement(m.refs, m.leaves[k].pa);
    Mem(m.leaves - {k}, refs, if n == 0 then m.data - {m.leaves[k].pa} else m.data)
  }

  lemma MappersAfterDrop(l: Leaves, k: Key, q: nat)
    requires k in l
    ensures Mappers(l - {k}, q) == Mappers(l, q) - {k}
    ensures |Mappers(l - {k}, q)| == |Mappers(l, q)| - (if l[k].pa == q then 1 else 0)
  {
    assert k in Mappers(l, q) <==> l[k].pa == q;
  }

  lemma DropLeafRefs(m: Mem, k: Key)
    requires MemInv(m) && k in m.leaves
    ensures RefsExact(DropLeaf(m, k).leaves, DropLeaf(m, k).refs) && FewMappers(DropLeaf(m, k).leaves)
  {
    var m' := DropLeaf(m, k);
    var p := m.leaves[k].pa;
    assert p in MappedPages(m.leaves);
    assert k in Mappers(m.leaves, p);
    forall q | Counted(q) ensures m'.refs[PageIdx(q)] == |Mappers(m'.leaves, q)| < 256 {
      MappersAfterDrop(m.leaves, k, q);
      PageIdxInjective(p, q);
      assert |Mappers(m.leaves, q)| < 256;
    }
  }

  lemma DropLeafFreesSole(m: Mem, k: Key)
    requires MemInv(m) && k in m.leaves
    ensures m.leaves[k].pa in m.data
    ensures Decrement(m.refs, m.leaves[k].pa).1 == 0 <==> Mappers(m.leaves, m.leaves[k].pa) == {k}
  {
    var p := m.leaves[k].pa;
    assert p in MappedPages(m.leaves);
    assert k in Mappers(m.leaves, p);
    MappersAfterDrop(m.leaves, k, p);
    PageIdxInjective(p, p);
    assert Decrement(m.refs, p).1 == |Mappers(m.leaves - {k}, p)|;
  }

  /** A sole owner's page is freed, a shared page is not, and the invariant is kept. */
  lemma DropLeafInv(m: Mem, k: Key)
    requires MemInv(m) && k in m.leaves
    ensures MemInv(DropLeaf(m, k)) && m.leaves[k].pa in m.data
    ensures m.leaves[k].pa in DropLeaf(m, k).data <==> Mappers(m.leaves, m.leaves[k].pa) != {k}
  {
    DropLeafRefs(m, k);
    DropLeafFreesSole(m, k);
    var m' := DropLeaf(m, k);
    forall q ensures q in MappedPages(m'.leaves) <==> q in m'.data {
      MappersAfterDrop(m.leaves, k, q);
      MappedIffMapper(m.leaves, q);
      MappedIffMapper(m'.leaves, q);
    }
  }

  lemma MappedIffMapper(l: Leaves, q: nat)
    ensures q in MappedPages(l) <==> Mappers(l, q) != {}
  {
    if q in MappedPages(l) {
      var h :| h in l && l[h].pa == q;
      assert h in Mappers(l, q);
    }
    if Mappers(l, q) != {} {
      var h :| h in Mappers(l, q);
      assert l[h].pa == q;
    }
  }

  // ---------------------------------------------------------------- copy on write

  /** The copy-on-write branch of the fault handler: a private copy on page p for leaf k. */
  function BreakShare(m: Mem, k: Key, p: nat): Mem
    requires k in m.leaves && m.leaves[k].pa in m.data
  {
    var old_ := m.leaves[k];
    var (refs, n) := Decrement(SetOne(m.refs, p), old_.pa);
    var data := m.data[p := m.data[old_.pa]];
    Mem(m.leaves[k := Pte(p, Unshared(old_.f).(v := true))], refs, if n == 0 then data - {old_.pa} else data)
  }

  /** Counting one page down commutes with setting the count of another. */
  lemma CountsCommute(refs: seq<int>, p: nat, q: nat)
    requires Counted(p) && Counted(q) && p != q
    ensures Decrement(SetOne(refs, p), q).0 == SetOne(Decrement(refs, q).0, p)
    ensures Decrement(SetOne(refs, p), q).1 == Decrement(refs, q).1
  {
    PageIdxInjective(p, q);
    hide PageIdx, Counted;
    assert Decrement(SetOne(refs, p), q).0 == SetOne(Decrement(refs, q).0, p);
  }

  lemma LeafCounted(m: Mem, k: Key)
    requires DataOk(m) && k in m.leaves
    ensures m.leaves[k].pa in m.data && Counted(m.leaves[k].pa)
  {
    assert m.leaves[k].pa in MappedPages(m.leaves);
  }

  /** Mapping the copy is dropping the old leaf and mapping the new page. */
  lemma BreakShareIsDropAndMap(m: Mem, k: Key, p: nat)
    requires MemInv(m) && k in m.leaves && p !in m.data && Counted(p)
    ensures m.leaves[k].pa in m.data
    ensures BreakShare(m, k, p) == MapPage(DropLeaf(m, k), k, p, Unshared(m.leaves[k].f), m.data[m.leaves[k].pa])
  {
    hide RefsExact, FewMappers, WritersAlone, DataOk, Counted, Decrement, SetOne;
    LeafCounted(m, k);
    CountsCommute(m.refs, p, m.leaves[k].pa);
    var e := Pte(p, Unshared(m.leaves[k].f).(v := true));
    assert m.leaves[k := e] == (m.leaves - {k})[k := e];
    assert m.data[p := m.data[m.leaves[k].pa]] - {m.leaves[k].pa} == (m.data - {m.leaves[k].pa})[p := m.data[m.leaves[k].pa]];
  }

  lemma BreakShareInv(m: Mem, k: Key, p: nat)
    requires MemInv(m) && k in m.leaves && p !in m.data && Counted(p)
    ensures m.leaves[k].pa in m.data && MemInv(BreakShare(m, k, p))
  {
    BreakShareIsDropAndMap(m, k, p);
    DropLeafInv(m, k);
    MapPageInv(DropLeaf(m, k), k, p, Unshared(m.leaves[k].f), m.data[m.leaves[k].pa]);
  }

  // ---------------------------------------------------------------- fork

  /** The innermost step of fork_copy_page_table_cow for virtual page v. */
  function ForkLeaf(m: Mem, src: nat, dst: nat, v: nat): Mem {
    if (src, v) in m.leaves then
      var e := CowShare(m.leaves[(src, v)]);
      Mem(m.leaves[(src, v) := e][(dst, v) := e], Increment(m.refs, e.pa), m.data)
    else m
  }

  /** The walk over the virtual pages below n, in ascending order. */
  function ForkUpTo(m: Mem, src: nat, dst: nat, n: nat): Mem {
    if n == 0 then m else ForkLeaf(ForkUpTo(m, src, dst, n - 1), src, dst, n - 1)
  }

  lemma ForkUpToZero(m: Mem, src: nat, dst: nat, n: nat)
    requires n == 0
    ensures ForkUpTo(m, src, dst, n) == m
  {
  }

  lemma ForkUpToStep(m: Mem, src: nat, dst: nat, n: nat)
    ensures ForkUpTo(m, src, dst, n + 1) == ForkLeaf(ForkUpTo(m, src, dst, n), src, dst, n)
  {
  }

  /** What the walk has done to leaf k so far. */
  ghost predicate ForkedAt(l: Leaves, l': Leaves, src: nat, dst: nat, n: nat, k: Key) {
    if k.0 == src then (k in l' <==> k in l) && (k in l ==> l'[k] == if k.1 < n then CowShare(l[k]) else l[k])
    else if k.0 == dst && k.1 < n && (src, k.1) in l then k in l' && l'[k] == CowShare(l[(src, k.1)])
    else (k in l' <==> k in l) && (k in l ==> l'[k] == l[k])
  }

  lemma {:induction false} ForkUpToLeaves(m: Mem, src: nat, dst: nat, n: nat)
    requires src != dst
    ensures forall k: Key :: ForkedAt(m.leaves, ForkUpTo(m, src, dst, n).leaves, src, dst, n, k)
    ensures ForkUpTo(m, src, dst, n).data == m.data && |ForkUpTo(m, src, dst, n).refs| == |m.refs|
    decreases n
  {
    if n > 0 {
      ForkUpToLeaves(m, src, dst, n - 1);
      var a := ForkUpTo(m, src, dst, n - 1);
      var b := ForkUpTo(m, src, dst, n);
      assert ForkedAt(m.leaves, a.leaves, src, dst, n - 1, (src, n - 1));
      forall k: Key ensures ForkedAt(m.leaves, b.leaves, src, dst, n, k) {
        assert ForkedAt(m.leaves, a.leaves, src, dst, n - 1, k);
      }
    }
  }

  /** Skipping virtual pages that the parent does not map changes nothing. */
  lemma {:induction false} ForkSkip(m: Mem, src: nat, dst: nat, a: nat, b: nat)
    requires src != dst && a <= b && forall v :: a <= v < b ==> (src, v) !in m.leaves
    ensures ForkUpTo(m, src, dst, b) == ForkUpTo(m, src, dst, a)
    decreases b
  {
    if a < b {
      ForkSkip(m, src, dst, a, b - 1);
      ForkUpToLeaves(m, src, dst, b - 1);
      assert ForkedAt(m.leaves, ForkUpTo(m, src, dst, b - 1).leaves, src, dst, b - 1, (src, b - 1));
    }
  }

  /** The same, looking at the leaves as they are when the walk gets there. */
  lemma ForkSkipHere(m: Mem, src: nat, dst: nat, a: nat, b: nat)
    requires src != dst && a <= b && forall v :: a <= v < b ==> (src, v) !in ForkUpTo(m, src, dst, a).leaves
    ensures ForkUpTo(m, src, dst, b) == ForkUpTo(m, src, dst, a)
  {
    ForkUpToLeaves(m, src, dst, a);
    forall v | a <= v < b ensures (src, v) !in m.leaves {
      assert ForkedAt(m.leaves, ForkUpTo(m, src, dst, a).leaves, src, dst, a, (src, v));
    }
    ForkSkip(m, src, dst, a, b);
  }

  lemma MappersAfterForkLeaf(m: Mem, src: nat, dst: nat, v: nat, p: nat)
    requires src != dst && (dst, v) !in m.leaves
    ensures |Mappers(ForkLeaf(m, src, dst, v).leaves, p)|
         == |Mappers(m.leaves, p)| + if (src, v) in m.leaves && m.leaves[(src, v)].pa == p then 1 else 0
  {
    if (src, v) in m.leaves {
      assert Mappers(ForkLeaf(m, src, dst, v).leaves, p)
          == Mappers(m.leaves, p) + (if m.leaves[(src, v)].pa == p then {(dst, v)} else {});
      assert (dst, v) !in Mappers(m.leaves, p);
    }
  }

  lemma ForkLeafCount(m: Mem, src: nat, dst: nat, v: nat, q: nat)
    requires src != dst && RefsModulo(m.leaves, m.refs) && (dst, v) !in m.leaves && (src, v) in m.leaves
    requires Counted(m.leaves[(src, v)].pa) && Counted(q)
    ensures var m' := ForkLeaf(m, src, dst, v); |m'.refs| == NUM_PAGES && PageIdx(q) < NUM_PAGES
    ensures var m' := ForkLeaf(m, src, dst, v); m'.refs[PageIdx(q)] == |Mappers(m'.leaves, q)| % 256
  {
    hide Mappers, PageIdx;
    PageIdxInjective(m.leaves[(src, v)].pa, q);
    MappersAfterForkLeaf(m, src, dst, v, q);
    PageIdxInjective(q, q);
    WrappedSum(|Mappers(m.leaves, q)|);
    assert m.refs[PageIdx(q)] == |Mappers(m.leaves, q)| % 256;
  }

  lemma WrappedSum(n: nat)
    ensures (n % 256 + 1) % 256 == (n + 1) % 256
  {
  }

  lemma ForkLeafRefs(m: Mem, src: nat, dst: nat, v: nat)
    requires src != dst && RefsModulo(m.leaves, m.refs) && (dst, v) !in m.leaves
    requires (src, v) in m.leaves ==> Counted(m.leaves[(src, v)].pa)
    ensures RefsModulo(ForkLeaf(m, src, dst, v).leaves, ForkLeaf(m, src, dst, v).refs)
  {
    if (src, v) in m.leaves {
      var m' := ForkLeaf(m, src, dst, v);
      forall q | Counted(q) ensures PageIdx(q) < |m'.refs| && m'.refs[PageIdx(q)] == |Mappers(m'.leaves, q)| % 256 {
        ForkLeafCount(m, src, dst, v, q);
      }
    }
  }

  /** Whatever the number of sharers, the counts stay exact modulo 256. */
  lemma {:induction false} ForkRefs(m: Mem, src: nat, dst: nat, n: nat)
    requires src != dst && RefsModulo(m.leaves, m.refs)
    requires forall k :: k in m.leaves ==> k.0 != dst && Counted(m.leaves[k].pa)
    ensures RefsModulo(ForkUpTo(m, src, dst, n).leaves, ForkUpTo(m, src, dst, n).refs)
    decreases n
  {
    if n > 0 {
      ForkRefs(m, src, dst, n - 1);
      var a := ForkUpTo(m, src, dst, n - 1);
      ForkUpToLeaves(m, src, dst, n - 1);
      assert ForkedAt(m.leaves, a.leaves, src, dst, n - 1, (src, n - 1));
      assert ForkedAt(m.leaves, a.leaves, src, dst, n - 1, (dst, n - 1));
      ForkLeafRefs(a, src, dst, n - 1);
    }
  }

  /** The parent's leaves all lie below n and the child starts with none. */
  ghost predicate ReadyToFork(m: Mem, src: nat, dst: nat, n: nat) {
    && src != dst && (forall k :: k in m.leaves ==> k.0 != dst)
    && (forall k :: k in m.leaves && k.0 == src ==> k.1 < n)
  }

  lemma ForkWritersAlone(m: Mem, src: nat, dst: nat, n: nat)
    requires MemInv(m) && ReadyToFork(m, src, dst, n)
    ensures WritersAlone(ForkUpTo(m, src, dst, n).leaves)
  {
    var l, l' := m.leaves, ForkUpTo(m, src, dst, n).leaves;
    ForkUpToLeaves(m, src, dst, n);
    forall k, k' | k in l' && k' in l' && l'[k].f.w && l'[k'].pa == l'[k].pa ensures k' == k {
      assert ForkedAt(l, l', src, dst, n, k) && ForkedAt(l, l', src, dst, n, k');
      var h := if k'.0 == dst && k' !in l then (src, k'.1) else k';
      assert h in l && l[h].pa == l'[k'].pa;
    }
  }

  lemma ForkData(m: Mem, src: nat, dst: nat, n: nat)
    requires MemInv(m) && ReadyToFork(m, src, dst, n)
    ensures DataOk(ForkUpTo(m, src, dst, n))
  {
    var l, l' := m.leaves, ForkUpTo(m, src, dst, n).leaves;
    ForkUpToLeaves(m, src, dst, n);
    forall q ensures q in MappedPages(l) <==> q in MappedPages(l') {
      if q in MappedPages(l) {
        var k :| k in l && l[k].pa == q;
        assert ForkedAt(l, l', src, dst, n, k);
        assert l'[k].pa == q;
      }
      if q in MappedPages(l') {
        var k :| k in l' && l'[k].pa == q;
        assert ForkedAt(l, l', src, dst, n, k);
        var h := if k.0 == dst then (src, k.1) else k;
        assert h in l && l[h].pa == q;
      }
    }
  }

  /** The mappings of page p that the walk over the parent's pages below n copies. */
  function Copied(l: Leaves, src: nat, n: nat, p: nat): set<Key> {
    set k | k in l && k.0 == src && k.1 < n && l[k].pa == p
  }

  /** The count of every page has room for the copies, checked before the walk starts. */
  ghost predicate RoomToFork(m: Mem, src: nat, n: nat) {
    |m.refs| == NUM_PAGES && forall p :: Counted(p) ==> m.refs[PageIdx(p)] + |Copied(m.leaves, src, n, p)| < 256
  }

  lemma CopiedStep(l: Leaves, src: nat, n: nat, p: nat)
    ensures Copied(l, src, n + 1, p) == Copied(l, src, n, p) + (if (src, n) in l && l[(src, n)].pa == p then {(src, n)} else {})
    ensures (src, n) !in Copied(l, src, n, p) && Copied(l, src, 0, p) == {}
  {
  }

  /** Every page gains one mapper for each of the parent's mappings of it. */
  lemma {:induction false} ForkMappers(m: Mem, src: nat, dst: nat, n: nat, p: nat)
    requires src != dst && forall k :: k in m.leaves ==> k.0 != dst
    ensures |Mappers(ForkUpTo(m, src, dst, n).leaves, p)| == |Mappers(m.leaves, p)| + |Copied(m.leaves, src, n, p)|
    decreases n
  {
    hide Mappers, Copied, ForkLeaf;
    if n == 0 {
      CopiedStep(m.leaves, src, 0, p);
    } else {
      ForkMappers(m, src, dst, n - 1, p);
      var a := ForkUpTo(m, src, dst, n - 1);
      ForkUpToLeaves(m, src, dst, n - 1);
      assert ForkedAt(m.leaves, a.leaves, src, dst, n - 1, (src, n - 1));
      assert ForkedAt(m.leaves, a.leaves, src, dst, n - 1, (dst, n - 1));
      MappersAfterForkLeaf(a, src, dst, n - 1, p);
      CopiedStep(m.leaves, src, n - 1, p);
    }
  }

  lemma RoomMeansFew(m: Mem, src: nat, dst: nat, n: nat)
    requires MemInv(m) && src != dst && forall k :: k in m.leaves ==> k.0 != dst
    ensures RoomToFork(m, src, n) <==> FewMappers(ForkUpTo(m, src, dst, n).leaves)
  {
    hide Mappers, Copied, WritersAlone, DataOk, ForkUpTo;
    forall p | Counted(p)
      ensures PageIdx(p) < NUM_PAGES == |m.refs|
      ensures |Mappers(ForkUpTo(m, src, dst, n).leaves, p)| == m.refs[PageIdx(p)] + |Copied(m.leaves, src, n, p)|
    {
      ForkMappers(m, src, dst, n, p);
      PageIdxInjective(p, p);
    }
  }

  /** Fork keeps the invariant exactly when, before it starts, the count of every page leaves room
      for the parent's mappings of that page: each of them is counted once more. */
  lemma ForkInvIff(m: Mem, src: nat, dst: nat, n: nat)
    requires MemInv(m) && ReadyToFork(m, src, dst, n)
    ensures MemInv(ForkUpTo(m, src, dst, n)) <==> RoomToFork(m, src, n)
  {
    hide PageIdx, Mappers, Copied, RoomToFork;
    forall k | k in m.leaves ensures Counted(m.leaves[k].pa) {
      assert m.leaves[k].pa in MappedPages(m.leaves);
    }
    RoomMeansFew(m, src, dst, n);
    FewMeansModulo(m);
    ForkRefs(m, src, dst, n);
    ForkWritersAlone(m, src, dst, n);
    ForkData(m, src, dst, n);
    ExactIsModulo(ForkUpTo(m, src, dst, n).leaves, ForkUpTo(m, src, dst, n).refs);
  }

  lemma FewMeansModulo(m: Mem)
    requires MemInv(m)
    ensures RefsModulo(m.leaves, m.refs)
  {
  }

  // ---------------------------------------------------------------- teardown

  function DropAt(m: Mem, root: nat, v: nat): Mem {
    if (root, v) in m.leaves then DropLeaf(m, (root, v)) else m
  }

  /** The teardown walk over the virtual pages of a root below n. */
  function DropUpTo(m: Mem, root: nat, n: nat): Mem {
    if n == 0 then m else DropAt(DropUpTo(m, root, n - 1), root, n - 1)
  }

  lemma DropUpToStep(m: Mem, root: nat, n: nat)
    ensures DropUpTo(m, root, n + 1) == DropAt(DropUpTo(m, root, n), root, n)
  {
  }

  lemma DropUpToZero(m: Mem, root: nat, n: nat)
    requires n == 0
    ensures DropUpTo(m, root, n) == m
  {
  }

  /** The leaves without those of the root below n. */
  function WithoutBelow(l: Leaves, root: nat, n: nat): Leaves {
    map k | k in l && !(k.0 == root && k.1 < n) :: l[k]
  }

  lemma WithoutOneMore(l: Leaves, root: nat, n: nat)
    ensures WithoutBelow(l, root, n + 1) == WithoutBelow(l, root, n) - {(root, n)}
    ensures WithoutBelow(l, root, 0) == l
  {
  }

  lemma DropKeepsData(m: Mem, k: Key, p: nat)
    requires k in m.leaves && p in DropLeaf(m, k).data
    ensures p in m.data && DropLeaf(m, k).data[p] == m.data[p]
  {
  }

  lemma DroppedLeaves(m: Mem, root: nat, v: nat)
    ensures DropAt(m, root, v).leaves == m.leaves - {(root, v)}
  {
    assert (root, v) !in m.leaves ==> m.leaves - {(root, v)} == m.leaves;
  }

  /** Teardown removes exactly the leaves of the root, keeps the invariant, and leaves the
      contents of every page still mapped by someone else alone. */
  lemma {:induction false} DropUpToInv(m: Mem, root: nat, n: nat)
    requires MemInv(m)
    ensures MemInv(DropUpTo(m, root, n)) && DropUpTo(m, root, n).leaves == WithoutBelow(m.leaves, root, n)
    ensures forall p :: p in DropUpTo(m, root, n).data ==> p in m.data && DropUpTo(m, root, n).data[p] == m.data[p]
    decreases n
  {
    hide MemInv, Mappers, DropLeaf;
    if n == 0 {
      WithoutOneMore(m.leaves, root, 0);
    } else {
      DropUpToInv(m, root, n - 1);
      var a := DropUpTo(m, root, n - 1);
      WithoutOneMore(m.leaves, root, n - 1);
      DroppedLeaves(a, root, n - 1);
      if (root, n - 1) in a.leaves {
        DropLeafInv(a, (root, n - 1));
        forall p | p in DropUpTo(m, root, n).data ensures p in m.data && DropUpTo(m, root, n).data[p] == m.data[p] {
          DropKeepsData(a, (root, n - 1), p);
        }
      }
    }
  }

  lemma {:induction false} DropSkip(m: Mem, root: nat, a: nat, b: nat)
    requires MemInv(m) && a <= b && forall v :: a <= v < b ==> (root, v) !in m.leaves
    ensures DropUpTo(m, root, b) == DropUpTo(m, root, a)
    decreases b
  {
    if a < b {
      DropSkip(m, root, a, b - 1);
      DropUpToInv(m, root, b - 1);
    }
  }

  /** The same, looking at the leaves as they are when the walk gets there. */
  lemma DropSkipHere(m: Mem, root: nat, a: nat, b: nat)
    requires MemInv(m) && a <= b && forall v :: a <= v < b ==> (root, v) !in DropUpTo(m, root, a).leaves
    ensures DropUpTo(m, root, b) == DropUpTo(m, root, a)
  {
    DropUpToInv(m, root, a);
    forall v | a <= v < b ensures (root, v) !in m.leaves {
    }
    DropSkip(m, root, a, b);
  }

  // ---------------------------------------------------------------- stores

  /** A store the hardware permits: leaf k is writable. */
  function StoreByte(m: Mem, k: Key, off: nat, b: byte): Mem
    requires k in m.leaves && m.leaves[k].pa in m.data && off < |m.data[m.leaves[k].pa]|
  {
    var p := m.leaves[k].pa;
    var page: seq<byte> := m.data[p][..off] + [b] + m.data[p][off + 1..];
    m.(data := m.data[p := page])
  }

  /** It changes what leaf k sees and nothing that any other leaf, of any process, sees. */
  lemma StoreIsPrivate(m: Mem, k: Key, off: nat, b: byte)
    requires MemInv(m) && k in m.leaves && m.leaves[k].f.w && off < PAGE_SIZE
    ensures m.leaves[k].pa in m.data && |m.data[m.leaves[k].pa]| == PAGE_SIZE && MemInv(StoreByte(m, k, off, b))
    ensures forall h :: h in m.leaves && h != k ==>
              m.leaves[h].pa in m.data && StoreByte(m, k, off, b).data[m.leaves[h].pa] == m.data[m.leaves[h].pa]
  {
    assert m.leaves[k].pa in MappedPages(m.leaves);
    forall h | h in m.leaves && h != k ensures m.leaves[h].pa in m.data && m.leaves[h].pa != m.leaves[k].pa {
      assert m.leaves[h].pa in MappedPages(m.leaves);
    }
  }
}
