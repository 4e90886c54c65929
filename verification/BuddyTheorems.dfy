/** What the buddy allocator guarantees on every state that satisfies its invariant,
    and over every run of requests. */
module BuddyTheorems {
  import opened Bits
  import opened Seqs
  import opened BuddyModel
  import opened BuddySpec

  // ---------------------------------------------------------------- partition

  /** The blocks partition the frames: every frame lies in exactly one block, every block
      is aligned to its size and inside the frame array, and the free ones are exactly the
      members of the list of their order. */
  lemma Partition(s: State, j: nat)
    requires Inv(s) && j < |s.frames|
    ensures exists i ::
      && Spans(s, i, j)
      && (forall i' :: Spans(s, i', j) ==> i' == i)
      && Aligned(i, s.frames[i].order) && i + Pow2(s.frames[i].order) <= |s.frames|
      && 0 <= s.frames[i].order <= MAX_ORDER
      && (s.frames[i].status == FRAME_FREE <==> i in s.lists[s.frames[i].order])
      && (forall k :: 0 <= k <= MAX_ORDER && k != s.frames[i].order ==> i !in s.lists[k])
  {
    assert Covered(s, j);
    var i :| Spans(s, i, j);
    assert FieldsOk(s, i);
    forall i' | Spans(s, i', j) ensures i' == i {
      OneOwner(s, i, i', j);
    }
    forall k | 0 <= k <= MAX_ORDER && i in s.lists[k] ensures s.frames[i] == FreeHead(k) {
      assert ListOk(s, k);
    }
  }

  // ---------------------------------------------------------------- completeness of failure

  /** The 2^k frames from a on are an aligned run inside the frame array, all of them free. */
  ghost predicate FreeRun(s: State, a: nat, k: nat) {
    && Aligned(a, k) && a + Pow2(k) <= |s.frames|
    && forall j :: InBlock(a, k, j) ==> FreeAt(s, j)
  }

  predicate FreeBlock(s: State, h: int, o: int) {
    0 <= h < |s.frames| && 0 <= o <= MAX_ORDER && s.frames[h] == FreeHead(o)
  }

  lemma BlockIsFreeRun(s: State, h: nat, o: nat)
    requires Inv(s) && FreeBlock(s, h, o)
    ensures FreeRun(s, h, o)
  {
    assert FieldsOk(s, h);
    forall j | InBlock(h, o, j) ensures FreeAt(s, j) {
      assert Spans(s, h, j);
    }
  }

  lemma HeadOf(s: State, a: nat) returns (h: nat)
    requires Inv(s) && FreeAt(s, a)
    ensures Spans(s, h, a) && FreeBlock(s, h, s.frames[h].order)
  {
    h :| Spans(s, h, a) && s.frames[h].status == FRAME_FREE;
    assert FieldsOk(s, h);
  }

  /** Full coalescing lifts from buddies to runs: a free aligned run of 2^k frames lies
      inside one single free block. */
  lemma {:induction false} FreeRunInOneBlock(s: State, a: nat, k: nat) returns (h: nat)
    requires Inv(s) && k <= MAX_ORDER && FreeRun(s, a, k)
    ensures Spans(s, h, a) && FreeBlock(s, h, s.frames[h].order) && s.frames[h].order >= k
    decreases k
  {
    hide Inv, Pow2, Aligned, FreeAt;
    if k > 0 { DoublePow2(k - 1); }
    assert InBlock(a, k, a);
    if k == 0 {
      h := HeadOf(s, a);
    } else {
      UpperHalf(a, k - 1);
      var b := a + Pow2(k - 1);
      assert FreeRun(s, a, k - 1) && FreeRun(s, b, k - 1) by {
        assert forall j :: InBlock(a, k - 1, j) || InBlock(b, k - 1, j) ==> InBlock(a, k, j);
      }
      h := FreeRunInOneBlock(s, a, k - 1);
      if s.frames[h].order == k - 1 {
        var g := FreeRunInOneBlock(s, b, k - 1);
        SiblingNotFree(s, a, k - 1, h, g);
      }
    }
  }

  /** Next to a free half block there is neither a free buddy of the same order nor a
      larger free block. */
  lemma SiblingNotFree(s: State, a: nat, k: nat, h: nat, g: nat)
    requires Inv(s) && k < MAX_ORDER && Aligned(a, k + 1)
    requires Spans(s, h, a) && FreeBlock(s, h, k)
    requires Spans(s, g, a + Pow2(k)) && FreeBlock(s, g, s.frames[g].order)
    ensures s.frames[g].order < k
  {
    hide Cover, Lists, Listed, Aligned, Xor, FreeAt;
    UpperHalf(a, k);
    assert FieldsOk(s, h) && FieldsOk(s, g);
    NestedOrDisjoint(a, k, h, k);
    var o := s.frames[g].order;
    if o == k {
      NestedOrDisjoint(a + Pow2(k), k, g, k);
    } else if o > k {
      Pow2Monotone(k + 1, o);
      NestedOrDisjoint(a, k + 1, g, o);
      assert Spans(s, g, a);
      OneOwner(s, g, h, a);
    }
  }

  /** buddy_alloc(k) fails exactly when no aligned run of 2^k free frames exists anywhere. */
  lemma AllocFailsIffNoFreeRun(s: State, k: nat)
    requires Inv(s) && k <= MAX_ORDER
    ensures Alloc(s, k).1.None? <==> !exists a: nat :: FreeRun(s, a, k)
  {
    var (r, i) := Alloc(s, k);
    if i.Some? {
      assert FieldsOk(r, i.value);
      forall j | InBlock(i.value, k, j) ensures FreeAt(s, j) {
        AllocFree(s, k, j);
      }
      assert FreeRun(s, i.value, k);
    }
    if a: nat :| FreeRun(s, a, k) {
      var h := FreeRunInOneBlock(s, a, k);
      assert h in s.lists[s.frames[h].order];
    }
  }

  // ---------------------------------------------------------------- which block is cut

  /** The lists after the block at h, first on the list of order o, is cut down to order k: it is off
      its list, and the upper half of each cut is alone on the list of its order. */
  ghost predicate ListsAfterCut(s: State, r: State, h: nat, o: nat, k: nat) {
    && |s.lists| == |r.lists| == MAX_ORDER + 1
    && forall w :: 0 <= w <= MAX_ORDER ==>
         r.lists[w] == if w == o && s.lists[w] != [] then s.lists[w][1..] else if k <= w < o then [h + Pow2(w)] else s.lists[w]
  }

  /** h heads a smallest free block of order k or more, the first on its list; it is the only free
      block that is gone afterwards. */
  ghost predicate CutFrom(s: State, r: State, h: nat, o: nat, k: nat) {
    && k <= o && FreeBlock(s, h, o) && o < |s.lists| && s.lists[o] != [] && s.lists[o][0] == h
    && (forall g, w :: FreeBlock(s, g, w) && w >= k ==> o <= w)
    && (forall g, w :: FreeBlock(s, g, w) && g != h ==> FreeBlock(r, g, w))
    && ListsAfterCut(s, r, h, o, k)
  }

  lemma {:induction false} SplitToLists(s: State, i: nat, k: nat, w: nat)
    requires Inv(s) && Live(s, i) && k <= s.frames[i].order && w <= MAX_ORDER
    ensures |SplitTo(s, i, k).lists| == |s.lists| == MAX_ORDER + 1
    ensures SplitTo(s, i, k).lists[w] == if k <= w < s.frames[i].order then [i + Pow2(w)] + s.lists[w] else s.lists[w]
    decreases s.frames[i].order
  {
    hide Interiors, Cover, Listed, Coalesced, ListOk, Pow2, Aligned;
    assert FieldsOk(s, i);
    if s.frames[i].order > k {
      SplitOnceInv(s, i);
      SplitToLists(SplitOnce(s, i), i, k, w);
    }
  }

  lemma {:induction false} SplitToKeepsBlocks(s: State, i: nat, k: nat, g: nat, w: nat)
    requires Inv(s) && Live(s, i) && k <= s.frames[i].order && FreeBlock(s, g, w)
    ensures FreeBlock(SplitTo(s, i, k), g, w)
    decreases s.frames[i].order
  {
    hide Interiors, Cover, ListOk, Listed, Coalesced, Pow2, Aligned;
    assert FieldsOk(s, i);
    if s.frames[i].order > k {
      SplitOnceInv(s, i);
      UpperInterior(s, i);
      SplitToKeepsBlocks(SplitOnce(s, i), i, k, g, w);
    }
  }

  /** The first list that is not empty is that of the smallest free block that is large enough. */
  lemma FirstListSmallest(s: State, k: nat, g: nat, w: nat)
    requires Inv(s) && k <= w && FreeBlock(s, g, w)
    ensures FirstList(s, k) <= w
  {
    assert g in s.lists[w];
  }

  /** buddy_alloc(k) cuts a smallest free block that is large enough, the first on its list, hands
      out its lowest frames, and leaves every other free block as it is. */
  lemma AllocCutsSmallest(s: State, k: nat)
    requires Inv(s)
    ensures var (r, i) := Alloc(s, k);
            i.Some? ==> exists o: nat :: CutFrom(s, r, i.value, o, k)
  {
    hide Interiors, Cover, Coalesced, Pow2, Aligned;
    var o := FirstList(s, k);
    if o <= MAX_ORDER {
      assert ListOk(s, o);
      TakeHeadInv(s, o);
      var h, t := s.lists[o][0], TakeHead(s, o);
      assert h in s.lists[o];
      var r := SplitTo(t, h, k);
      forall w | 0 <= w <= MAX_ORDER
        ensures |r.lists| == MAX_ORDER + 1
        ensures r.lists[w] == if w == o then s.lists[w][1..] else if k <= w < o then [h + Pow2(w)] else s.lists[w]
      {
        SplitToLists(t, h, k, w);
      }
      forall g: nat, w: nat | FreeBlock(s, g, w) && w >= k ensures o <= w {
        FirstListSmallest(s, k, g, w);
      }
      forall g: nat, w: nat | FreeBlock(s, g, w) && g != h ensures FreeBlock(r, g, w) {
        SplitToKeepsBlocks(t, h, k, g, w);
      }
      assert CutFrom(s, r, h, o, k);
    }
  }

  // ---------------------------------------------------------------- where a block goes

  /** List w after a release that made the block (h, o) of one of order k: the new block comes first on
      its own list, the lists between lose one block inside it each, and the others stay. */
  ghost predicate ListAfterMerge(s: State, r: State, h: nat, o: nat, k: nat, w: nat)
    requires w < |s.lists| && w < |r.lists|
  {
    if w == o then r.lists[w] == [h] + s.lists[w]
    else if k <= w < o then exists x :: x in s.lists[w] && InBlock(h, o, x) && r.lists[w] == Remove(s.lists[w], x)
    else r.lists[w] == s.lists[w]
  }

  /** The block released at i is part of the free block (h, o). */
  ghost predicate MergedInto(s: State, r: State, i: nat, h: nat, o: nat) {
    && i < |s.frames| && 0 <= s.frames[i].order <= o && FreeBlock(r, h, o) && InBlock(h, o, i)
    && |s.lists| == |r.lists| == MAX_ORDER + 1
    && forall w :: 0 <= w <= MAX_ORDER ==> ListAfterMerge(s, r, h, o, s.frames[i].order, w)
  }

  ghost predicate Merged(s: State, r: State, i: nat) { exists h, o: nat :: MergedInto(s, r, i, h, o) }

  lemma {:induction false} MergeUpInside(s: State, i: nat, j: int)
    requires Inv(s) && Live(s, i)
    ensures var (t, m) := MergeUp(s, i);
            s.frames[i].order <= t.frames[m].order <= MAX_ORDER && (InBlock(i, s.frames[i].order, j) ==> InBlock(m, t.frames[m].order, j))
    decreases MAX_ORDER - s.frames[i].order
  {
    hide Interiors, Cover, Lists, Listed, Coalesced, Aligned, Xor, MergeOnce;
    assert FieldsOk(s, i);
    if Mergeable(s, i) {
      MergeOnceInv(s, i);
      MergedOrder(s, i);
      MergeUpInside(MergeOnce(s, i), Min(i, Xor(i, Pow2(s.frames[i].order))), j);
    }
  }

  /** The block after one merge, its two halves, and the lists. */
  lemma MergedOrder(s: State, i: nat)
    requires Inv(s) && Live(s, i) && Mergeable(s, i)
    ensures var k, b, t := s.frames[i].order, Xor(i, Pow2(s.frames[i].order)), MergeOnce(s, i);
            && |t.frames| == |s.frames| && t.frames[Min(i, b)].order == k + 1
            && (forall j {:trigger InBlock(i, k, j)} :: InBlock(i, k, j) ==> InBlock(Min(i, b), k + 1, j))
            && InBlock(b, k, b) && InBlock(Min(i, b), k + 1, b) && b in s.lists[k]
            && t.lists == s.lists[k := Remove(s.lists[k], b)]
  {
    hide Interiors, Cover, Coalesced, Aligned, Xor;
    assert FieldsOk(s, i);
    MergeOnceFacts(s, i);
  }

  lemma {:induction false} MergeUpLists(s: State, i: nat, w: nat)
    requires Inv(s) && Live(s, i) && w <= MAX_ORDER
    ensures var (t, m) := MergeUp(s, i);
            && |t.lists| == |s.lists| == MAX_ORDER + 1
            && if s.frames[i].order <= w < t.frames[m].order
               then exists x :: x in s.lists[w] && InBlock(m, t.frames[m].order, x) && t.lists[w] == Remove(s.lists[w], x)
               else t.lists[w] == s.lists[w]
    decreases MAX_ORDER - s.frames[i].order
  {
    hide Interiors, Cover, ListOk, Listed, Coalesced, Aligned, Xor, MergeOnce, Remove;
    assert FieldsOk(s, i);
    if Mergeable(s, i) {
      var k := s.frames[i].order;
      var b := Xor(i, Pow2(k));
      MergeOnceInv(s, i);
      MergedOrder(s, i);
      MergeUpLists(MergeOnce(s, i), Min(i, b), w);
      MergeUpInside(MergeOnce(s, i), Min(i, b), b);
    }
  }

  /** buddy_free makes the block part of a free block that comes first on its list; apart from the
      blocks merged into it no list changes. */
  lemma FreePutsFirst(s: State, i: nat)
    requires Inv(s) && Live(s, i)
    ensures Merged(s, Free(s, i), i)
  {
    hide Interiors, Cover, ListOk, Listed, Coalesced, Aligned, MergeUp, Remove;
    var (t, m) := MergeUp(s, i);
    assert FieldsOk(t, m);
    var o := t.frames[m].order;
    assert InBlock(i, s.frames[i].order, i);
    MergeUpInside(s, i, i);
    forall w | 0 <= w <= MAX_ORDER ensures |t.lists| == |s.lists| == MAX_ORDER + 1 && ListAfterMerge(s, Put(t, m), m, o, s.frames[i].order, w) {
      MergeUpLists(s, i, w);
    }
    assert MergedInto(s, Put(t, m), i, m, o);
    assert Free(s, i) == Put(t, m);
  }

  /** A single page is found exactly when some frame is free. */
  lemma PageFoundIff(s: State)
    requires Inv(s)
    ensures Alloc(s, 0).1.Some? <==> exists j: nat :: j < |s.frames| && FreeAt(s, j)
  {
    hide Inv, Alloc, FreeAt;
    AllocFailsIffNoFreeRun(s, 0);
    assert Pow2(0) == 1;
    forall a: nat ensures FreeRun(s, a, 0) <==> a < |s.frames| && FreeAt(s, a) {
      assert InBlock(a, 0, a);
    }
  }

  // ---------------------------------------------------------------- canonical form

  /** The block of twice the size that contains block (h, o). */
  function Parent(h: nat, o: nat): nat { Min(h, Xor(h, Pow2(o))) }

  lemma FreeParentHasNoBlock(s: State, h: nat, o: nat)
    requires Inv(s) && o < MAX_ORDER && Aligned(h, o) && FreeRun(s, Parent(h, o), o + 1)
    ensures !FreeBlock(s, h, o)
  {
    hide Cover, Lists, Listed, Coalesced, FreeRun, Aligned, Xor;
    BuddyIsSibling(h, o);
    var p := Parent(h, o);
    var g := FreeRunInOneBlock(s, p, o + 1);
    assert FieldsOk(s, g);
    Pow2Monotone(o + 1, s.frames[g].order);
    NestedOrDisjoint(p, o + 1, g, s.frames[g].order);
    assert Pow2(o + 1) == 2 * Pow2(o);
    assert Spans(s, g, h);
    if FreeBlock(s, h, o) {
      OneOwner(s, g, h, h);
    }
  }

  lemma LargerBlockFreesParent(s: State, h: nat, o: nat, g: nat)
    requires Inv(s) && o < MAX_ORDER && Aligned(h, o)
    requires Spans(s, g, h) && FreeBlock(s, g, s.frames[g].order) && s.frames[g].order > o
    ensures FreeRun(s, Parent(h, o), o + 1)
  {
    hide Interiors, Cover, ListOk, Listed, Coalesced, Aligned, Xor;
    var w := s.frames[g].order;
    assert FieldsOk(s, g);
    BuddyIsSibling(h, o);
    assert Pow2(o + 1) == 2 * Pow2(o);
    Pow2Monotone(o + 1, w);
    NestedOrDisjoint(Parent(h, o), o + 1, g, w);
    BlockIsFreeRun(s, g, w);
  }

  /** The free blocks are exactly the maximal aligned free runs (of order at most MAX_ORDER). */
  lemma BlocksAreMaximalRuns(s: State, h: nat, o: nat)
    requires Inv(s) && o <= MAX_ORDER
    ensures FreeBlock(s, h, o) <==> FreeRun(s, h, o) && (o == MAX_ORDER || !FreeRun(s, Parent(h, o), o + 1))
  {
    if FreeBlock(s, h, o) {
      BlockIsFreeRun(s, h, o);
    }
    if FreeRun(s, h, o) {
      var g := FreeRunInOneBlock(s, h, o);
      assert FieldsOk(s, g);
      if s.frames[g].order == o {
        NestedOrDisjoint(h, o, g, o);
        assert g == h;
      } else {
        LargerBlockFreesParent(s, h, o, g);
      }
      if o < MAX_ORDER && FreeRun(s, Parent(h, o), o + 1) {
        FreeParentHasNoBlock(s, h, o);
      }
    }
  }

  /** The same frames are free in both states. */
  ghost predicate SameFree(s: State, t: State) {
    |s.frames| == |t.frames| && forall j :: 0 <= j < |s.frames| ==> FreeAt(s, j) == FreeAt(t, j)
  }

  lemma SameFreeRuns(s: State, t: State, a: nat, k: nat)
    requires SameFree(s, t)
    ensures FreeRun(s, a, k) == FreeRun(t, a, k)
  {
    if a + Pow2(k) <= |s.frames| {
      assert forall j :: InBlock(a, k, j) ==> FreeAt(s, j) == FreeAt(t, j);
    }
  }

  /** Canonical form: the free frames alone determine the free blocks. */
  lemma Canonical(s: State, t: State)
    requires Inv(s) && Inv(t) && SameFree(s, t)
    ensures forall h, o :: FreeBlock(s, h, o) <==> FreeBlock(t, h, o)
  {
    forall h, o ensures FreeBlock(s, h, o) <==> FreeBlock(t, h, o) {
      if 0 <= h && 0 <= o <= MAX_ORDER {
        BlocksAreMaximalRuns(s, h, o);
        BlocksAreMaximalRuns(t, h, o);
        SameFreeRuns(s, t, h, o);
        SameFreeRuns(s, t, Parent(h, o), o + 1);
      }
    }
  }

  /** Free blocks one after the other. */
  ghost function FreeAll(s: State, l: seq<nat>): (r: State)
    requires Inv(s) && Distinct(l) && forall x :: x in l ==> Live(s, x)
    ensures Inv(r) && |r.frames| == |s.frames|
    decreases |l|
  {
    if l == [] then s
    else
      assert l[0] in l;
      FreeKeepsLive(s, l);
      FreeAll(Free(s, l[0]), l[1..])
  }

  lemma FreeKeepsLive(s: State, l: seq<nat>)
    requires Inv(s) && Distinct(l) && l != [] && forall x :: x in l ==> Live(s, x)
    ensures Live(s, l[0]) && Distinct(l[1..])
    ensures forall x :: x in l[1..] ==> Live(Free(s, l[0]), x) && Free(s, l[0]).frames[x] == s.frames[x]
  {
    assert l[0] in l;
    FreeHeld(s, l[0]);
    forall x | x in l[1..] ensures Live(Free(s, l[0]), x) && Free(s, l[0]).frames[x] == s.frames[x] {
      assert x in l && x != l[0] && Held(s, x);
    }
  }

  ghost predicate InSome(s: State, l: seq<nat>, j: int) {
    exists p :: 0 <= p < |l| && l[p] < |s.frames| && Spans(s, l[p], j)
  }

  lemma {:induction false} FreeAllFree(s: State, l: seq<nat>, j: int)
    requires Inv(s) && Distinct(l) && forall x :: x in l ==> Live(s, x)
    ensures FreeAt(FreeAll(s, l), j) <==> FreeAt(s, j) || InSome(s, l, j)
    decreases |l|
  {
    hide Inv, FreeAt, Free, Distinct;
    if l != [] {
      FreeKeepsLive(s, l);
      var t := Free(s, l[0]);
      FreeFree(s, l[0], j);
      FreeAllFree(t, l[1..], j);
      if InSome(t, l[1..], j) {
        var p :| 0 <= p < |l[1..]| && l[1..][p] < |t.frames| && Spans(t, l[1..][p], j);
        assert l[1..][p] in l[1..];
        assert Spans(s, l[p + 1], j);
      }
      if InSome(s, l, j) && !Spans(s, l[0], j) {
        var p :| 0 <= p < |l| && l[p] < |s.frames| && Spans(s, l[p], j);
        assert l[1..][p - 1] == l[p] && l[p] in l[1..];
        assert Spans(t, l[1..][p - 1], j);
      }
    }
  }

  /** Freeing the same blocks in any order leaves the same free blocks. */
  lemma FreeOrderIrrelevant(s: State, l: seq<nat>, l': seq<nat>)
    requires Inv(s) && Distinct(l) && Distinct(l')
    requires forall x :: x in l ==> Live(s, x)
    requires forall x :: x in l <==> x in l'
    ensures forall h, o :: FreeBlock(FreeAll(s, l), h, o) <==> FreeBlock(FreeAll(s, l'), h, o)
  {
    forall j ensures InSome(s, l, j) == InSome(s, l', j) {
      if InSome(s, l, j) {
        var p :| 0 <= p < |l| && l[p] < |s.frames| && Spans(s, l[p], j);
        assert l[p] in l';
      }
      if InSome(s, l', j) {
        var p :| 0 <= p < |l'| && l'[p] < |s.frames| && Spans(s, l'[p], j);
        assert l'[p] in l;
      }
    }
    forall j ensures FreeAt(FreeAll(s, l), j) == FreeAt(FreeAll(s, l'), j) {
      FreeAllFree(s, l, j);
      FreeAllFree(s, l', j);
    }
    Canonical(FreeAll(s, l), FreeAll(s, l'));
  }

  // ---------------------------------------------------------------- exact round trip

  lemma MergeUndoesSplit(s: State, i: nat)
    requires Inv(s) && Live(s, i) && 0 < s.frames[i].order && FieldsOk(s, i)
    ensures Mergeable(SplitOnce(s, i), i) && MergeOnce(SplitOnce(s, i), i) == s
    ensures Xor(i, Pow2(s.frames[i].order - 1)) == i + Pow2(s.frames[i].order - 1)
  {
    hide Fields, Interiors, Cover, ListOk, Listed, Coalesced, Aligned, Pow2, Xor;
    var k := s.frames[i].order - 1;
    var b := i + Pow2(k);
    UpperHalf(i, k);
    UpperInterior(s, i);
    var t := SplitOnce(s, i);
    assert t.lists[k] == [b] + s.lists[k];
    var r := MergeOnce(t, i);
    assert r.lists[k] == s.lists[k];
    assert r.frames == s.frames && r.lists == s.lists && r.sizes == s.sizes;
  }

  lemma {:induction false} MergeUpUndoesSplitTo(s: State, i: nat, k: nat)
    requires Inv(s) && Live(s, i) && k <= s.frames[i].order
    ensures MergeUp(SplitTo(s, i, k), i) == MergeUp(s, i)
    decreases s.frames[i].order
  {
    assert FieldsOk(s, i);
    if s.frames[i].order > k {
      SplitOnceInv(s, i);
      MergeUndoesSplit(s, i);
      MergeUpUndoesSplitTo(SplitOnce(s, i), i, k);
    }
  }

  lemma PutUndoesTakeHead(s: State, h: nat)
    requires Inv(s) && h <= MAX_ORDER && ListOk(s, h) && s.lists[h] != []
    ensures var i := s.lists[h][0]; i < |s.frames| && s.frames[i] == FreeHead(h) && Put(TakeHead(s, h), i) == s
  {
    var i := s.lists[h][0];
    assert i in s.lists[h];
    var r := Put(TakeHead(s, h), i);
    assert r.lists[h] == s.lists[h];
    assert r.frames == s.frames && r.lists == s.lists && r.sizes == s.sizes;
  }

  lemma TakenNotMergeable(s: State, h: nat, i: nat)
    requires Inv(s) && h <= MAX_ORDER && ListOk(s, h) && s.lists[h] != []
    requires i == s.lists[h][0] && i < |s.frames| && s.frames[i] == FreeHead(h)
    ensures !Mergeable(TakeHead(s, h), i)
  {
    if h < MAX_ORDER {
      assert NoFreeBuddy(s, i);
      assert FieldsOk(s, i);
      BuddyIsSibling(i, h);
    }
  }

  /** Freeing a block just returned by buddy_alloc restores the whole allocator state:
      every free list in its original order, every counter, every status and order field. */
  lemma RoundTrip(s: State, k: nat)
    requires Inv(s) && Alloc(s, k).1.Some?
    ensures Free(Alloc(s, k).0, Alloc(s, k).1.value) == s
  {
    var h := FirstList(s, k);
    assert ListOk(s, h);
    TakeHeadInv(s, h);
    var i := s.lists[h][0];
    PutUndoesTakeHead(s, h);
    TakenNotMergeable(s, h, i);
    MergeUpUndoesSplitTo(TakeHead(s, h), i, k);
  }

  // ---------------------------------------------------------------- runs

  datatype Request = Get(order: nat) | Release(index: nat)

  /** One call on page-level blocks; `free` of a frame that is not ALLOC changes nothing. */
  function Serve(s: State, q: Request): (r: State)
    requires Inv(s)
    ensures Inv(r) && |r.frames| == |s.frames|
  {
    match q
    case Get(k) => Alloc(s, k).0
    case Release(i) => if Live(s, i) then Free(s, i) else s
  }

  function ServeAll(s: State, qs: seq<Request>): (r: State)
    requires Inv(s)
    ensures Inv(r) && |r.frames| == |s.frames|
    decreases |qs|
  {
    if qs == [] then s else ServeAll(Serve(s, qs[0]), qs[1..])
  }

  /** A block that is handed out is disjoint from everything held before, over every run. */
  lemma AllocIsFresh(s: State, k: nat, a: nat, j: nat)
    requires Inv(s) && Alloc(s, k).1.Some? && Held(s, a) && Spans(s, a, j)
    ensures !InBlock(Alloc(s, k).1.value, k, j)
  {
    AllocFree(s, k, j);
    NotFreeIn(s, a, j);
  }

  lemma ReservedStays(s: State, q: Request, a: nat)
    requires Inv(s) && a < |s.frames| && s.frames[a].status == FRAME_RESERVED
    ensures Serve(s, q).frames[a] == s.frames[a]
  {
    assert FieldsOk(s, a);
    assert Held(s, a);
    match q
    case Get(k) => AllocHeld(s, k);
    case Release(i) => if Live(s, i) { FreeHeld(s, i); }
  }

  /** No frame of a reserved region is ever handed out, whatever requests came before. */
  lemma {:induction false} ReservedNeverHandedOut(s: State, qs: seq<Request>, k: nat, a: nat)
    requires Inv(s) && a < |s.frames| && s.frames[a].status == FRAME_RESERVED
    ensures var t := ServeAll(s, qs);
            && t.frames[a].status == FRAME_RESERVED
            && (Alloc(t, k).1.Some? ==> !InBlock(Alloc(t, k).1.value, k, a))
    decreases |qs|
  {
    if qs == [] {
      assert FieldsOk(s, a);
      if Alloc(s, k).1.Some? {
        AllocIsFresh(s, k, a, a);
      }
    } else {
      ReservedStays(s, qs[0], a);
      ReservedNeverHandedOut(Serve(s, qs[0]), qs[1..], k, a);
    }
  }
}
