/** The buddy allocator of lab7/src/memory.c on values: the frame array, the eleven
    free lists and their counters.  The class in BuddyAllocator.dfy is proved equal to
    the functions here, step by step, on real arrays and intrusive links. */
module BuddyModel {
  import opened Bits
  import opened Seqs

  const MAX_ORDER := 10
  const PAGE_SIZE := 4096

  const FRAME_FREE := 0
  const FRAME_ALLOC := -1
  const FRAME_BUDDY := -2
  const FRAME_RESERVED := -3

  datatype Option<T> = None | Some(value: T)

  datatype Frame = Frame(order: int, status: int)

  datatype State = State(frames: seq<Frame>, lists: seq<seq<nat>>, sizes: seq<int>)

  const INTERIOR := Frame(-1, FRAME_BUDDY)

  function FreeHead(k: nat): Frame { Frame(k, FRAME_FREE) }

  function AllocHead(k: nat): Frame { Frame(k, FRAME_ALLOC) }

  // ---------------------------------------------------------------- invariant

  /** Block i covers frame j. */
  predicate Spans(s: State, i: int, j: int) {
    0 <= i < |s.frames| && s.frames[i].order >= 0 && i <= j < i + Pow2(s.frames[i].order)
  }

  /** Status and order agree; a block head is aligned to its order and in range. */
  predicate FieldsOk(s: State, i: nat)
    requires i < |s.frames|
  {
    var f := s.frames[i];
    && (f.status == FRAME_FREE || f.status == FRAME_ALLOC || f.status == FRAME_BUDDY
        || f.status == FRAME_RESERVED || f.status >= 16)
    && (f.status == FRAME_BUDDY <==> f.order == -1)
    && (f.order != -1 ==> 0 <= f.order <= MAX_ORDER && Aligned(i, f.order) && i + Pow2(f.order) <= |s.frames|)
    && (f.status == FRAME_RESERVED || f.status >= 16 ==> f.order == 0)
  }

  ghost predicate Fields(s: State) {
    forall i :: 0 <= i < |s.frames| ==> FieldsOk(s, i)
  }

  /** Frames inside a block are marked BUDDY with order -1; hence blocks are disjoint. */
  ghost predicate Interiors(s: State) {
    forall i, j :: Spans(s, i, j) && j != i && j < |s.frames| ==> s.frames[j].order == -1
  }

  ghost predicate Covered(s: State, j: int) {
    exists i :: Spans(s, i, j)
  }

  /** Every frame lies in a block. */
  ghost predicate Cover(s: State) {
    forall j :: 0 <= j < |s.frames| ==> Covered(s, j)
  }

  ghost predicate ListOk(s: State, k: nat)
    requires k < |s.lists| && k < |s.sizes|
  {
    && Distinct(s.lists[k])
    && (forall x :: x in s.lists[k] ==> x < |s.frames| && s.frames[x] == FreeHead(k))
    && s.sizes[k] == |s.lists[k]|
  }

  ghost predicate Lists(s: State) {
    && |s.lists| == |s.sizes| == MAX_ORDER + 1
    && (forall k :: 0 <= k <= MAX_ORDER ==> ListOk(s, k))
  }

  /** Every free head is on the list of its order. */
  ghost predicate Listed(s: State)
    requires |s.lists| == MAX_ORDER + 1
  {
    forall i :: 0 <= i < |s.frames| && s.frames[i].status == FRAME_FREE && 0 <= s.frames[i].order <= MAX_ORDER
      ==> i in s.lists[s.frames[i].order]
  }

  /** Full coalescing: the buddy of a free block below MAX_ORDER is not free at the same order. */
  predicate NoFreeBuddy(s: State, i: nat)
    requires i < |s.frames| && s.frames[i].order >= 0
  {
    var b := Xor(i, Pow2(s.frames[i].order));
    b < |s.frames| ==> s.frames[b] != s.frames[i]
  }

  ghost predicate Coalesced(s: State) {
    forall i :: 0 <= i < |s.frames| && s.frames[i].status == FRAME_FREE && 0 <= s.frames[i].order < MAX_ORDER
      ==> NoFreeBuddy(s, i)
  }

  ghost predicate Inv(s: State) {
    Fields(s) && Interiors(s) && Cover(s) && Lists(s) && Listed(s) && Coalesced(s)
  }

  /** Frame i heads a block handed out as whole pages. */
  predicate Live(s: State, i: nat) {
    i < |s.frames| && s.frames[i].order >= 0 && s.frames[i].status == FRAME_ALLOC
  }

  lemma OneOwner(s: State, i: int, i': int, j: int)
    requires Interiors(s) && Spans(s, i, j) && Spans(s, i', j)
    ensures i == i'
  {
    assert i < i' ==> Spans(s, i, i');
    assert i' < i ==> Spans(s, i', i);
  }

  // ---------------------------------------------------------------- moves

  /** Unlink the first block of list k and mark it allocated. */
  function TakeHead(s: State, k: nat): (r: State)
    requires k < |s.lists| && k < |s.sizes| && ListOk(s, k) && s.lists[k] != []
    ensures |r.frames| == |s.frames|
  {
    var i := s.lists[k][0];
    assert i in s.lists[k];
    State(s.frames[i := AllocHead(k)],
          s.lists[k := s.lists[k][1..]],
          s.sizes[k := s.sizes[k] - 1])
  }

  /** Halve the allocated block at i; the upper half becomes a free block. */
  function SplitOnce(s: State, i: nat): State
    requires i < |s.frames| && 0 < s.frames[i].order <= MAX_ORDER < |s.lists| == |s.sizes|
    requires i + Pow2(s.frames[i].order) <= |s.frames|
  {
    var k := s.frames[i].order - 1;
    var b := i + Pow2(k);
    State(s.frames[i := AllocHead(k)][b := FreeHead(k)],
          s.lists[k := [b] + s.lists[k]],
          s.sizes[k := s.sizes[k] + 1])
  }

  /** Join the allocated block at i with its free buddy. */
  function MergeOnce(s: State, i: nat): State
    requires Mergeable(s, i)
  {
    var k := s.frames[i].order;
    var b := Xor(i, Pow2(k));
    State(s.frames[i := INTERIOR][b := INTERIOR][Min(i, b) := AllocHead(k + 1)],
          s.lists[k := Remove(s.lists[k], b)],
          s.sizes[k := s.sizes[k] - 1])
  }

  /** Turn the allocated block at i into a free block at the head of its list. */
  function Put(s: State, i: nat): State
    requires i < |s.frames| && 0 <= s.frames[i].order < |s.lists| == |s.sizes|
  {
    var k := s.frames[i].order;
    State(s.frames[i := FreeHead(k)],
          s.lists[k := [i] + s.lists[k]],
          s.sizes[k := s.sizes[k] + 1])
  }

  function Min(a: nat, b: nat): nat { if a < b then a else b }

  /** The test of the merge loop: below MAX_ORDER, buddy in range, free, of the same order. */
  predicate Mergeable(s: State, i: nat) {
    && i < |s.frames| && 0 <= s.frames[i].order < MAX_ORDER < |s.lists| == |s.sizes|
    && Xor(i, Pow2(s.frames[i].order)) < |s.frames|
    && s.frames[Xor(i, Pow2(s.frames[i].order))] == FreeHead(s.frames[i].order)
  }

  // ---------------------------------------------------------------- moves keep the invariant

  lemma TakeHeadInv(s: State, k: nat)
    requires Inv(s) && k <= MAX_ORDER && s.lists[k] != [] && ListOk(s, k)
    ensures Inv(TakeHead(s, k)) && Live(TakeHead(s, k), s.lists[k][0])
    ensures TakeHead(s, k).frames[s.lists[k][0]].order == k
  {
    var i := s.lists[k][0];
    var r := TakeHead(s, k);
    assert i in s.lists[k];
    assert s.frames[i] == FreeHead(k);
    assert Fields(r) by {
      forall j | 0 <= j < |r.frames| ensures FieldsOk(r, j) {
        assert FieldsOk(s, j) && FieldsOk(s, i);
      }
    }
    SameBlocks(s, r);
    forall h | 0 <= h <= MAX_ORDER ensures ListOk(r, h) {
      assert ListOk(s, h);
      if h != k { assert i !in s.lists[h]; }
    }
    forall j | 0 <= j < |r.frames| && r.frames[j].status == FRAME_FREE && 0 <= r.frames[j].order < MAX_ORDER
      ensures NoFreeBuddy(r, j)
    {
      assert NoFreeBuddy(s, j);
    }
  }

  lemma SplitOnceSpans(s: State, i: nat, a: int, j: int)
    requires Inv(s) && Live(s, i) && 0 < s.frames[i].order
    requires FieldsOk(s, i)
    requires Spans(SplitOnce(s, i), a, j) && j < |s.frames|
    ensures if a == i + Pow2(s.frames[i].order - 1) then Spans(s, i, j) else Spans(s, a, j)
  {
  }

  lemma SplitOnceFields(s: State, i: nat)
    requires Inv(s) && Live(s, i) && 0 < s.frames[i].order
    requires FieldsOk(s, i)
    ensures Fields(SplitOnce(s, i))
  {
    hide Interiors, Cover, ListOk, Listed, Coalesced, Aligned;
    var r := SplitOnce(s, i);
    var k := s.frames[i].order - 1;
    UpperHalf(i, k);
    AlignedWeaken(i, k, k + 1);
    assert Pow2(k + 1) == 2 * Pow2(k) && Pow2(k) > 0;
    forall j | 0 <= j < |r.frames| ensures FieldsOk(r, j) {
      assert FieldsOk(s, j);
    }
  }

  lemma SplitOnceInteriors(s: State, i: nat)
    requires Inv(s) && Live(s, i) && 0 < s.frames[i].order
    requires FieldsOk(s, i)
    ensures Interiors(SplitOnce(s, i))
  {
    hide Fields, Cover, ListOk, Listed, Coalesced, Aligned;
    var r := SplitOnce(s, i);
    var b := i + Pow2(s.frames[i].order - 1);
    assert Spans(s, i, b) && Spans(s, i, i);
    forall a, j | Spans(r, a, j) && j != a && j < |r.frames| ensures r.frames[j].order == -1 {
      SplitOnceSpans(s, i, a, j);
      if a != i && a != b && (j == i || j == b) {
        OneOwner(s, i, a, j);
      }
    }
  }

  lemma SplitOnceCover(s: State, i: nat)
    requires Inv(s) && Live(s, i) && 0 < s.frames[i].order
    requires FieldsOk(s, i)
    ensures Cover(SplitOnce(s, i))
  {
    hide Fields, ListOk, Listed, Coalesced, Aligned, Pow2;
    DoublePow2(s.frames[i].order - 1);
    var r := SplitOnce(s, i);
    var b := i + Pow2(s.frames[i].order - 1);
    assert Spans(s, i, b);
    assert s.frames[b].order == -1;
    forall j | 0 <= j < |r.frames| ensures Covered(r, j) {
      assert Covered(s, j);
      var a :| Spans(s, a, j);
      assert Spans(r, if a == i && j >= b then b else a, j);
    }
  }

  lemma SplitOnceNoFreeBuddy(s: State, i: nat, j: nat)
    requires Inv(s) && Live(s, i) && 0 < s.frames[i].order
    requires FieldsOk(s, i)
    requires j < |s.frames| && s.frames[j].status == FRAME_FREE && 0 <= s.frames[j].order < MAX_ORDER
    ensures SplitOnce(s, i).frames[j] == s.frames[j] && NoFreeBuddy(SplitOnce(s, i), j)
  {
    hide Cover, ListOk, Listed, Aligned, Pow2, Xor;
    DoublePow2(s.frames[i].order - 1);
    var k := s.frames[i].order - 1;
    var b := i + Pow2(k);
    assert NoFreeBuddy(s, j) && FieldsOk(s, j);
    assert Spans(s, i, b);
    assert s.frames[b].order == -1;
    UpperHalf(i, k);
    BuddyIsSibling(j, s.frames[j].order);
  }

  lemma SplitOnceCoalesced(s: State, i: nat)
    requires Inv(s) && Live(s, i) && 0 < s.frames[i].order
    requires FieldsOk(s, i)
    ensures Coalesced(SplitOnce(s, i))
  {
    hide Interiors, Cover, ListOk, Listed, Aligned, Fields, Pow2, Xor;
    DoublePow2(s.frames[i].order - 1);
    var r := SplitOnce(s, i);
    var b := i + Pow2(s.frames[i].order - 1);
    UpperHalf(i, s.frames[i].order - 1);
    forall j | 0 <= j < |r.frames| && r.frames[j].status == FRAME_FREE && 0 <= r.frames[j].order < MAX_ORDER
      ensures NoFreeBuddy(r, j)
    {
      if j != b {
        SplitOnceNoFreeBuddy(s, i, j);
      }
    }
  }

  /** The upper half of an allocated block is interior. */
  lemma UpperInterior(s: State, i: nat)
    requires Inv(s) && Live(s, i) && 0 < s.frames[i].order
    requires FieldsOk(s, i)
    ensures var b := i + Pow2(s.frames[i].order - 1); i < b < |s.frames| && s.frames[b] == s.frames[b].(order := -1, status := FRAME_BUDDY)
  {
    hide Cover, ListOk, Listed, Coalesced, Aligned;
    var b := i + Pow2(s.frames[i].order - 1);
    assert Spans(s, i, b);
    assert FieldsOk(s, b);
  }

  lemma SplitOnceLists(s: State, i: nat)
    requires Inv(s) && Live(s, i) && 0 < s.frames[i].order
    requires FieldsOk(s, i)
    ensures Lists(SplitOnce(s, i)) && Listed(SplitOnce(s, i))
  {
    hide Fields, Interiors, Cover, Coalesced, Aligned, Pow2;
    var r := SplitOnce(s, i);
    var b := i + Pow2(s.frames[i].order - 1);
    UpperInterior(s, i);
    forall h | 0 <= h <= MAX_ORDER ensures ListOk(r, h) {
      assert ListOk(s, h);
      assert b !in s.lists[h] && i !in s.lists[h];
    }
  }

  lemma SplitOnceInv(s: State, i: nat)
    requires Inv(s) && Live(s, i) && 0 < s.frames[i].order
    requires FieldsOk(s, i)
    ensures Inv(SplitOnce(s, i)) && Live(SplitOnce(s, i), i)
  {
    hide Fields, Interiors, Cover, Lists, Listed, Coalesced, Aligned, Pow2;
    UpperInterior(s, i);
    SplitOnceFields(s, i);
    SplitOnceInteriors(s, i);
    SplitOnceCover(s, i);
    SplitOnceCoalesced(s, i);
    SplitOnceLists(s, i);
  }

  lemma MergeOnceFacts(s: State, i: nat)
    requires Inv(s) && Live(s, i) && Mergeable(s, i) && FieldsOk(s, i)
    ensures var k := s.frames[i].order;
            var b := Xor(i, Pow2(k));
            var m, u := Min(i, b), i + b - Min(i, b);
            && b != i && Aligned(m, k + 1) && u == m + Pow2(k) && m + Pow2(k + 1) <= |s.frames|
            && Pow2(k + 1) == 2 * Pow2(k)
            && b in s.lists[k] && FieldsOk(s, b)
            && forall a, j {:trigger Spans(MergeOnce(s, i), a, j)} ::
                 Spans(MergeOnce(s, i), a, j) <==> (if a == m then Spans(s, m, j) || Spans(s, u, j) else a != u && Spans(s, a, j))
  {
    hide Interiors, Cover, Coalesced, Pow2, Xor, Aligned;
    BuddyIsSibling(i, s.frames[i].order);
    DoublePow2(s.frames[i].order);
    assert FieldsOk(s, Xor(i, Pow2(s.frames[i].order)));
  }

  lemma MergeOnceFields(s: State, i: nat)
    requires Inv(s) && Live(s, i) && Mergeable(s, i) && FieldsOk(s, i)
    ensures Fields(MergeOnce(s, i))
  {
    hide Interiors, Cover, ListOk, Listed, Coalesced, Aligned, Xor;
    var r := MergeOnce(s, i);
    var k := s.frames[i].order;
    var b := Xor(i, Pow2(k));
    var m, u := Min(i, b), i + b - Min(i, b);
    MergeOnceFacts(s, i);
    forall j | 0 <= j < |r.frames| ensures FieldsOk(r, j) {
      assert FieldsOk(s, j);
    }
  }

  lemma MergeOnceInteriors(s: State, i: nat)
    requires Inv(s) && Live(s, i) && Mergeable(s, i) && FieldsOk(s, i)
    ensures Interiors(MergeOnce(s, i))
  {
    hide Fields, Cover, ListOk, Listed, Coalesced, Aligned, Xor;
    var r := MergeOnce(s, i);
    var k := s.frames[i].order;
    var b := Xor(i, Pow2(k));
    var m, u := Min(i, b), i + b - Min(i, b);
    MergeOnceFacts(s, i);
    forall a, j | Spans(r, a, j) && j != a && j < |r.frames| ensures r.frames[j].order == -1 {
      if a != m {
        assert Spans(s, a, j) && j != a;
      }
    }
  }

  lemma MergeOnceCover(s: State, i: nat)
    requires Inv(s) && Live(s, i) && Mergeable(s, i) && FieldsOk(s, i)
    ensures Cover(MergeOnce(s, i))
  {
    hide Fields, Interiors, ListOk, Listed, Coalesced, Aligned, Xor;
    var r := MergeOnce(s, i);
    var k := s.frames[i].order;
    var b := Xor(i, Pow2(k));
    var m, u := Min(i, b), i + b - Min(i, b);
    MergeOnceFacts(s, i);
    forall j | 0 <= j < |r.frames| ensures Covered(r, j) {
      assert Covered(s, j);
      var a :| Spans(s, a, j);
      assert Spans(r, if a == u then m else a, j);
    }
  }

  lemma MergeOnceCoalesced(s: State, i: nat)
    requires Inv(s) && Live(s, i) && Mergeable(s, i) && FieldsOk(s, i)
    ensures Coalesced(MergeOnce(s, i))
  {
    hide Fields, Interiors, Cover, ListOk, Listed, Aligned, Xor;
    var r := MergeOnce(s, i);
    forall j | 0 <= j < |r.frames| && r.frames[j].status == FRAME_FREE && 0 <= r.frames[j].order < MAX_ORDER
      ensures NoFreeBuddy(r, j)
    {
      assert NoFreeBuddy(s, j);
    }
  }

  lemma MergeOnceInv(s: State, i: nat)
    requires Inv(s) && Live(s, i) && Mergeable(s, i) && FieldsOk(s, i)
    ensures Inv(MergeOnce(s, i)) && Live(MergeOnce(s, i), Min(i, Xor(i, Pow2(s.frames[i].order))))
  {
    var r := MergeOnce(s, i);
    var k := s.frames[i].order;
    var b := Xor(i, Pow2(k));
    MergeOnceFields(s, i);
    MergeOnceInteriors(s, i);
    MergeOnceCover(s, i);
    MergeOnceCoalesced(s, i);
    MergeOnceFacts(s, i);
    forall h | 0 <= h <= MAX_ORDER ensures ListOk(r, h) {
      assert ListOk(s, h);
      if h == k {
        RemoveDistinct(s.lists[k], b);
      }
      assert b !in r.lists[h] && i !in r.lists[h];
    }
  }

  /** Replacing the status of frames but no order changes no block. */
  lemma SameBlocks(s: State, r: State)
    requires Inv(s) && Fields(r) && |r.frames| == |s.frames|
    requires forall j :: 0 <= j < |s.frames| ==> r.frames[j].order == s.frames[j].order
    ensures Interiors(r) && Cover(r)
  {
    forall a, j | Spans(r, a, j) && j != a && j < |r.frames| ensures r.frames[j].order == -1 {
      assert Spans(s, a, j);
    }
    forall j | 0 <= j < |r.frames| ensures Covered(r, j) {
      assert Covered(s, j);
      var a :| Spans(s, a, j);
      assert Spans(r, a, j);
    }
  }

  lemma PutInv(s: State, i: nat)
    requires Inv(s) && Live(s, i) && !Mergeable(s, i) && FieldsOk(s, i)
    ensures Inv(Put(s, i))
  {
    hide Interiors, Cover, Coalesced, Aligned, Xor, Pow2;
    var r := Put(s, i);
    var k := s.frames[i].order;
    assert Fields(r) by {
      forall j | 0 <= j < |r.frames| ensures FieldsOk(r, j) {
        assert FieldsOk(s, j);
      }
    }
    SameBlocks(s, r);
    assert Lists(r) by {
      forall h | 0 <= h <= MAX_ORDER ensures ListOk(r, h) {
        assert ListOk(s, h);
        assert i !in s.lists[h];
      }
    }
    PutCoalesced(s, i);
  }

  lemma PutCoalesced(s: State, i: nat)
    requires Inv(s) && Live(s, i) && !Mergeable(s, i) && FieldsOk(s, i)
    ensures Coalesced(Put(s, i))
  {
    hide Interiors, Cover, ListOk, Listed, Aligned, Pow2, Xor;
    var r := Put(s, i);
    var k := s.frames[i].order;
    BuddyIsSibling(i, k);
    forall j | 0 <= j < |r.frames| && r.frames[j].status == FRAME_FREE && 0 <= r.frames[j].order < MAX_ORDER
      ensures NoFreeBuddy(r, j)
    {
      if j != i {
        assert NoFreeBuddy(s, j);
        assert FieldsOk(s, j);
        BuddyIsSibling(j, s.frames[j].order);
      }
    }
  }
}
