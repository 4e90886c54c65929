/** buddy_alloc and buddy_free as functions on allocator states, and what they do to
    the set of free frames and to the other blocks. */
module BuddySpec {
  import opened Bits
  import opened BuddyModel

  // ---------------------------------------------------------------- operations

  /** The split loop: halve block i until its order is k. */
  function SplitTo(s: State, i: nat, k: nat): (r: State)
    requires Inv(s) && Live(s, i) && k <= s.frames[i].order
    ensures Inv(r) && Live(r, i) && r.frames[i].order == k && |r.frames| == |s.frames|
    decreases s.frames[i].order
  {
    assert FieldsOk(s, i);
    if s.frames[i].order == k then s
    else
      SplitOnceInv(s, i);
      SplitTo(SplitOnce(s, i), i, k)
  }

  /** The merge loop: join block i with free buddies as long as there is one. */
  function MergeUp(s: State, i: nat): (r: (State, nat))
    requires Inv(s) && Live(s, i)
    ensures Inv(r.0) && Live(r.0, r.1) && !Mergeable(r.0, r.1) && |r.0.frames| == |s.frames|
    decreases MAX_ORDER - s.frames[i].order
  {
    assert FieldsOk(s, i);
    if Mergeable(s, i) then
      MergeOnceInv(s, i);
      MergeUp(MergeOnce(s, i), Min(i, Xor(i, Pow2(s.frames[i].order))))
    else (s, i)
  }

  /** The first non-empty list of order k or more; MAX_ORDER + 1 if all are empty. */
  function FirstList(s: State, k: nat): (i: nat)
    requires |s.lists| == MAX_ORDER + 1
    ensures k <= MAX_ORDER + 1 ==> k <= i <= MAX_ORDER + 1
    ensures i <= MAX_ORDER ==> s.lists[i] != []
    ensures forall h :: k <= h < i && h <= MAX_ORDER ==> s.lists[h] == []
    decreases MAX_ORDER + 1 - k
  {
    if k > MAX_ORDER then k
    else if s.lists[k] != [] then k
    else FirstList(s, k + 1)
  }

  /** buddy_alloc(k): the new state and the index of the block, None for a null result. */
  function Alloc(s: State, k: nat): (r: (State, Option<nat>))
    requires Inv(s)
    ensures Inv(r.0) && |r.0.frames| == |s.frames|
    ensures r.1.Some? ==> Live(r.0, r.1.value) && r.0.frames[r.1.value].order == k
  {
    var i := FirstList(s, k);
    if i > MAX_ORDER then (s, None)
    else
      assert ListOk(s, i);
      TakeHeadInv(s, i);
      var t := TakeHead(s, i);
      (SplitTo(t, s.lists[i][0], k), Some(s.lists[i][0]))
  }

  /** buddy_free of the live block at i. */
  function Free(s: State, i: nat): (r: State)
    requires Inv(s) && Live(s, i)
    ensures Inv(r) && |r.frames| == |s.frames|
  {
    var m := MergeUp(s, i);
    assert FieldsOk(m.0, m.1);
    PutInv(m.0, m.1);
    Put(m.0, m.1)
  }

  /** buddy_init: empty lists, every frame an allocated block of one page. */
  function Initial(n: nat): State {
    State(seq(n, _ => AllocHead(0)), seq(MAX_ORDER + 1, _ => []), seq(MAX_ORDER + 1, _ => 0))
  }

  lemma InitialInv(n: nat)
    ensures Inv(Initial(n)) && forall i :: 0 <= i < n ==> Live(Initial(n), i)
  {
    var s := Initial(n);
    assert Pow2(0) == 1;
    forall j | 0 <= j < n ensures Covered(s, j) {
      assert Spans(s, j, j);
    }
    assert forall k :: 0 <= k <= MAX_ORDER ==> ListOk(s, k);
  }

  // ---------------------------------------------------------------- free frames

  /** Frame j lies in a free block. */
  ghost predicate FreeAt(s: State, j: int) {
    exists i :: Spans(s, i, j) && s.frames[i].status == FRAME_FREE
  }

  predicate InBlock(i: int, k: nat, j: int) { i <= j < i + Pow2(k) }

  lemma NotFreeIn(s: State, i: nat, j: int)
    requires Inv(s) && i < |s.frames| && s.frames[i].order >= 0 && s.frames[i].status != FRAME_FREE
    requires InBlock(i, s.frames[i].order, j)
    ensures !FreeAt(s, j)
  {
    forall a | Spans(s, a, j) ensures a == i {
      assert Spans(s, i, j);
      OneOwner(s, a, i, j);
    }
  }

  lemma TakeHeadFree(s: State, k: nat, j: int)
    requires Inv(s) && k <= MAX_ORDER && ListOk(s, k) && s.lists[k] != []
    ensures FreeAt(s, j) <==> FreeAt(TakeHead(s, k), j) || InBlock(s.lists[k][0], k, j)
  {
    var r := TakeHead(s, k);
    var i := s.lists[k][0];
    assert i in s.lists[k];
    assert forall a :: Spans(r, a, j) <==> Spans(s, a, j);
  }

  lemma SplitOnceFree(s: State, i: nat, j: int)
    requires Inv(s) && Live(s, i) && FieldsOk(s, i) && 0 < s.frames[i].order
    ensures FreeAt(s, j) || InBlock(i, s.frames[i].order, j)
       <==> FreeAt(SplitOnce(s, i), j) || InBlock(i, s.frames[i].order - 1, j)
  {
    var r := SplitOnce(s, i);
    var k := s.frames[i].order - 1;
    var b := i + Pow2(k);
    assert Spans(s, i, b);
    assert s.frames[b].order == -1;
    if FreeAt(s, j) {
      var a :| Spans(s, a, j) && s.frames[a].status == FRAME_FREE;
      assert Spans(r, a, j);
    }
    if InBlock(b, k, j) {
      assert Spans(r, b, j);
    }
  }

  lemma MergeOnceFree(s: State, i: nat, j: int)
    requires Inv(s) && Live(s, i) && Mergeable(s, i) && FieldsOk(s, i)
    ensures var k := s.frames[i].order;
            (FreeAt(s, j) || InBlock(i, k, j)
             <==> FreeAt(MergeOnce(s, i), j) || InBlock(Min(i, Xor(i, Pow2(k))), k + 1, j))
  {
    var r := MergeOnce(s, i);
    var k := s.frames[i].order;
    var b := Xor(i, Pow2(k));
    MergeOnceFacts(s, i);
    if FreeAt(s, j) {
      var a :| Spans(s, a, j) && s.frames[a].status == FRAME_FREE;
      if a != b { assert Spans(r, a, j); }
    }
    if InBlock(b, k, j) {
      assert Spans(s, b, j);
    }
  }

  lemma PutFree(s: State, i: nat, j: int)
    requires Inv(s) && Live(s, i) && FieldsOk(s, i)
    ensures FreeAt(Put(s, i), j) <==> FreeAt(s, j) || InBlock(i, s.frames[i].order, j)
  {
    var r := Put(s, i);
    assert forall a :: Spans(r, a, j) <==> Spans(s, a, j);
    if FreeAt(s, j) {
      var a :| Spans(s, a, j) && s.frames[a].status == FRAME_FREE;
      assert Spans(r, a, j) && r.frames[a].status == FRAME_FREE;
    }
    if InBlock(i, s.frames[i].order, j) {
      assert Spans(r, i, j);
    }
  }

  lemma {:induction false} SplitToFree(s: State, i: nat, k: nat, j: int)
    requires Inv(s) && Live(s, i) && k <= s.frames[i].order
    ensures FreeAt(s, j) || InBlock(i, s.frames[i].order, j)
       <==> FreeAt(SplitTo(s, i, k), j) || InBlock(i, k, j)
    decreases s.frames[i].order
  {
    assert FieldsOk(s, i);
    if s.frames[i].order > k {
      SplitOnceInv(s, i);
      SplitOnceFree(s, i, j);
      SplitToFree(SplitOnce(s, i), i, k, j);
    }
  }

  lemma {:induction false} MergeUpFree(s: State, i: nat, j: int)
    requires Inv(s) && Live(s, i)
    ensures var m := MergeUp(s, i);
            (FreeAt(s, j) || InBlock(i, s.frames[i].order, j)
             <==> FreeAt(m.0, j) || InBlock(m.1, m.0.frames[m.1].order, j))
    decreases MAX_ORDER - s.frames[i].order
  {
    hide FreeAt, Interiors, Cover, Lists, Listed, Coalesced, Aligned, Xor;
    assert FieldsOk(s, i);
    if Mergeable(s, i) {
      MergeOnceInv(s, i);
      MergeOnceFree(s, i, j);
      MergeUpFree(MergeOnce(s, i), Min(i, Xor(i, Pow2(s.frames[i].order))), j);
    }
  }

  /** Allocation takes exactly the frames of the returned block out of the free frames,
      and they were all free. */
  lemma AllocFree(s: State, k: nat, j: int)
    requires Inv(s)
    ensures var (r, i) := Alloc(s, k);
            && (i.None? ==> r == s)
            && (i.Some? ==> FreeAt(r, j) == (FreeAt(s, j) && !InBlock(i.value, k, j))
                            && (InBlock(i.value, k, j) ==> FreeAt(s, j)))
  {
    var h := FirstList(s, k);
    if h <= MAX_ORDER {
      assert ListOk(s, h);
      TakeHeadInv(s, h);
      TakeHeadFree(s, h, j);
      var t := TakeHead(s, h);
      var i := s.lists[h][0];
      SplitToFree(t, i, k, j);
      var r := SplitTo(t, i, k);
      if InBlock(i, k, j) {
        NotFreeIn(r, i, j);
      }
    }
  }

  /** Freeing adds exactly the frames of the block to the free frames. */
  lemma FreeFree(s: State, i: nat, j: int)
    requires Inv(s) && Live(s, i)
    ensures FreeAt(Free(s, i), j) <==> FreeAt(s, j) || InBlock(i, s.frames[i].order, j)
  {
    var m := MergeUp(s, i);
    assert FieldsOk(m.0, m.1);
    MergeUpFree(s, i, j);
    PutFree(m.0, m.1, j);
  }

  // ---------------------------------------------------------------- other blocks

  /** Frame a heads a block that is not free. */
  predicate Held(s: State, a: int) {
    0 <= a < |s.frames| && s.frames[a].order >= 0 && s.frames[a].status != FRAME_FREE
  }

  ghost predicate SameHeldBut(s: State, i: nat, r: State, i': nat) {
    && |r.frames| == |s.frames|
    && forall a :: 0 <= a < |s.frames| ==>
         (Held(r, a) && a != i' <==> Held(s, a) && a != i) && (Held(s, a) && a != i ==> r.frames[a] == s.frames[a])
  }

  lemma {:induction false} SplitToHeld(s: State, i: nat, k: nat)
    requires Inv(s) && Live(s, i) && k <= s.frames[i].order
    ensures SameHeldBut(s, i, SplitTo(s, i, k), i)
    decreases s.frames[i].order
  {
    assert FieldsOk(s, i);
    if s.frames[i].order > k {
      SplitOnceInv(s, i);
      var b := i + Pow2(s.frames[i].order - 1);
      assert Spans(s, i, b);
      assert s.frames[b].order == -1;
      assert SameHeldBut(s, i, SplitOnce(s, i), i);
      SplitToHeld(SplitOnce(s, i), i, k);
    }
  }

  lemma {:induction false} MergeUpHeld(s: State, i: nat)
    requires Inv(s) && Live(s, i)
    ensures var m := MergeUp(s, i); SameHeldBut(s, i, m.0, m.1)
    decreases MAX_ORDER - s.frames[i].order
  {
    assert FieldsOk(s, i);
    if Mergeable(s, i) {
      MergeOnceInv(s, i);
      var b := Min(i, Xor(i, Pow2(s.frames[i].order)));
      assert SameHeldBut(s, i, MergeOnce(s, i), b);
      MergeUpHeld(MergeOnce(s, i), b);
    }
  }

  /** Allocation changes no block that was already handed out or reserved; the only
      new one is the block it returns. */
  lemma AllocHeld(s: State, k: nat)
    requires Inv(s)
    ensures var (r, i) := Alloc(s, k);
            forall a :: 0 <= a < |s.frames| ==>
              && (Held(r, a) <==> Held(s, a) || i == Some(a))
              && (Held(s, a) ==> i != Some(a) && r.frames[a] == s.frames[a])
  {
    var h := FirstList(s, k);
    if h <= MAX_ORDER {
      assert ListOk(s, h);
      TakeHeadInv(s, h);
      var i := s.lists[h][0];
      assert i in s.lists[h];
      SplitToHeld(TakeHead(s, h), i, k);
    }
  }

  /** Freeing a block changes no other block that is handed out or reserved. */
  lemma FreeHeld(s: State, i: nat)
    requires Inv(s) && Live(s, i)
    ensures forall a :: 0 <= a < |s.frames| ==>
              && (Held(Free(s, i), a) <==> Held(s, a) && a != i)
              && (Held(s, a) && a != i ==> Free(s, i).frames[a] == s.frames[a])
  {
    var m := MergeUp(s, i);
    MergeUpHeld(s, i);
  }
}
