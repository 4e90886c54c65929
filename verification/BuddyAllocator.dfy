/** struct buddy_allocator with its frame array, intrusive free lists and counters
    (lab7/src/memory.c:48-149), proved equal to BuddySpec step by step. */
module BuddyAllocator {
  import opened Bits
  import opened Seqs
  import opened BuddyModel
  import Spec = BuddySpec
  import Theorems = BuddyTheorems
  import opened ListFamily

  lemma BuddyIsNotSelf(v: State, i: nat)
    requires Inv(v) && Live(v, i)
    ensures Xor(i, Pow2(v.frames[i].order)) != i
  {
    assert FieldsOk(v, i);
    BuddyIsSibling(i, v.frames[i].order);
  }

  class Buddy {
    const base: nat
    const frames: array<Frame>
    const sizes: array<int>
    const links: FreeLists

    /** The arrays and links are separate and of the right length. */
    ghost predicate Shape()
      reads this, frames, sizes, links, links.next, links.prev
    {
      && base > 0
      && sizes.Length == MAX_ORDER + 1
      && frames as object != sizes && frames as object != links.next && frames as object != links.prev
      && sizes != links.next && sizes != links.prev
      && links.Valid() && links.n == frames.Length && |links.lists| == MAX_ORDER + 1
    }

    ghost function Abs(): State
      reads this, frames, sizes, links
    {
      State(frames[..], links.lists, sizes[..])
    }

    ghost predicate Valid()
      reads this, frames, sizes, links, links.next, links.prev
    {
      Shape() && Inv(Abs())
    }

    /** buddy_init: empty lists, every frame an allocated block of one page. */
    constructor (base: nat, totalPages: nat)
      requires base > 0
      ensures Valid() && this.base == base && Abs() == Spec.Initial(totalPages)
      ensures fresh(frames) && fresh(sizes) && fresh(links) && fresh(links.next) && fresh(links.prev)
    {
      this.base := base;
      var fr := new Frame[totalPages];
      var sz := new int[MAX_ORDER + 1];
      var ls := new FreeLists(totalPages, MAX_ORDER + 1);
      frames, sizes, links := fr, sz, ls;
      new;
      for i := 0 to MAX_ORDER + 1
        modifies sizes
        invariant forall j :: 0 <= j < i ==> sizes[j] == 0
      {
        sizes[i] := 0;
      }
      for i := 0 to totalPages
        modifies frames
        invariant forall j :: 0 <= j < i ==> frames[j] == AllocHead(0)
      {
        frames[i] := Frame(0, FRAME_ALLOC);
      }
      assert Abs() == Spec.Initial(totalPages);
      Spec.InitialInv(totalPages);
    }

    /** buddy_alloc: the address of a block of 2^order pages, 0 when there is none. */
    method Alloc(order: nat) returns (addr: nat)
      requires Valid()
      modifies frames, sizes, links`lists, links.next, links.prev
      ensures Valid()
      ensures Abs() == Spec.Alloc(old(Abs()), order).0
      ensures match Spec.Alloc(old(Abs()), order).1
              case None => addr == 0
              case Some(idx) => addr == base + idx * PAGE_SIZE
      ensures order <= MAX_ORDER ==> (addr == 0 <==> !exists a: nat :: Theorems.FreeRun(old(Abs()), a, order))
      ensures addr != 0 ==> exists h: nat, o: nat :: addr == base + h * PAGE_SIZE && Theorems.CutFrom(old(Abs()), Abs(), h, o, order)
    {
      ghost var s := Abs();
      Theorems.AllocCutsSmallest(s, order);
      if order <= MAX_ORDER { Theorems.AllocFailsIffNoFreeRun(s, order); }
      var i := order;
      while i <= MAX_ORDER
        invariant order <= i && Abs() == s && Shape()
        invariant order <= MAX_ORDER + 1 ==> i <= MAX_ORDER + 1
        invariant Spec.FirstList(s, order) == Spec.FirstList(s, i)
      {
        assert ListOk(s, i);
        var empty := links.Empty(i);
        if !empty {
          var idx := TakeAndSplit(i, order);
          addr := base + idx * PAGE_SIZE;
          return;
        }
        i := i + 1;
      }
      addr := 0;
    }

    /** The three statements that return a block to its list (lines 86-89 and 144-147). */
    method PushFree(idx: nat, order: nat)
      requires Shape() && idx < frames.Length && order <= MAX_ORDER
      requires forall h :: 0 <= h < |links.lists| ==> idx !in links.lists[h]
      modifies frames, sizes, links`lists, links.next, links.prev
      ensures Shape() && Abs() == Pushed(old(Abs()), idx, order)
    {
      frames[idx] := Frame(order, FRAME_FREE);
      links.Add(idx, order);
      sizes[order] := sizes[order] + 1;
    }

    /** The two statements that take a block off its list (lines 73-74 and 129-130). */
    method Unlink(idx: nat, order: nat)
      requires Shape() && order <= MAX_ORDER && idx in links.lists[order]
      modifies sizes, links`lists, links.next, links.prev
      ensures Shape() && Abs() == Unlinked(old(Abs()), idx, order)
    {
      links.Del(idx, order);
      sizes[order] := sizes[order] - 1;
    }

    /** The body of the search loop: unlink the first block of list i, halve it down to the
        wanted order, then mark it allocated. */
    method TakeAndSplit(i0: nat, order: nat) returns (idx: nat)
      requires Valid() && order <= i0 <= MAX_ORDER && links.lists[i0] != [] && ListOk(Abs(), i0)
      modifies frames, sizes, links`lists, links.next, links.prev
      ensures Shape() && idx == old(links.lists[i0][0])
      ensures ListOk(old(Abs()), i0) && Inv(TakeHead(old(Abs()), i0)) && Live(TakeHead(old(Abs()), i0), idx)
      ensures TakeHead(old(Abs()), i0).frames[idx].order == i0
      ensures Abs() == Spec.SplitTo(TakeHead(old(Abs()), i0), idx, order)
    {
      ghost var t := TakeHead(Abs(), i0);
      TakeHeadInv(Abs(), i0);
      UnlinkedIsTaken(Abs(), i0);
      idx := links.First(i0);
      Unlink(idx, i0);
      SplitDown(idx, i0, order, t);
    }

    /** The inner loop of buddy_alloc: halve block idx, returning each upper half to its list. */
    method SplitDown(idx: nat, i0: nat, order: nat, ghost t: State)
      requires Shape() && Inv(t) && Live(t, idx) && t.frames[idx].order == i0 && order <= i0 <= MAX_ORDER
      requires Abs() == t.(frames := t.frames[idx := FreeHead(i0)])
      modifies frames, sizes, links`lists, links.next, links.prev
      ensures Shape() && Abs() == Spec.SplitTo(t, idx, order)
    {
      hide Inv, Pow2, SplitOnce;
      var i := i0;
      ghost var v := t;
      while i != order
        invariant order <= i <= i0 && Shape() && Inv(v) && Live(v, idx) && v.frames[idx].order == i
        invariant Abs() == v.(frames := v.frames[idx := FreeHead(i0)])
        invariant Spec.SplitTo(v, idx, order) == Spec.SplitTo(t, idx, order)
      {
        SplitStep(v, idx, i0);
        i := i - 1;
        var buddyIdx := idx + Pow2(i);
        PushFree(buddyIdx, i);
        v := SplitOnce(v, idx);
      }
      frames[idx] := Frame(order, FRAME_ALLOC);
      assert Abs() == v;
    }

    /** buddy_free of the page-aligned address of a live block. */
    method Free(addr: nat)
      requires Valid() && base <= addr && Live(Abs(), (addr - base) / PAGE_SIZE)
      modifies frames, sizes, links`lists, links.next, links.prev
      ensures Valid()
      ensures Abs() == Spec.Free(old(Abs()), (addr - base) / PAGE_SIZE)
      ensures Theorems.Merged(old(Abs()), Abs(), (addr - base) / PAGE_SIZE)
    {
      hide Theorems.Merged;
      Theorems.FreePutsFirst(Abs(), (addr - base) / PAGE_SIZE);
      var idx := (addr - base) / PAGE_SIZE;
      ghost var s, first, v := Abs(), idx, Abs();
      assert FieldsOk(v, idx);
      var order := frames[idx].order;
      frames[idx] := Frame(-1, FRAME_BUDDY);
      while order < MAX_ORDER
        invariant Shape() && Inv(v) && Live(v, idx) && v.frames[idx].order == order <= MAX_ORDER
        invariant Abs() == v.(frames := v.frames[idx := INTERIOR])
        invariant Spec.MergeUp(v, idx) == Spec.MergeUp(s, first)
      {
        var buddyIdx := Xor(idx, Pow2(order));
        BuddyIsNotSelf(v, idx);
        if buddyIdx >= frames.Length { break; }
        if frames[buddyIdx].status == FRAME_FREE && frames[buddyIdx].order == order {
          MergeStep(v, idx);
          Unlink(buddyIdx, order);
          frames[buddyIdx] := Frame(-1, FRAME_BUDDY);
          v := MergeOnce(v, idx);
          if buddyIdx < idx { idx := buddyIdx; }
          order := order + 1;
        } else {
          break;
        }
      }
      PutStep(v, idx);
      PushFree(idx, order);
      assert Abs() == Put(v, idx);
    }
  }

  // ---------------------------------------------------------------- one step each

  function Pushed(s: State, idx: nat, order: nat): State
    requires idx < |s.frames| && order < |s.lists| == |s.sizes|
  {
    State(s.frames[idx := FreeHead(order)], s.lists[order := [idx] + s.lists[order]], s.sizes[order := s.sizes[order] + 1])
  }

  function Unlinked(s: State, idx: nat, order: nat): State
    requires order < |s.lists| == |s.sizes|
  {
    State(s.frames, s.lists[order := Remove(s.lists[order], idx)], s.sizes[order := s.sizes[order] - 1])
  }

  lemma UnlinkedIsTaken(s: State, k: nat)
    requires Inv(s) && k <= MAX_ORDER && ListOk(s, k) && s.lists[k] != []
    ensures var i, t := s.lists[k][0], TakeHead(s, k);
            i in s.lists[k] && i < |s.frames| && Unlinked(s, i, k) == t.(frames := t.frames[i := FreeHead(k)])
  {
    var i := s.lists[k][0];
    assert i in s.lists[k];
    assert s.frames == s.frames[i := AllocHead(k)][i := FreeHead(k)];
  }

  lemma NotListed(v: State, i: nat)
    requires Inv(v) && i < |v.frames| && v.frames[i].status != FRAME_FREE
    ensures forall h :: 0 <= h < |v.lists| ==> i !in v.lists[h]
  {
    forall h | 0 <= h < |v.lists| ensures i !in v.lists[h] {
      assert ListOk(v, h);
    }
  }

  /** One iteration of the split loop: on the real state block i still looks free. */
  lemma SplitStep(v: State, i: nat, i0: nat)
    requires Inv(v) && Live(v, i) && 0 < v.frames[i].order
    ensures var k := v.frames[i].order - 1;
            var b := i + Pow2(k);
            var r := v.(frames := v.frames[i := FreeHead(i0)]);
            && b < |v.frames| && k < MAX_ORDER && (forall h :: 0 <= h < |v.lists| ==> b !in v.lists[h])
            && FieldsOk(v, i) && Inv(SplitOnce(v, i)) && Live(SplitOnce(v, i), i) && SplitOnce(v, i).frames[i].order == k
            && Pushed(r, b, k) == SplitOnce(v, i).(frames := SplitOnce(v, i).frames[i := FreeHead(i0)])
  {
    assert FieldsOk(v, i);
    SplitOnceInv(v, i);
    var k := v.frames[i].order - 1;
    var b := i + Pow2(k);
    assert Spans(v, i, b);
    assert FieldsOk(v, b);
    NotListed(v, b);
    assert v.frames[i := FreeHead(i0)][b := FreeHead(k)] == v.frames[i := AllocHead(k)][b := FreeHead(k)][i := FreeHead(i0)];
  }

  /** One iteration of the merge loop: on the real state block i already looks interior. */
  lemma MergeStep(v: State, i: nat)
    requires Inv(v) && Live(v, i) && Mergeable(v, i)
    ensures var k := v.frames[i].order;
            var b := Xor(i, Pow2(k));
            var r := v.(frames := v.frames[i := INTERIOR]);
            var m := MergeOnce(v, i);
            && b in v.lists[k] && FieldsOk(v, i) && Inv(m) && Live(m, Min(i, b)) && m.frames[Min(i, b)].order == k + 1
            && Unlinked(r, b, k).(frames := r.frames[b := INTERIOR]) == m.(frames := m.frames[Min(i, b) := INTERIOR])
  {
    assert FieldsOk(v, i);
    MergeOnceFacts(v, i);
    MergeOnceInv(v, i);
    var k := v.frames[i].order;
    var b := Xor(i, Pow2(k));
    assert v.frames[i := INTERIOR][b := INTERIOR] == MergeOnce(v, i).frames[Min(i, b) := INTERIOR];
  }

  lemma PutStep(v: State, i: nat)
    requires Inv(v) && Live(v, i) && !Mergeable(v, i)
    ensures FieldsOk(v, i) && Inv(Put(v, i)) && forall h :: 0 <= h < |v.lists| ==> i !in v.lists[h]
    ensures Pushed(v.(frames := v.frames[i := INTERIOR]), i, v.frames[i].order) == Put(v, i)
  {
    hide Pow2, Xor, Aligned;
    assert FieldsOk(v, i);
    PutInv(v, i);
    NotListed(v, i);
    assert v.frames[i := INTERIOR][i := FreeHead(v.frames[i].order)] == v.frames[i := FreeHead(v.frames[i].order)];
  }
}
