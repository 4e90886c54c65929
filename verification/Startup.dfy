/** The tail of startup_allocator (lab7/src/memory.c:334-375): placing the frame array,
    marking reserved frames and seeding the free lists. */
module Startup {
  import opened Bits
  import opened BuddyModel
  import opened BuddySpec
  import Theorems = BuddyTheorems
  import opened BuddyAllocator

  const SIZEOF_FRAME := 24

  datatype Region = Region(start: nat, end: nat)

  /** (x + PAGE_SIZE - 1) & ~(PAGE_SIZE - 1) */
  function AlignUp(x: nat): (r: nat)
    ensures x <= r < x + PAGE_SIZE && r % PAGE_SIZE == 0
    ensures forall y: nat :: x <= y < r ==> y % PAGE_SIZE != 0
  {
    (x + PAGE_SIZE - 1) / PAGE_SIZE * PAGE_SIZE
  }

  predicate Overlaps(lo: nat, hi: nat, r: Region) {
    !(hi <= r.start || lo >= r.end)
  }

  /** The frame array goes to the lowest page-aligned address above the kernel image at
      which it overlaps no reserved region. */
  method PlaceMetadata(kernelEnd: nat, totalPages: nat, rg: seq<Region>) returns (lo: nat, hi: nat)
    ensures lo % PAGE_SIZE == 0 && kernelEnd <= lo && hi == lo + totalPages * SIZEOF_FRAME
    ensures forall i :: 0 <= i < |rg| ==> !Overlaps(lo, hi, rg[i])
    ensures forall x: nat :: kernelEnd <= x < lo && x % PAGE_SIZE == 0 ==>
              exists i :: 0 <= i < |rg| && Overlaps(x, x + totalPages * SIZEOF_FRAME, rg[i])
  {
    lo := AlignUp(kernelEnd);
    hi := lo + totalPages * SIZEOF_FRAME;
    var overlap := true;
    while overlap
      invariant lo % PAGE_SIZE == 0 && kernelEnd <= lo
      invariant !overlap ==> hi == lo + totalPages * SIZEOF_FRAME && forall i :: 0 <= i < |rg| ==> !Overlaps(lo, hi, rg[i])
      invariant forall x: nat :: kernelEnd <= x < lo && x % PAGE_SIZE == 0 ==>
                  exists i :: 0 <= i < |rg| && Overlaps(x, x + totalPages * SIZEOF_FRAME, rg[i])
      decreases (set j | 0 <= j < |rg| && lo < rg[j].end), overlap
    {
      overlap := false;
      hi := lo + totalPages * SIZEOF_FRAME;
      var i := 0;
      while i < |rg|
        invariant 0 <= i <= |rg| && !overlap
        invariant forall j :: 0 <= j < i ==> !Overlaps(lo, hi, rg[j])
      {
        if Overlaps(lo, hi, rg[i]) {
          ghost var was := lo;
          lo := AlignUp(rg[i].end);
          overlap := true;
          forall x: nat | was <= x < lo && x % PAGE_SIZE == 0
            ensures exists i :: 0 <= i < |rg| && Overlaps(x, x + totalPages * SIZEOF_FRAME, rg[i])
          {
            assert x < rg[i].end;
            assert Overlaps(x, x + totalPages * SIZEOF_FRAME, rg[i]);
          }
          ghost var above, above' := (set j | 0 <= j < |rg| && was < rg[j].end), (set j | 0 <= j < |rg| && lo < rg[j].end);
          assert i in above && i !in above';
          assert above' < above;
          break;
        }
        i := i + 1;
      }
    }
  }

  /** Region r touches the frame at index j of a RAM starting at base. */
  predicate Touches(base: nat, r: Region, j: int) {
    r.start < base + (j + 1) * PAGE_SIZE && base + j * PAGE_SIZE < r.end
  }

  predicate Reserved(base: nat, rg: seq<Region>, j: int) {
    exists i :: 0 <= i < |rg| && Touches(base, rg[i], j)
  }

  /** A region that is not empty touches exactly the frames that hold one of its bytes. */
  lemma TouchesIff(base: nat, r: Region, j: int)
    requires r.start < r.end
    ensures Touches(base, r, j) <==> exists x :: r.start <= x < r.end && InFrame(base, j, x)
  {
    if Touches(base, r, j) {
      var lo := base + j * PAGE_SIZE;
      assert InFrame(base, j, if r.start < lo then lo else r.start);
    }
  }

  /** The byte at address x lies in the frame at index j. */
  predicate InFrame(base: nat, j: int, x: int) { base + j * PAGE_SIZE <= x < base + (j + 1) * PAGE_SIZE }

  /** Before seeding every frame is a block of its own, reserved or not. */
  ghost predicate Unseeded(s: State) {
    && |s.lists| == |s.sizes| == MAX_ORDER + 1
    && (forall k :: 0 <= k <= MAX_ORDER ==> s.lists[k] == [] && s.sizes[k] == 0)
    && (forall j :: 0 <= j < |s.frames| ==> s.frames[j] == AllocHead(0) || s.frames[j] == Frame(0, FRAME_RESERVED))
  }

  lemma UnseededInv(s: State)
    requires Unseeded(s)
    ensures Inv(s) && forall j :: !FreeAt(s, j)
  {
    assert Pow2(0) == 1;
    forall j | 0 <= j < |s.frames| ensures Covered(s, j) {
      assert Spans(s, j, j);
    }
    assert forall k :: 0 <= k <= MAX_ORDER ==> ListOk(s, k);
  }

  /** The first i frames are seeded: free unless reserved; the rest are untouched. */
  ghost predicate Seeded(s: State, base: nat, rg: seq<Region>, i: nat) {
    && Inv(s)
    && (forall j :: 0 <= j < |s.frames| ==>
          && FreeAt(s, j) == (j < i && !Reserved(base, rg, j))
          && (Reserved(base, rg, j) ==> s.frames[j] == Frame(0, FRAME_RESERVED))
          && (j >= i && !Reserved(base, rg, j) ==> s.frames[j] == AllocHead(0)))
  }

  lemma SeedSkip(s: State, base: nat, rg: seq<Region>, i: nat)
    requires Seeded(s, base, rg, i) && i < |s.frames| && s.frames[i].status == FRAME_RESERVED
    ensures Seeded(s, base, rg, i + 1)
  {
  }

  /** The frame that is seeded next is reserved or an allocated block of one page. */
  lemma SeededAt(s: State, base: nat, rg: seq<Region>, i: nat)
    requires Seeded(s, base, rg, i) && i < |s.frames|
    ensures Reserved(base, rg, i) <==> s.frames[i].status == FRAME_RESERVED
  {
    hide Inv, Reserved, FreeAt;
  }

  lemma SeedStep(s: State, base: nat, rg: seq<Region>, i: nat)
    requires Seeded(s, base, rg, i) && i < |s.frames| && !Reserved(base, rg, i)
    ensures Live(s, i) && Seeded(Free(s, i), base, rg, i + 1)
  {
    var r := Free(s, i);
    FreeHeld(s, i);
    assert Pow2(0) == 1;
    forall j | 0 <= j < |s.frames|
      ensures FreeAt(r, j) == (j < i + 1 && !Reserved(base, rg, j))
      ensures Reserved(base, rg, j) ==> r.frames[j] == Frame(0, FRAME_RESERVED)
      ensures j >= i + 1 && !Reserved(base, rg, j) ==> r.frames[j] == AllocHead(0)
    {
      FreeFree(s, i, j);
      assert Held(s, j) || j < i;
    }
  }

  /** buddy_init, the reserving loop and the seeding loop. */
  method SeedAllocator(base: nat, totalPages: nat, rg: seq<Region>) returns (b: Buddy)
    requires base > 0
    requires forall i :: 0 <= i < |rg| ==> base <= rg[i].start && base <= rg[i].end
    ensures b.Valid() && b.base == base && b.frames.Length == totalPages
    ensures Seeded(b.Abs(), base, rg, totalPages)
  {
    b := new Buddy(base, totalPages);
    var i := 0;
    while i < |rg|
      invariant 0 <= i <= |rg| && b.Shape() && Unseeded(b.Abs())
      invariant forall j :: 0 <= j < totalPages ==> (b.frames[j].status == FRAME_RESERVED <==> Reserved(base, rg[..i], j))
    {
      MarkRegion(b, rg, i);
      i := i + 1;
    }
    assert rg[..i] == rg;
    UnseededInv(b.Abs());
    SeedAll(b, rg);
  }

  /** The seeding loop: free every frame that is not reserved. */
  method SeedAll(b: Buddy, rg: seq<Region>)
    requires b.Valid() && Seeded(b.Abs(), b.base, rg, 0)
    modifies b.frames, b.sizes, b.links`lists, b.links.next, b.links.prev
    ensures b.Valid() && Seeded(b.Abs(), b.base, rg, b.frames.Length)
  {
    hide Seeded, Inv;
    var i := 0;
    while i < b.frames.Length
      invariant 0 <= i <= b.frames.Length && b.Valid() && Seeded(b.Abs(), b.base, rg, i)
    {
      var f := b.frames[i];
      assert b.Abs().frames[i] == f;
      SeededAt(b.Abs(), b.base, rg, i);
      if f.status != FRAME_RESERVED {
        SeedStep(b.Abs(), b.base, rg, i);
        b.Free(b.base + i * PAGE_SIZE);
      } else {
        SeedSkip(b.Abs(), b.base, rg, i);
      }
      i := i + 1;
    }
  }

  /** The inner reserving loop: mark the frames that region i touches. */
  method MarkRegion(b: Buddy, rg: seq<Region>, i: nat)
    requires b.Shape() && Unseeded(b.Abs()) && i < |rg|
    requires b.base <= rg[i].start && b.base <= rg[i].end
    requires forall j :: 0 <= j < b.frames.Length ==> (b.frames[j].status == FRAME_RESERVED <==> Reserved(b.base, rg[..i], j))
    modifies b.frames
    ensures b.Shape() && Unseeded(b.Abs())
    ensures forall j :: 0 <= j < b.frames.Length ==> (b.frames[j].status == FRAME_RESERVED <==> Reserved(b.base, rg[..i + 1], j))
  {
    var startIdx := (rg[i].start - b.base) / PAGE_SIZE;
    var endIdx := (rg[i].end - b.base + PAGE_SIZE - 1) / PAGE_SIZE;
    var j := startIdx;
    while j < endIdx
      invariant startIdx <= j && (j == startIdx || j <= endIdx) && b.Shape() && Unseeded(b.Abs())
      invariant forall h :: 0 <= h < b.frames.Length ==>
                  (b.frames[h].status == FRAME_RESERVED <==> Reserved(b.base, rg[..i], h) || startIdx <= h < j)
    {
      if j < b.frames.Length {
        b.frames[j] := b.frames[j].(status := FRAME_RESERVED);
      }
      j := j + 1;
    }
    forall h | 0 <= h < b.frames.Length
      ensures Reserved(b.base, rg[..i + 1], h) <==> Reserved(b.base, rg[..i], h) || startIdx <= h < j
    {
      OneMoreRegion(b.base, rg, i, h);
      assert Touches(b.base, rg[i], h) <==> startIdx <= h < endIdx;
    }
  }

  lemma OneMoreRegion(base: nat, rg: seq<Region>, i: nat, h: int)
    requires i < |rg|
    ensures Reserved(base, rg[..i + 1], h) <==> Reserved(base, rg[..i], h) || Touches(base, rg[i], h)
  {
    if Reserved(base, rg[..i], h) {
      var q :| 0 <= q < |rg[..i]| && Touches(base, rg[..i][q], h);
      assert rg[..i + 1][q] == rg[..i][q];
    }
    if Touches(base, rg[i], h) {
      assert rg[..i + 1][i] == rg[i];
    }
    if Reserved(base, rg[..i + 1], h) && !Touches(base, rg[i], h) {
      var q :| 0 <= q < |rg[..i + 1]| && Touches(base, rg[..i + 1][q], h);
      assert rg[..i][q] == rg[..i + 1][q];
    }
  }

  /** startup_allocator from the point where the reserved regions are known. */
  method StartupAllocator(base: nat, size: nat, rg: seq<Region>, kernelEnd: nat) returns (b: Buddy, meta: Region)
    requires 0 < base <= kernelEnd
    requires forall i :: 0 <= i < |rg| ==> base <= rg[i].start && base <= rg[i].end
    ensures b.Valid() && b.base == base && b.frames.Length == size / PAGE_SIZE
    ensures meta.end == meta.start + b.frames.Length * SIZEOF_FRAME
    ensures forall i :: 0 <= i < |rg| ==> !Overlaps(meta.start, meta.end, rg[i])
    ensures Seeded(b.Abs(), base, rg + [meta], size / PAGE_SIZE)
  {
    var totalPages := size / PAGE_SIZE;
    var lo, hi := PlaceMetadata(kernelEnd, totalPages, rg);
    meta := Region(lo, hi);
    b := SeedAllocator(base, totalPages, rg + [meta]);
  }

  /** After startup the free blocks are the maximal aligned runs of unreserved frames. */
  lemma StartupBlocks(s: State, base: nat, rg: seq<Region>, h: nat, o: nat)
    requires Seeded(s, base, rg, |s.frames|) && o <= MAX_ORDER
    ensures Theorems.FreeBlock(s, h, o)
       <==> Unreserved(|s.frames|, base, rg, h, o)
            && (o == MAX_ORDER || !Unreserved(|s.frames|, base, rg, Theorems.Parent(h, o), o + 1))
  {
    Theorems.BlocksAreMaximalRuns(s, h, o);
    UnreservedIsFree(s, base, rg, h, o);
    UnreservedIsFree(s, base, rg, Theorems.Parent(h, o), o + 1);
  }

  ghost predicate Unreserved(n: nat, base: nat, rg: seq<Region>, a: nat, k: nat) {
    Aligned(a, k) && a + Pow2(k) <= n && forall j :: InBlock(a, k, j) ==> !Reserved(base, rg, j)
  }

  lemma UnreservedIsFree(s: State, base: nat, rg: seq<Region>, a: nat, k: nat)
    requires Seeded(s, base, rg, |s.frames|)
    ensures Theorems.FreeRun(s, a, k) <==> Unreserved(|s.frames|, base, rg, a, k)
  {
    if a + Pow2(k) <= |s.frames| {
      assert forall j :: InBlock(a, k, j) ==> FreeAt(s, j) == !Reserved(base, rg, j);
    }
  }

  /** No byte of a reserved region is ever handed out, whatever requests follow startup. */
  lemma HandedOutAvoidsRegions(s: State, base: nat, rg: seq<Region>, qs: seq<Theorems.Request>, k: nat, i: nat, byte: nat)
    requires Seeded(s, base, rg, |s.frames|) && i < |rg|
    requires rg[i].start <= byte < rg[i].end && base <= byte
    ensures var (r, idx) := Alloc(Theorems.ServeAll(s, qs), k);
            idx.Some? ==> !(base + idx.value * PAGE_SIZE <= byte < base + (idx.value + Pow2(k)) * PAGE_SIZE)
  {
    var (r, idx) := Alloc(Theorems.ServeAll(s, qs), k);
    if idx.Some? && base + idx.value * PAGE_SIZE <= byte < base + (idx.value + Pow2(k)) * PAGE_SIZE {
      var j := (byte - base) / PAGE_SIZE;
      assert Touches(base, rg[i], j);
      assert InBlock(idx.value, k, j);
      assert FieldsOk(r, idx.value);
      Theorems.ReservedNeverHandedOut(s, qs, k, j);
    }
  }
}
