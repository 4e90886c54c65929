/** The intrusive circular lists of lab7/inc/list.h.  Nodes and list heads are indices into
    two arrays of links; every list is proved to hold a given sequence of nodes. */
module Links {
  import opened Seqs

  const NULL := -1

  /** Position p of the ring made of head h and the nodes of l; both ends wrap to the head. */
  function At(h: int, l: seq<nat>, p: int): int {
    if 0 <= p < |l| then l[p] else h
  }

  predicate NextOk(next: seq<int>, h: int, l: seq<nat>, p: int) {
    0 <= At(h, l, p) < |next| && next[At(h, l, p)] == At(h, l, p + 1)
  }

  predicate PrevOk(prev: seq<int>, h: int, l: seq<nat>, p: int) {
    0 <= At(h, l, p) < |prev| && prev[At(h, l, p)] == At(h, l, p - 1)
  }

  /** The links describe the circular list with head h and nodes l. */
  ghost predicate Linked(next: seq<int>, prev: seq<int>, h: int, l: seq<nat>) {
    && |next| == |prev| && h !in l && Distinct(l)
    && (forall p :: -1 <= p < |l| ==> NextOk(next, h, l, p))
    && (forall p :: 0 <= p <= |l| ==> PrevOk(prev, h, l, p))
  }

  /** The list with x at position q. */
  function Inserted(l: seq<nat>, q: nat, x: nat): (r: seq<nat>)
    requires q <= |l|
  {
    l[..q] + [x] + l[q..]
  }

  lemma InsertedAt(h: int, l: seq<nat>, q: nat, x: nat, p: int)
    requires q <= |l| && -1 <= p <= |l| + 1
    ensures At(h, Inserted(l, q, x), p) == if p < q then At(h, l, p) else if p == q then x else At(h, l, p - 1)
  {
  }

  lemma InsertedMembers(l: seq<nat>, q: nat, x: nat)
    requires q <= |l| && x !in l && Distinct(l)
    ensures Distinct(Inserted(l, q, x))
    ensures forall y :: y in Inserted(l, q, x) <==> y in l || y == x
  {
    var r := Inserted(l, q, x);
    assert forall p :: 0 <= p < |r| ==> r[p] == if p < q then l[p] else if p == q then x else l[p - 1];
    forall y ensures y in r <==> y in l || y == x {
      if y in l {
        var p :| 0 <= p < |l| && l[p] == y;
        assert r[if p < q then p else p + 1] == y;
      }
      if y == x { assert r[q] == x; }
    }
  }

  /** Positions of a ring name different nodes, except that both ends name the head. */
  lemma SamePosition(h: int, l: seq<nat>, p: int, q: int)
    requires h !in l && Distinct(l) && -1 <= p <= |l| && -1 <= q <= |l|
    ensures At(h, l, p) == At(h, l, q) <==> p == q || (p in {-1, |l|} && q in {-1, |l|})
  {
  }

  /** The arrays after __list_add(x, a, b), as lab7/inc/list.h:23-30 writes them. */
  function NextAfterAdd(next: seq<int>, x: nat, a: int, b: int): seq<int>
    requires x < |next| && 0 <= a < |next|
  {
    next[x := b][a := x]
  }

  function PrevAfterAdd(prev: seq<int>, x: nat, a: int, b: int): seq<int>
    requires x < |prev| && 0 <= b < |prev|
  {
    prev[b := x][x := a]
  }

  lemma InsertNext(next: seq<int>, h: int, l: seq<nat>, q: nat, x: nat, p: int)
    requires h !in l && Distinct(l) && q <= |l| && x < |next| && x != h && x !in l
    requires forall p :: -1 <= p < |l| ==> NextOk(next, h, l, p)
    requires 0 <= At(h, l, q - 1) < |next| && -1 <= p <= |l|
    ensures NextOk(NextAfterAdd(next, x, At(h, l, q - 1), At(h, l, q)), h, Inserted(l, q, x), p)
  {
    InsertedAt(h, l, q, x, p);
    InsertedAt(h, l, q, x, p + 1);
    if p < q {
      SamePosition(h, l, p, q - 1);
      assert NextOk(next, h, l, p);
    } else if p > q {
      SamePosition(h, l, p - 1, q - 1);
      assert NextOk(next, h, l, p - 1);
    }
  }

  lemma InsertPrev(prev: seq<int>, h: int, l: seq<nat>, q: nat, x: nat, p: int)
    requires h !in l && Distinct(l) && q <= |l| && x < |prev| && x != h && x !in l
    requires forall p :: 0 <= p <= |l| ==> PrevOk(prev, h, l, p)
    requires 0 <= At(h, l, q) < |prev| && 0 <= p <= |l| + 1
    ensures PrevOk(PrevAfterAdd(prev, x, At(h, l, q - 1), At(h, l, q)), h, Inserted(l, q, x), p)
  {
    InsertedAt(h, l, q, x, p);
    InsertedAt(h, l, q, x, p - 1);
    if p < q {
      SamePosition(h, l, p, q);
      assert PrevOk(prev, h, l, p);
    } else if p > q {
      SamePosition(h, l, p - 1, q);
      assert PrevOk(prev, h, l, p - 1);
    }
  }

  /** __list_add between two neighbours inserts exactly one node there. */
  lemma InsertLinks(next: seq<int>, prev: seq<int>, h: int, l: seq<nat>, q: nat, x: nat)
    requires Linked(next, prev, h, l) && q <= |l| && x < |next| && x != h && x !in l
    requires 0 <= At(h, l, q) < |next| && 0 <= At(h, l, q - 1) < |next|
    ensures Linked(NextAfterAdd(next, x, At(h, l, q - 1), At(h, l, q)),
                   PrevAfterAdd(prev, x, At(h, l, q - 1), At(h, l, q)), h, Inserted(l, q, x))
  {
    InsertedMembers(l, q, x);
    var r := Inserted(l, q, x);
    var nx := NextAfterAdd(next, x, At(h, l, q - 1), At(h, l, q));
    var pv := PrevAfterAdd(prev, x, At(h, l, q - 1), At(h, l, q));
    forall p | -1 <= p < |r| ensures NextOk(nx, h, r, p) {
      InsertNext(next, h, l, q, x, p);
    }
    forall p | 0 <= p <= |r| ensures PrevOk(pv, h, r, p) {
      InsertPrev(prev, h, l, q, x, p);
    }
  }

  /** The list without position q. */
  function Deleted(l: seq<nat>, q: nat): seq<nat>
    requires q < |l|
  {
    l[..q] + l[q + 1..]
  }

  /** The arrays after list_del(x) where a and b are its neighbours (lab7/inc/list.h:48-53). */
  function NextAfterDel(next: seq<int>, x: nat, a: int, b: int): seq<int>
    requires x < |next| && 0 <= a < |next|
  {
    next[a := b][x := NULL]
  }

  function PrevAfterDel(prev: seq<int>, x: nat, a: int, b: int): seq<int>
    requires x < |prev| && 0 <= b < |prev|
  {
    prev[b := a][x := NULL]
  }

  lemma DeleteNext(next: seq<int>, h: int, l: seq<nat>, q: nat, p: int)
    requires h !in l && Distinct(l) && q < |l| && l[q] < |next|
    requires forall p :: -1 <= p < |l| ==> NextOk(next, h, l, p)
    requires 0 <= At(h, l, q - 1) < |next| && -1 <= p < |l| - 1
    ensures NextOk(NextAfterDel(next, l[q], At(h, l, q - 1), At(h, l, q + 1)), h, Deleted(l, q), p)
  {
    var p' := if p < q then p else p + 1;
    assert At(h, Deleted(l, q), p) == At(h, l, p');
    assert At(h, Deleted(l, q), p + 1) == At(h, l, if p + 1 < q then p + 1 else p + 2);
    assert At(h, l, q) == l[q];
    SamePosition(h, l, p', q - 1);
    SamePosition(h, l, p', q);
    assert NextOk(next, h, l, p');
  }

  lemma DeletePrev(prev: seq<int>, h: int, l: seq<nat>, q: nat, p: int)
    requires h !in l && Distinct(l) && q < |l| && l[q] < |prev|
    requires forall p :: 0 <= p <= |l| ==> PrevOk(prev, h, l, p)
    requires 0 <= At(h, l, q + 1) < |prev| && 0 <= p <= |l| - 1
    ensures PrevOk(PrevAfterDel(prev, l[q], At(h, l, q - 1), At(h, l, q + 1)), h, Deleted(l, q), p)
  {
    var p' := if p < q then p else p + 1;
    assert At(h, Deleted(l, q), p) == At(h, l, p');
    assert At(h, Deleted(l, q), p - 1) == At(h, l, if p - 1 < q then p - 1 else p);
    assert At(h, l, q) == l[q];
    SamePosition(h, l, p', q + 1);
    SamePosition(h, l, p', q);
    assert PrevOk(prev, h, l, p');
  }

  /** list_del of the node at position q removes exactly that node. */
  lemma DeleteLinks(next: seq<int>, prev: seq<int>, h: int, l: seq<nat>, q: nat)
    requires Linked(next, prev, h, l) && q < |l|
    requires l[q] < |next| && 0 <= At(h, l, q + 1) < |next| && 0 <= At(h, l, q - 1) < |next|
    ensures Linked(NextAfterDel(next, l[q], At(h, l, q - 1), At(h, l, q + 1)),
                   PrevAfterDel(prev, l[q], At(h, l, q - 1), At(h, l, q + 1)), h, Remove(l, l[q]))
  {
    var r := Remove(l, l[q]);
    var nx := NextAfterDel(next, l[q], At(h, l, q - 1), At(h, l, q + 1));
    var pv := PrevAfterDel(prev, l[q], At(h, l, q - 1), At(h, l, q + 1));
    RemoveAt(l, q);
    RemoveDistinct(l, l[q]);
    assert r == Deleted(l, q);
    forall p | -1 <= p < |r| ensures NextOk(nx, h, r, p) {
      DeleteNext(next, h, l, q, p);
    }
    forall p | 0 <= p <= |r| ensures PrevOk(pv, h, r, p) {
      DeletePrev(prev, h, l, q, p);
    }
  }

  /** Links of other nodes do not matter. */
  lemma LinkedFrame(next: seq<int>, prev: seq<int>, next': seq<int>, prev': seq<int>, h: int, l: seq<nat>)
    requires Linked(next, prev, h, l) && |next'| == |next| == |prev'|
    requires forall p {:trigger At(h, l, p)} :: -1 <= p <= |l| && 0 <= At(h, l, p) < |next| ==>
               next'[At(h, l, p)] == next[At(h, l, p)] && prev'[At(h, l, p)] == prev[At(h, l, p)]
    ensures Linked(next', prev', h, l)
  {
    forall p | -1 <= p < |l| ensures NextOk(next', h, l, p) {
      assert NextOk(next, h, l, p);
    }
    forall p | 0 <= p <= |l| ensures PrevOk(prev', h, l, p) {
      assert PrevOk(prev, h, l, p);
    }
  }

  // ---------------------------------------------------------------- a node added twice

  /** The node that n steps along next lead to. */
  function Follow(next: seq<int>, p: int, n: nat): int
    decreases n
  {
    if n == 0 || !(0 <= p < |next|) then p else Follow(next, next[p], n - 1)
  }

  lemma {:induction false} FollowSelf(next: seq<int>, x: nat, n: nat)
    requires x < |next| && next[x] == x
    ensures Follow(next, x, n) == x
  {
    if n > 0 { FollowSelf(next, x, n - 1); }
  }

  lemma NoListThrough(next: seq<int>, h: nat, m: seq<nat>, x: nat)
    requires h < |next| && x < |next| && h != x && next[h] == x && next[x] == x
    ensures h !in m && Distinct(m) ==> exists p :: -1 <= p < |m| && !NextOk(next, h, m, p)
  {
    if m == [] || m[0] != x {
      assert !NextOk(next, h, m, -1);
    } else if h !in m && Distinct(m) {
      SamePosition(h, m, 0, 1);
      assert !NextOk(next, h, m, 0);
    }
  }

  /** list_add of the first node of a list once more: the node becomes its own successor, so that no
      other node is reached from the head any more and the head is not reached again.  The links
      are no circular list of any nodes. */
  lemma AddedTwiceLoops(next: seq<int>, prev: seq<int>, h: nat, l: seq<nat>)
    requires Linked(next, prev, h, l) && l != [] && h < |next| && l[0] < |next|
    ensures var nx, pv := NextAfterAdd(next, l[0], h, l[0]), PrevAfterAdd(prev, l[0], h, l[0]);
            && (forall n: nat :: n > 0 ==> Follow(nx, h, n) == l[0])
            && (forall m :: !Linked(nx, pv, h, m))
  {
    var x := l[0];
    var nx, pv := NextAfterAdd(next, x, h, x), PrevAfterAdd(prev, x, h, x);
    assert x in l && nx[h] == x && nx[x] == x;
    forall n: nat | n > 0 ensures Follow(nx, h, n) == x {
      FollowSelf(nx, x, n - 1);
    }
    forall m ensures !Linked(nx, pv, h, m) {
      NoListThrough(nx, h, m, x);
    }
  }
}
